/**
 The Windows writer (src-tauri/src/flash_windows.rs): hold locks on the volumes of the disk, write
 the image with unbuffered writes that may be partial, hash the disk, release, rescan.
 */
module FlashWindows {
  import opened Wrappers
  import opened Bytes
  import opened Streams
  import opened Text
  import opened Progress
  import opened Reports
  import opened Win32

  const SECTOR: nat := 4096

  /** The first `off` bytes of the chunk are on the disk at `at`, and nothing else has changed. */
  ghost predicate Delivered(card: seq<byte>, media: seq<byte>, at: nat, chunk: seq<byte>, off: nat) {
    && off <= |chunk| && at + off <= |media| == |card|
    && (forall i :: at <= i < at + off ==> media[i] == chunk[i - at])
    && SameOutside(card, media, at, at + off)
  }

  lemma DeliversPart(
    card: seq<byte>, media: seq<byte>, media': seq<byte>, at: nat, chunk: seq<byte>, off: nat, part: seq<byte>)
    requires Delivered(card, media, at, chunk, off)
    requires off + |part| <= |chunk| && part == chunk[off..off + |part|] && at + off + |part| <= |media|
    requires media' == Splice(media, at + off, part)
    ensures Delivered(card, media', at, chunk, off + |part|)
  {
    var from := at + off;
    forall i | from <= i < from + |part| ensures media'[i] == chunk[i - at] {
      assert media'[from..from + |part|][i - from] == part[i - from];
    }
  }

  lemma StaysInside(card: seq<byte>, media: seq<byte>, media': seq<byte>, at: nat, chunk: seq<byte>, off: nat)
    requires Delivered(card, media, at, chunk, off)
    requires SameOutside(media, media', at + off, at + |chunk|)
    ensures SameOutside(card, media', at, at + |chunk|)
  {
  }

  lemma DeliveredWhole(card: seq<byte>, media: seq<byte>, at: nat, chunk: seq<byte>)
    requires Delivered(card, media, at, chunk, |chunk|)
    ensures media == Splice(card, at, chunk)
  {
    var s := Splice(card, at, chunk);
    forall i | 0 <= i < |card| ensures media[i] == s[i] {
      assert at <= i < at + |chunk| ==> s[at..at + |chunk|][i - at] == chunk[i - at];
    }
  }

  /** One call of `WriteFile` for what is left of the chunk. */
  method WritePart(
    k: Kernel, h: Handle, buf: array<byte>, off: nat, len: nat,
    ghost card: seq<byte>, ghost at: nat, ghost chunk: seq<byte>, ghost held: set<Handle>)
    returns (r: Result<nat, FlashError>)
    requires k.Valid() && h in k.pointers && held <= k.pointers.Keys
    requires off < len == |chunk| <= buf.Length && buf[..len] == chunk
    requires k.pointers[h] == at + off <= |k.media| == |card|
    requires k.faithful ==> Delivered(card, k.media, at, chunk, off)
    modifies k`media, k`pointers, k`trace
    ensures k.Valid() && |k.media| == |card| && k.pointers.Keys == old(k.pointers.Keys)
    ensures k.trace == old(k.trace) + [DiskWrite(h)]
    ensures r.Ok? ==> 0 < r.value <= len - off && k.pointers[h] == at + off + r.value <= |card|
    ensures r.Ok? && k.faithful ==> Delivered(card, k.media, at, chunk, off + r.value)
    ensures k.faithful ==> SameOutside(card, k.media, at, at + len)
    ensures k.reliable && at + len <= |card| ==> r.Ok?
    ensures r != Err(VerifyMismatch)
  {
    ghost var media := k.media;
    var wrote := k.WriteFile(h, buf, off, len);
    if k.faithful {
      StaysInside(card, media, k.media, at, chunk, off);
    }
    if wrote.None? {
      return Err(WriteRefused);
    }
    var n := wrote.value;
    if n == 0 {
      return Err(WroteNothing);
    }
    if k.faithful {
      assert buf[off..off + n] == chunk[off..off + n];
      DeliversPart(card, media, k.media, at, chunk, off, buf[off..off + n]);
    }
    r := Ok(n);
  }

  /** The inner loop: repeat `WriteFile` on what is left until the whole chunk is out. Whatever
      parts the system takes, the disk receives the chunk once, in order, without a gap. */
  method WriteOut(k: Kernel, h: Handle, buf: array<byte>, len: nat, ghost held: set<Handle>)
    returns (r: Result<(), FlashError>)
    requires k.Valid() && h in k.pointers && held <= k.pointers.Keys
    requires 0 < len <= buf.Length && k.pointers[h] <= |k.media|
    modifies k`media, k`pointers, k`trace
    ensures k.Valid() && |k.media| == old(|k.media|) && k.pointers.Keys == old(k.pointers.Keys)
    ensures Session(old(k.trace), k.trace, held)
    ensures r.Ok? ==> k.pointers[h] == old(k.pointers[h]) + len <= |k.media|
    ensures r.Ok? && k.faithful ==> k.media == Splice(old(k.media), old(k.pointers[h]), buf[..len])
    ensures k.faithful ==> SameOutside(old(k.media), k.media, old(k.pointers[h]), old(k.pointers[h]) + len)
    ensures k.reliable && old(k.pointers[h]) + len <= |k.media| ==> r.Ok?
    ensures r != Err(VerifyMismatch)
  {
    ghost var card, at, trace, chunk := k.media, k.pointers[h], k.trace, buf[..len];
    var off := 0;
    while off < len
      invariant off <= len && k.Valid() && k.pointers.Keys == old(k.pointers.Keys)
      invariant k.pointers[h] == at + off <= |k.media| == |card|
      invariant Session(trace, k.trace, held)
      invariant k.faithful ==> Delivered(card, k.media, at, chunk, off)
      decreases len - off
    {
      SessionStep(k.trace, DiskWrite(h), held);
      SessionJoins(trace, k.trace, k.trace + [DiskWrite(h)], held);
      var n :- WritePart(k, h, buf, off, len, card, at, chunk, held);
      off := off + n;
    }
    if k.faithful {
      DeliveredWhole(card, k.media, at, chunk);
    }
    r := Ok(());
  }

  /** What holds of disk and handle at every turn of the write loop. `card` is what the disk held
      before, `source` the bytes to copy, of which `done` are out. */
  ghost predicate OnDisk(k: Kernel, h: Handle, card: seq<byte>, source: seq<byte>, done: nat, sector: nat)
    requires sector > 0
    reads k
  {
    && k.Valid() && h in k.pointers && |k.media| == |card| && done <= |source|
    && RoundUp(done, sector) <= |card|
    && (done < |source| ==> k.pointers[h] == done && done % sector == 0)
    && (k.faithful ==> HoldsPrefix(card, k.media, source, done, sector))
  }

  /** What holds even when the pass stops half way through a write. */
  ghost predicate Confined(k: Kernel, card: seq<byte>, source: seq<byte>, sector: nat)
    requires sector > 0
    reads k
  {
    k.Valid() && |k.media| == |card| && (k.faithful ==> SameOutside(card, k.media, 0, RoundUp(|source|, sector)))
  }

  lemma OnDiskIsConfined(k: Kernel, h: Handle, card: seq<byte>, source: seq<byte>, done: nat, sector: nat)
    requires sector > 0 && OnDisk(k, h, card, source, done, sector)
    ensures Confined(k, card, source, sector)
  {
    RoundUpGrows(done, |source|, sector);
  }

  /** Pad the filled part of the buffer to whole sectors and write it all out. */
  method StorePadded(
    k: Kernel, h: Handle, buf: array<byte>, filled: nat, sector: nat,
    ghost card: seq<byte>, ghost source: seq<byte>, ghost done: nat, ghost held: set<Handle>)
    returns (r: Result<(), FlashError>)
    requires buf.Length == CHUNK && SuitsChunk(sector, CHUNK) && OnDisk(k, h, card, source, done, sector)
    requires 0 < filled <= CHUNK && done + filled <= |source| && buf[..filled] == source[done..done + filled]
    requires filled < CHUNK ==> done + filled == |source|
    requires held <= k.pointers.Keys
    modifies k`media, k`pointers, k`trace, buf
    ensures k.pointers.Keys == old(k.pointers.Keys) && Session(old(k.trace), k.trace, held)
    ensures r.Ok? ==> OnDisk(k, h, card, source, done + filled, sector)
    ensures Confined(k, card, source, sector)
    ensures k.reliable && RoundUp(|source|, sector) <= |card| ==> r.Ok?
    ensures r != Err(VerifyMismatch)
  {
    ghost var media, size := k.media, RoundUp(|source|, sector);
    ghost var chunk := source[done..done + filled];
    ChunkBounds(done, filled, |source|, sector);
    OnDiskIsConfined(k, h, card, source, done, sector);
    var aligned := AlignedSize(filled, sector);
    ZeroTail(buf, filled, aligned);
    assert buf[..aligned] == Padded(chunk, sector);
    r := WriteOut(k, h, buf, aligned, held);
    if k.faithful {
      SameOutsideJoins(card, media, k.media, done, done + aligned, size);
      if r.Ok? {
        ChunkExtends(card, media, k.media, source, done, filled, sector);
      }
    }
  }

  /** One turn of the chunk loop: fill across short reads, hash the real bytes, pad, write out,
      publish. Writes nothing when the file has no more bytes. */
  method Turn(
    image: ImageFile, k: Kernel, h: Handle, hasher: Hasher, progress: ProgressFile, buf: array<byte>,
    toRead: nat, sector: nat, done: nat,
    ghost card: seq<byte>, ghost source: seq<byte>, ghost trace: seq<Effect>, ghost held: set<Handle>)
    returns (r: Result<nat, FlashError>, written: nat)
    requires buf.Length == CHUNK && SuitsChunk(sector, CHUNK) && OnDisk(k, h, card, source, done, sector)
    requires image.pos == done <= |source| <= |image.data| && source == image.data[..|source|]
    requires toRead <= CHUNK && Min(toRead, |image.data| - done) == Min(CHUNK, |source| - done)
    requires held <= k.pointers.Keys && Session(trace, k.trace, held)
    modifies k`media, k`pointers, k`trace, image`pos, hasher, progress, buf
    ensures k.pointers.Keys == old(k.pointers.Keys) && Session(trace, k.trace, held)
    ensures r.Ok? ==> r.value == Min(CHUNK, |source| - done) && written == image.pos == done + r.value
    ensures r.Ok? ==> OnDisk(k, h, card, source, written, sector)
    ensures r.Ok? ==> hasher.fed == old(hasher.fed) + source[done..written]
    ensures r.Err? ==> written == done && !r.error.VerifyMismatch?
    ensures Confined(k, card, source, sector)
    ensures progress.history == old(progress.history) + (if written == done then [] else [Count(written)])
    ensures k.reliable && image.reliable && RoundUp(|source|, sector) <= |card| ==> r.Ok?
  {
    OnDiskIsConfined(k, h, card, source, done, sector);
    written := done;
    var fill := FillChunk(image, buf, toRead);
    if fill.Err? {
      return Err(ImageRead), done;
    }
    var filled := fill.value;
    ghost var chunk := source[done..done + filled];
    assert buf[..filled] == chunk;
    if filled == 0 {
      return Ok(0), done;
    }
    ghost var before := k.trace;
    var saved := SaveChunk(k, h, hasher, progress, buf, filled, sector, done, card, source, held);
    SessionJoins(trace, before, k.trace, held);
    if saved.Err? {
      return Err(saved.error), done;
    }
    written := done + filled;
    r := Ok(filled);
  }

  /** Hash the real bytes of a filled buffer, pad it and write it out, and say so. */
  method SaveChunk(
    k: Kernel, h: Handle, hasher: Hasher, progress: ProgressFile, buf: array<byte>, filled: nat, sector: nat,
    done: nat, ghost card: seq<byte>, ghost source: seq<byte>, ghost held: set<Handle>)
    returns (r: Result<(), FlashError>)
    requires buf.Length == CHUNK && SuitsChunk(sector, CHUNK) && OnDisk(k, h, card, source, done, sector)
    requires 0 < filled <= CHUNK && done + filled <= |source| && buf[..filled] == source[done..done + filled]
    requires filled < CHUNK ==> done + filled == |source|
    requires held <= k.pointers.Keys
    modifies k`media, k`pointers, k`trace, hasher, progress, buf
    ensures k.pointers.Keys == old(k.pointers.Keys) && Session(old(k.trace), k.trace, held)
    ensures r.Ok? ==> OnDisk(k, h, card, source, done + filled, sector)
    ensures hasher.fed == old(hasher.fed) + source[done..done + filled]
    ensures progress.history == old(progress.history) + (if r.Ok? then [Count(done + filled)] else [])
    ensures Confined(k, card, source, sector)
    ensures k.reliable && RoundUp(|source|, sector) <= |card| ==> r.Ok?
    ensures r != Err(VerifyMismatch)
  {
    hasher.Update(buf, filled);
    r := StorePadded(k, h, buf, filled, sector, card, source, done, held);
    if r.Ok? {
      progress.Publish(Count(done + filled));
    }
  }

  method WriteLoop(
    image: ImageFile, imageSize: nat, k: Kernel, h: Handle, sector: nat, hasher: Hasher, progress: ProgressFile,
    ghost card: seq<byte>, ghost source: seq<byte>, ghost held: set<Handle>)
    returns (r: Result<nat, FlashError>, written: nat)
    requires source == Source(image.data, imageSize) && SuitsChunk(sector, CHUNK)
    requires OnDisk(k, h, card, source, 0, sector) && image.pos == 0 && held <= k.pointers.Keys
    modifies k`media, k`pointers, k`trace, image`pos, hasher, progress
    ensures k.pointers.Keys == old(k.pointers.Keys) && Session(old(k.trace), k.trace, held)
    ensures r.Ok? ==> r.value == written == |source| && OnDisk(k, h, card, source, written, sector)
    ensures r.Ok? ==> hasher.fed == old(hasher.fed) + source
    ensures r.Err? ==> !r.error.VerifyMismatch?
    ensures Confined(k, card, source, sector) && written <= |source|
    ensures progress.history == old(progress.history) + Counts(ChunkReports(written))
    ensures k.reliable && image.reliable && RoundUp(|source|, sector) <= |card| ==> r.Ok?
  {
    ghost var fed, n, trace, history := hasher.fed, 0, k.trace, progress.history;
    var buf := new byte[CHUNK];
    written := 0;
    OnDiskIsConfined(k, h, card, source, 0, sector);
    while true
      invariant OnDisk(k, h, card, source, written, sector) && image.pos == written
      invariant Confined(k, card, source, sector)
      invariant k.pointers.Keys == old(k.pointers.Keys) && Session(trace, k.trace, held)
      invariant written < |source| ==> written == n * CHUNK
      invariant hasher.fed == fed + source[..written]
      invariant progress.history == history + Counts(ChunkReports(written))
      decreases |source| - written
    {
      var toRead := Min(imageSize - written, CHUNK);
      if toRead == 0 {
        break;
      }
      ghost var done := written;
      var turn;
      turn, written := Turn(image, k, h, hasher, progress, buf, toRead, sector, written, card, source, trace, held);
      if turn.Err? {
        return Err(turn.error), written;
      }
      if turn.value == 0 {
        break;
      }
      NextCount(history, n, done, written);
      assert source[..written] == source[..done] + source[done..written];
      n := n + 1;
    }
    assert source[..written] == source;
    r := Ok(written);
  }

  /** A pass opens the disk, lifts the boundary checks, tries to lock it, and flushes and closes it in
      the end. */
  ghost predicate WholePass(before: seq<Effect>, after: seq<Effect>) {
    && before <= after && |after| >= |before| + 5 && after[|before|].Opened?
    && var h := after[|before|].h;
    && after[|before| + 1] == Extended(h) && after[|before| + 2] == Locked(h)
    && after[|after| - 2] == Flushed(h) && after[|after| - 1] == Closed(h)
  }

  lemma PassIsWhole(before: seq<Effect>, opening: seq<Effect>, inner: seq<Effect>, h: Handle)
    requires Opens(opening, h) && before + opening <= inner && |inner| > |before + opening|
    requires inner[|inner| - 1] == Flushed(h)
    ensures WholePass(before, inner + [Closed(h)])
  {
    var t := before + opening;
    assert inner[..|t|] == t;
    assert forall i :: 0 <= i < 3 ==> inner[|before| + i] == t[|before| + i] == opening[i];
  }

  /** `write_pass`: the loop on a handle of its own, closed on every way out. */
  method WritePass(
    k: Kernel, image: ImageFile, imageSize: nat, sha: seq<byte> -> string, progress: ProgressFile,
    ghost held: set<Handle>)
    returns (r: Result<string, FlashError>, ghost written: nat)
    requires k.Valid() && held <= k.pointers.Keys
    modifies k`media, k`pointers, k`next, k`trace, image`pos, progress
    ensures k.Valid() && |k.media| == old(|k.media|) && k.pointers.Keys == old(k.pointers.Keys)
    ensures Session(old(k.trace), k.trace, held)
    ensures r.Ok? ==> r.value == sha(Source(image.data, imageSize)) && written == |Source(image.data, imageSize)|
    ensures r.Ok? ==> RoundUp(written, SECTOR) <= |k.media|
    ensures r.Ok? && k.faithful ==>
              HoldsPrefix(old(k.media), k.media, Source(image.data, imageSize), written, SECTOR)
    ensures k.faithful ==> SameOutside(old(k.media), k.media, 0, RoundUp(|Source(image.data, imageSize)|, SECTOR))
    ensures r.Err? ==> !r.error.VerifyMismatch?
    ensures written <= |Source(image.data, imageSize)|
    ensures progress.history == old(progress.history) + Counts(ChunkReports(written))
    ensures k.reliable && image.reliable && RoundUp(|Source(image.data, imageSize)|, SECTOR) <= |k.media| ==> r.Ok?
    ensures r.Ok? && k.reliable ==> WholePass(old(k.trace), k.trace)
  {
    ghost var trace, keys := k.trace, k.pointers.Keys;
    written := 0;
    var ok := image.Open();
    if !ok {
      return Err(CannotOpenImage), 0;
    }
    var dev, opening := OpenForWriting(k);
    if dev.None? {
      return Err(CannotOpenDevice), 0;
    }
    var h := dev.value;
    r, written := WriteOpened(k, h, image, imageSize, sha, progress, held);
    SessionWrapped(trace, opening, k.trace, h, held);
    if r.Ok? && k.reliable {
      PassIsWhole(trace, opening, k.trace, h);
    }
    k.Close(h);
    assert k.pointers.Keys == keys;
  }

  /** Open the disk for writing, lift the boundary checks, and try to lock the disk itself; whether
      these two succeed does not matter. */
  method OpenForWriting(k: Kernel) returns (r: Option<Handle>, ghost opening: seq<Effect>)
    requires k.Valid()
    modifies k`pointers, k`next, k`trace
    ensures k.Valid() && k.trace == old(k.trace) + opening
    ensures Quiet(opening)
    ensures r.Some? ==> r.value !in old(k.pointers) && k.pointers == old(k.pointers)[r.value := 0]
    ensures r.None? ==> k.pointers == old(k.pointers) && opening == []
    ensures k.reliable ==> r.Some? && Opens(opening, r.value)
  {
    opening := [];
    r := k.Open();
    if r.None? {
      return;
    }
    ghost var begun := k.trace;
    ghost var tried := LiftAndLock(k, r.value);
    opening := [Opened(r.value)] + tried;
    OpenedThen(old(k.trace), begun, k.trace, r.value, tried);
  }

  /** The events of opening the disk when no call fails. */
  ghost predicate Opens(opening: seq<Effect>, h: Handle) {
    |opening| == 3 && opening[0] == Opened(h) && opening[1] == Extended(h) && opening[2] == Locked(h)
  }

  lemma OpenedThen(before: seq<Effect>, begun: seq<Effect>, after: seq<Effect>, h: Handle, tried: seq<Effect>)
    requires begun == before + [Opened(h)] && after == begun + tried && Quiet(tried)
    ensures after == before + ([Opened(h)] + tried) && Quiet([Opened(h)] + tried)
    ensures |tried| == 2 && tried[0] == Extended(h) && tried[1] == Locked(h) ==> Opens([Opened(h)] + tried, h)
  {
    QuietJoins([Opened(h)], tried);
  }

  /** The two control codes whose failure does not matter. */
  method LiftAndLock(k: Kernel, h: Handle) returns (ghost events: seq<Effect>)
    requires k.Valid() && h in k.pointers
    modifies k`trace
    ensures k.Valid() && k.trace == old(k.trace) + events && Quiet(events)
    ensures k.reliable ==> |events| == 2 && events[0] == Extended(h) && events[1] == Locked(h)
  {
    var extended := k.Control(h, Extended(h));
    var locked := k.Control(h, Locked(h));
    events := (if extended then [Extended(h)] else []) + (if locked then [Locked(h)] else []);
  }

  /** The loop and the final flush, whose result is not looked at. */
  method WriteOpened(
    k: Kernel, h: Handle, image: ImageFile, imageSize: nat, sha: seq<byte> -> string, progress: ProgressFile,
    ghost held: set<Handle>)
    returns (r: Result<string, FlashError>, ghost written: nat)
    requires k.Valid() && h in k.pointers && k.pointers[h] == 0 && held <= k.pointers.Keys && image.pos == 0
    modifies k`media, k`pointers, k`trace, image`pos, progress
    ensures k.Valid() && |k.media| == old(|k.media|) && k.pointers.Keys == old(k.pointers.Keys)
    ensures Session(old(k.trace), k.trace, held)
    ensures r.Ok? ==> r.value == sha(Source(image.data, imageSize)) && written == |Source(image.data, imageSize)|
    ensures r.Ok? ==> RoundUp(written, SECTOR) <= |k.media|
    ensures r.Ok? && k.faithful ==>
              HoldsPrefix(old(k.media), k.media, Source(image.data, imageSize), written, SECTOR)
    ensures k.faithful ==> SameOutside(old(k.media), k.media, 0, RoundUp(|Source(image.data, imageSize)|, SECTOR))
    ensures r.Err? ==> !r.error.VerifyMismatch?
    ensures written <= |Source(image.data, imageSize)|
    ensures progress.history == old(progress.history) + Counts(ChunkReports(written))
    ensures k.reliable && image.reliable && RoundUp(|Source(image.data, imageSize)|, SECTOR) <= |k.media| ==> r.Ok?
    ensures r.Ok? && k.reliable ==> |k.trace| > |old(k.trace)| && k.trace[|k.trace| - 1] == Flushed(h)
  {
    ghost var card, source, trace := k.media, Source(image.data, imageSize), k.trace;
    var sector := SECTOR;
    SectorsInUse(CHUNK, sector);
    NothingWritten(card, source, sector);
    RoundUpFrom(0, 0, sector);
    var hasher := new Hasher(sha);
    var wrote, count := WriteLoop(image, imageSize, k, h, sector, hasher, progress, card, source, held);
    written := count;
    if wrote.Err? {
      return Err(wrote.error), written;
    }
    ghost var before := k.trace;
    var _ := k.Control(h, Flushed(h));
    SessionStep(before, Flushed(h), held);
    SessionJoins(trace, before, k.trace, held);
    assert hasher.fed == source;
    r := Ok(hasher.sha(hasher.fed));
  }

  /** One turn of the verify read: ask for a whole aligned chunk, hash only real image bytes. */
  method ReadTurn(
    k: Kernel, h: Handle, hasher: Hasher, buf: array<byte>, readSoFar: nat, imageSize: nat,
    ghost trace: seq<Effect>, ghost held: set<Handle>)
    returns (r: Option<nat>)
    requires k.Valid() && h in k.pointers && held <= k.pointers.Keys && Session(trace, k.trace, held)
    requires buf.Length == CHUNK && readSoFar < imageSize && k.pointers[h] == readSoFar <= |k.media|
    requires hasher.fed == k.media[..readSoFar]
    modifies k`pointers, k`trace, hasher, buf
    ensures k.Valid() && k.pointers.Keys == old(k.pointers.Keys) && Session(trace, k.trace, held)
    ensures r.Some? ==> readSoFar + r.value <= imageSize && readSoFar + r.value <= k.pointers[h] <= |k.media|
    ensures r.Some? && readSoFar + r.value < imageSize ==> k.pointers[h] == readSoFar + r.value
    ensures r.Some? ==> hasher.fed == k.media[..readSoFar + r.value]
    ensures r.Some? ==> (r.value == 0 <==> readSoFar == |k.media|)
    ensures k.reliable ==> r.Some?
  {
    ghost var before := k.trace;
    var got := k.ReadFile(h, buf, CHUNK);
    SessionStep(before, DiskRead(h), held);
    SessionJoins(trace, before, k.trace, held);
    if got.None? {
      return None;
    }
    var want := Min(imageSize - readSoFar, got.value);
    if got.value == 0 {
      return Some(0);
    }
    HashedPart(k.media, readSoFar, buf[..got.value], want);
    assert buf[..want] == buf[..got.value][..want];
    hasher.Update(buf, want);
    r := Some(want);
  }

  /** The read loop of the verify pass. */
  method ReadBack(
    k: Kernel, h: Handle, imageSize: nat, sha: seq<byte> -> string, progress: ProgressFile, ghost held: set<Handle>)
    returns (r: Result<string, FlashError>, ghost marks: seq<nat>)
    requires k.Valid() && h in k.pointers && k.pointers[h] == 0 && held <= k.pointers.Keys
    modifies k`pointers, k`trace, progress
    ensures k.Valid() && k.pointers.Keys == old(k.pointers.Keys) && Session(old(k.trace), k.trace, held)
    ensures r.Ok? ==> imageSize <= |k.media| && r.value == sha(k.media[..imageSize])
    ensures |k.media| < imageSize ==> r.Err?
    ensures k.reliable && imageSize <= |k.media| ==> r.Ok?
    ensures r.Err? ==> !r.error.VerifyMismatch?
    ensures Ascending(marks, imageSize)
    ensures progress.history == old(progress.history) + (if imageSize == 0 then [] else Percents(marks, imageSize))
    ensures r.Ok? && imageSize > 0 ==> marks != [] && PercentOf(marks[|marks| - 1], imageSize) == 100
  {
    ghost var history, trace := progress.history, k.trace;
    marks := [];
    var hasher := new Hasher(sha);
    var buf := new byte[CHUNK];
    var readSoFar: nat, lastPct: nat := 0, U32_MAX;
    assert k.media[..0] == [];
    while readSoFar < imageSize
      invariant readSoFar <= imageSize && k.Valid() && k.pointers.Keys == old(k.pointers.Keys)
      invariant readSoFar <= k.pointers[h] <= |k.media| && (readSoFar < imageSize ==> k.pointers[h] == readSoFar)
      invariant hasher.sha == sha && hasher.fed == k.media[..readSoFar]
      invariant Session(trace, k.trace, held)
      invariant progress.history == history + (if imageSize == 0 then [] else Percents(marks, imageSize))
      invariant Ascending(marks, readSoFar) && (imageSize > 0 ==> PercentsRise(marks, imageSize, lastPct))
      invariant 0 < readSoFar ==> marks != [] && lastPct == PercentOf(readSoFar, imageSize)
      decreases imageSize - readSoFar
    {
      var want := ReadTurn(k, h, hasher, buf, readSoFar, imageSize, trace, held);
      if want.None? {
        return Err(DeviceRead), marks;
      }
      if want.value == 0 {
        break;
      }
      readSoFar := readSoFar + want.value;
      lastPct, marks := PublishPercent(progress, readSoFar, imageSize, lastPct, marks, history);
    }
    if readSoFar != imageSize {
      return Err(ShortDevice(readSoFar, imageSize)), marks;
    }
    if imageSize > 0 {
      WholeIsHundred(imageSize);
    }
    r := Ok(hasher.sha(hasher.fed));
  }

  lemma HashedPart(media: seq<byte>, from: nat, got: seq<byte>, want: nat)
    requires from + |got| <= |media| && got == media[from..from + |got|] && want <= |got|
    ensures media[..from] + got[..want] == media[..from + want]
  {
  }

  /** `verify_pass`: the read loop on a handle of its own, closed on every way out. */
  method VerifyPass(
    k: Kernel, imageSize: nat, sha: seq<byte> -> string, progress: ProgressFile, ghost held: set<Handle>)
    returns (r: Result<string, FlashError>, ghost marks: seq<nat>)
    requires k.Valid() && held <= k.pointers.Keys
    modifies k`pointers, k`next, k`trace, progress
    ensures k.Valid() && k.pointers.Keys == old(k.pointers.Keys) && Session(old(k.trace), k.trace, held)
    ensures r.Ok? ==> imageSize <= |k.media| && r.value == sha(k.media[..imageSize])
    ensures |k.media| < imageSize ==> r.Err?
    ensures k.reliable && imageSize <= |k.media| ==> r.Ok?
    ensures r.Err? ==> !r.error.VerifyMismatch?
    ensures Ascending(marks, imageSize)
    ensures progress.history == old(progress.history) + (if imageSize == 0 then [] else Percents(marks, imageSize))
    ensures r.Ok? && imageSize > 0 ==> marks != [] && PercentOf(marks[|marks| - 1], imageSize) == 100
  {
    ghost var trace, keys := k.trace, k.pointers.Keys;
    marks := [];
    var dev := k.Open();
    if dev.None? {
      assert imageSize > 0 ==> Percents(marks, imageSize) == [];
      return Err(CannotOpenDevice), marks;
    }
    var h := dev.value;
    r, marks := ReadBack(k, h, imageSize, sha, progress, held);
    SessionWrapped(trace, [Opened(h)], k.trace, h, held);
    k.Close(h);
    assert k.pointers.Keys == keys;
  }

  /** Eight refused attempts in a row to lock this volume through this handle. */
  ghost predicate EightRefusals(trace: seq<Effect>, at: nat, letter: nat, h: Handle) {
    at + 8 <= |trace| && forall i :: at <= i < at + 8 ==> trace[i] == VolumeBusy(letter, h)
  }

  /** The volume has been locked through this handle, or that was tried as often as it is ever tried. */
  ghost predicate Tried(trace: seq<Effect>, letter: nat, h: Handle) {
    || VolumeLocked(letter, h) in trace
    || exists at :: EightRefusals(trace, at, letter, h)
  }

  /** A step that may open and close handles, lock volumes of one disk, and dismount them once locking
      was tried, but neither touches the disk nor rescans it. */
  ghost predicate PreparedStep(e: Effect, past: seq<Effect>, diskOf: map<nat, nat>, disk: nat) {
    && !e.Io() && !e.Rescanned?
    && (e.OnVolume() ==> e.letter in diskOf && diskOf[e.letter] == disk)
    && (e.Dismounted? ==> Tried(past, e.letter, e.h))
  }

  ghost predicate Preparation(before: seq<Effect>, after: seq<Effect>, diskOf: map<nat, nat>, disk: nat) {
    && before <= after
    && forall i :: |before| <= i < |after| ==> PreparedStep(after[i], after[..i], diskOf, disk)
  }

  lemma PreparationAppends(
    before: seq<Effect>, after: seq<Effect>, e: Effect, diskOf: map<nat, nat>, disk: nat)
    requires Preparation(before, after, diskOf, disk) && PreparedStep(e, after, diskOf, disk)
    ensures Preparation(before, after + [e], diskOf, disk)
  {
    var t := after + [e];
    forall i | |before| <= i < |t| ensures PreparedStep(t[i], t[..i], diskOf, disk) {
      if i < |after| {
        assert t[..i] == after[..i];
      } else {
        assert t[..i] == after;
      }
    }
  }

  /** The volume is locked, dismounted through the same handle, one of these, and loses its letter. */
  ghost predicate VolumeTaken(trace: seq<Effect>, from: nat, letter: nat, handles: set<Handle>) {
    exists i, j, m ::
      && from <= i < j < m < |trace| && trace[i].VolumeLocked? && trace[i].letter == letter && trace[i].h in handles
      && trace[j] == Dismounted(letter, trace[i].h) && trace[m] == Unlettered(letter)
  }

  lemma StillTaken(
    before: seq<Effect>, after: seq<Effect>, from: nat, earlier: nat, letter: nat, handles: set<Handle>,
    more: set<Handle>)
    requires before <= after && earlier <= from && handles <= more && VolumeTaken(before, from, letter, handles)
    ensures VolumeTaken(after, earlier, letter, more)
  {
    var i, j, m :|
      && from <= i < j < m < |before| && before[i].VolumeLocked? && before[i].letter == letter && before[i].h in handles
      && before[j] == Dismounted(letter, before[i].h) && before[m] == Unlettered(letter);
    assert after[i] == before[i] && after[j] == before[j] && after[m] == before[m];
  }

  /** What `n` refused attempts leave in the trace. */
  ghost function Refusals(letter: nat, h: Handle, n: nat): (e: seq<Effect>)
    ensures |e| == n && forall i :: 0 <= i < n ==> e[i] == VolumeBusy(letter, h)
  {
    seq(n, _ => VolumeBusy(letter, h))
  }

  /** Try to lock the volume up to eight times, waiting twice as long after each refusal but the last. */
  method LockWithBackoff(k: Kernel, h: Handle, letter: nat) returns (locked: bool, ghost refused: nat)
    requires k.Valid() && h in k.pointers
    modifies k`trace, k`slept
    ensures k.Valid()
    ensures refused <= 8 && (locked <==> refused < 8) && (k.reliable ==> refused == 0)
    ensures k.trace == old(k.trace) + Refusals(letter, h, refused) + (if locked then [VolumeLocked(letter, h)] else [])
    ensures k.slept == old(k.slept) + 100 * (Pow2(Min(refused, 7)) - 1)
  {
    var delay: nat := 100;
    locked, refused := false, 0;
    var attempt := 0;
    while attempt < 8
      invariant refused == attempt <= 8 && k.Valid()
      invariant k.trace == old(k.trace) + Refusals(letter, h, refused)
      invariant delay == 100 * Pow2(Min(attempt, 7)) && k.slept == old(k.slept) + delay - 100
      invariant attempt > 0 ==> !k.reliable
    {
      var ok := k.LockVolume(h, letter);
      if ok {
        return true, refused;
      }
      if attempt < 7 {
        k.Sleep(delay);
        delay := delay * 2;
      }
      attempt, refused := attempt + 1, refused + 1;
    }
  }

  lemma LockingIsPreparation(
    before: seq<Effect>, after: seq<Effect>, letter: nat, h: Handle, refused: nat, locked: bool,
    diskOf: map<nat, nat>, disk: nat)
    requires after == before + Refusals(letter, h, refused) + (if locked then [VolumeLocked(letter, h)] else [])
    requires letter in diskOf && diskOf[letter] == disk
    ensures Preparation(before, after, diskOf, disk) && VolumesThrough(after, |before|, {h})
    ensures locked || refused == 8 ==> Tried(after, letter, h)
  {
    forall i | |before| <= i < |after|
      ensures after[i] == VolumeBusy(letter, h) || after[i] == VolumeLocked(letter, h)
    {
      if i < |before| + refused {
        assert after[i] == Refusals(letter, h, refused)[i - |before|];
      }
    }
    if locked {
      assert after[|after| - 1] == VolumeLocked(letter, h);
    } else if refused == 8 {
      forall i | |before| <= i < |before| + 8 ensures after[i] == VolumeBusy(letter, h) {
        assert after[i] == Refusals(letter, h, refused)[i - |before|];
      }
      assert EightRefusals(after, |before|, letter, h);
    }
  }

  lemma PreparationJoins(a: seq<Effect>, b: seq<Effect>, c: seq<Effect>, diskOf: map<nat, nat>, disk: nat)
    requires Preparation(a, b, diskOf, disk) && Preparation(b, c, diskOf, disk)
    ensures Preparation(a, c, diskOf, disk)
  {
    forall i | |a| <= i < |c| ensures PreparedStep(c[i], c[..i], diskOf, disk) {
      if i < |b| {
        assert c[i] == b[i] && c[..i] == b[..i];
      }
    }
  }

  /** Every volume locked or dismounted from event `from` on was so through one of these handles. */
  ghost predicate VolumesThrough(trace: seq<Effect>, from: nat, handles: set<Handle>) {
    forall i :: from <= i < |trace| && trace[i].OnVolume() ==> trace[i].h in handles
  }

  lemma VolumesThroughBoth(
    before: seq<Effect>, after: seq<Effect>, from: nat, handles: set<Handle>, all: set<Handle>)
    requires from <= |before| && before <= after && handles <= all
    requires VolumesThrough(before, from, handles) && VolumesThrough(after, |before|, all)
    ensures VolumesThrough(after, from, all)
  {
    forall i | from <= i < |after| && after[i].OnVolume() ensures after[i].h in all {
      assert i < |before| ==> after[i] == before[i];
    }
  }

  /** Dismount whether or not the lock stuck, and take the drive letter away. */
  method DismountHeld(k: Kernel, h: Handle, disk: nat, letter: nat)
    requires k.Valid() && h in k.pointers && letter in k.diskOf && k.diskOf[letter] == disk
    requires Tried(k.trace, letter, h)
    modifies k`trace
    ensures k.Valid() && Preparation(old(k.trace), k.trace, k.diskOf, disk)
    ensures VolumesThrough(k.trace, |old(k.trace)|, {h})
    ensures k.reliable ==> k.trace == old(k.trace) + [Dismounted(letter, h), Unlettered(letter)]
  {
    ghost var before := k.trace;
    PreparationAppends(before, before, Dismounted(letter, h), k.diskOf, disk);
    var dismounted := k.Control(h, Dismounted(letter, h));
    ghost var between := k.trace;
    assert between == if dismounted then before + [Dismounted(letter, h)] else before;
    PreparationAppends(before, between, Unlettered(letter), k.diskOf, disk);
    var unlettered := k.Control(h, Unlettered(letter));
    assert k.trace == if unlettered then between + [Unlettered(letter)] else between;
  }

  /** A volume of our disk: open it, lock it, dismount it, and keep the handle. */
  method HoldVolume(k: Kernel, disk: nat, letter: nat) returns (r: Option<Handle>)
    requires k.Valid() && letter in k.diskOf && k.diskOf[letter] == disk
    modifies k`pointers, k`next, k`trace, k`slept
    ensures k.Valid() && Preparation(old(k.trace), k.trace, k.diskOf, disk)
    ensures r.Some? ==> r.value !in old(k.pointers.Keys) && k.pointers.Keys == old(k.pointers.Keys) + {r.value}
    ensures r.None? ==> k.pointers.Keys == old(k.pointers.Keys)
    ensures VolumesThrough(k.trace, |old(k.trace)|, if r.Some? then {r.value} else {})
    ensures k.reliable ==> r.Some? && VolumeTaken(k.trace, |old(k.trace)|, letter, {r.value})
  {
    ghost var before := k.trace;
    var volume := k.Open();
    if volume.None? {
      return None;
    }
    var h := volume.value;
    PreparationAppends(before, before, Opened(h), k.diskOf, disk);
    ghost var begun := k.trace;
    var locked, refused := LockWithBackoff(k, h, letter);
    ghost var tried := k.trace;
    LockingIsPreparation(begun, tried, letter, h, refused, locked, k.diskOf, disk);
    PreparationJoins(before, begun, tried, k.diskOf, disk);
    VolumesThroughBoth(begun, tried, |before|, {}, {h});
    DismountHeld(k, h, disk, letter);
    PreparationJoins(before, tried, k.trace, k.diskOf, disk);
    VolumesThroughBoth(tried, k.trace, |before|, {h}, {h});
    if k.reliable {
      TakenByThree(before, k.trace, letter, h);
    }
    r := Some(h);
  }

  lemma TakenByThree(before: seq<Effect>, after: seq<Effect>, letter: nat, h: Handle)
    requires |after| == |before| + 4 && before <= after
    requires after[|before| + 1] == VolumeLocked(letter, h) && after[|before| + 2] == Dismounted(letter, h)
    requires after[|before| + 3] == Unlettered(letter)
    ensures VolumeTaken(after, |before|, letter, {h})
  {
    assert after[|before| + 1].VolumeLocked?;
  }

  /** Ask which disk a volume sits on, through a handle that is closed again at once. */
  method QueryDisk(k: Kernel, letter: nat, ghost disk: nat) returns (r: Option<nat>)
    requires k.Valid()
    modifies k`pointers, k`next, k`trace
    ensures k.Valid() && k.pointers.Keys == old(k.pointers.Keys)
    ensures Preparation(old(k.trace), k.trace, k.diskOf, disk) && VolumesThrough(k.trace, |old(k.trace)|, {})
    ensures r.Some? ==> letter in k.diskOf && r.value == k.diskOf[letter]
    ensures k.reliable && letter in k.diskOf ==> r.Some?
  {
    ghost var keys := k.pointers.Keys;
    var query := k.Open();
    if query.None? {
      return None;
    }
    r := k.DeviceNumber(query.value, letter);
    k.Close(query.value);
    assert k.pointers.Keys == keys;
  }

  /** One drive letter: find its disk, and hold the volume if it is ours. */
  method LockVolume(k: Kernel, disk: nat, letter: nat) returns (r: Option<Handle>)
    requires k.Valid()
    modifies k`pointers, k`next, k`trace, k`slept
    ensures k.Valid() && Preparation(old(k.trace), k.trace, k.diskOf, disk)
    ensures r.Some? ==> r.value !in old(k.pointers.Keys) && k.pointers.Keys == old(k.pointers.Keys) + {r.value}
    ensures r.None? ==> k.pointers.Keys == old(k.pointers.Keys)
    ensures VolumesThrough(k.trace, |old(k.trace)|, if r.Some? then {r.value} else {})
    ensures k.reliable && OnDiskLetter(k, disk, letter) ==>
              r.Some? && VolumeTaken(k.trace, |old(k.trace)|, letter, {r.value})
  {
    if letter !in k.drives {
      return None;
    }
    ghost var before := k.trace;
    var number := QueryDisk(k, letter, disk);
    if number != Some(disk) {
      return None;
    }
    ghost var queried := k.trace;
    r := HoldVolume(k, disk, letter);
    PreparationJoins(before, queried, k.trace, k.diskOf, disk);
    VolumesThroughBoth(queried, k.trace, |before|, {}, if r.Some? then {r.value} else {});
    if k.reliable {
      StillTaken(k.trace, k.trace, |queried|, |before|, letter, {r.value}, {r.value});
    }
  }

  /** The letter names a volume of the disk. */
  ghost predicate OnDiskLetter(k: Kernel, disk: nat, letter: nat) {
    letter < 26 && letter in k.drives && letter in k.diskOf && k.diskOf[letter] == disk
  }

  /** All volumes of the disk among the first `n` letters are taken. */
  ghost predicate AllTaken(k: Kernel, disk: nat, n: nat, trace: seq<Effect>, from: nat, handles: set<Handle>) {
    forall letter :: 0 <= letter < n && OnDiskLetter(k, disk, letter) ==> VolumeTaken(trace, from, letter, handles)
  }

  lemma OneMoreTaken(
    k: Kernel, disk: nat, n: nat, before: seq<Effect>, after: seq<Effect>, from: nat, handles: set<Handle>,
    volume: Option<Handle>, more: set<Handle>)
    requires AllTaken(k, disk, n, before, from, handles) && before <= after && from <= |before|
    requires more == handles + (if volume.Some? then {volume.value} else {})
    requires OnDiskLetter(k, disk, n) ==> volume.Some? && VolumeTaken(after, |before|, n, {volume.value})
    ensures AllTaken(k, disk, n + 1, after, from, more)
  {
    forall letter | 0 <= letter < n + 1 && OnDiskLetter(k, disk, letter)
      ensures VolumeTaken(after, from, letter, more)
    {
      if letter < n {
        StillTaken(before, after, from, from, letter, handles, more);
      } else {
        StillTaken(after, after, |before|, from, n, {volume.value}, more);
      }
    }
  }

  /** Lock and dismount every volume of the disk and return the handles, which the caller keeps
      open for the whole write. */
  method LockAndDismountVolumes(k: Kernel, disk: nat) returns (held: seq<Handle>)
    requires k.Valid()
    modifies k`pointers, k`next, k`trace, k`slept
    ensures k.Valid() && Preparation(old(k.trace), k.trace, k.diskOf, disk)
    ensures forall i, j :: 0 <= i < j < |held| ==> held[i] != held[j]
    ensures forall h :: h in held ==> h !in old(k.pointers.Keys)
    ensures k.pointers.Keys == old(k.pointers.Keys) + (set h | h in held)
    ensures |held| <= 26 && VolumesThrough(k.trace, |old(k.trace)|, set h | h in held)
    ensures k.reliable ==> AllTaken(k, disk, 26, k.trace, |old(k.trace)|, set h | h in held)
  {
    held := [];
    var i: nat := 0;
    ghost var start := k.trace;
    while i < 26
      invariant i <= 26 && |held| <= i && k.Valid() && Preparation(start, k.trace, k.diskOf, disk)
      invariant forall i, j :: 0 <= i < j < |held| ==> held[i] != held[j]
      invariant forall h :: h in held ==> h !in old(k.pointers.Keys)
      invariant k.pointers.Keys == old(k.pointers.Keys) + (set h | h in held)
      invariant VolumesThrough(k.trace, |start|, set h | h in held)
      invariant k.reliable ==> AllTaken(k, disk, i, k.trace, |start|, set h | h in held)
    {
      ghost var before := k.trace;
      var volume := LockVolume(k, disk, i);
      PreparationJoins(start, before, k.trace, k.diskOf, disk);
      ghost var handles := set h | h in held;
      if volume.Some? {
        held := held + [volume.value];
      }
      VolumesThroughBoth(before, k.trace, |start|, handles, set h | h in held);
      if k.reliable {
        OneMoreTaken(k, disk, i, before, k.trace, |start|, handles, volume, set h | h in held);
      }
      i := i + 1;
    }
  }

  /** Dropping the vector of volume handles closes each of them, in order. */
  method ReleaseAll(k: Kernel, held: seq<Handle>)
    requires k.Valid() && (forall h :: h in held ==> h in k.pointers)
    requires forall i, j :: 0 <= i < j < |held| ==> held[i] != held[j]
    modifies k`pointers, k`trace
    ensures k.Valid() && k.pointers.Keys == old(k.pointers.Keys) - (set h | h in held)
    ensures old(k.trace) <= k.trace
    ensures forall i :: |old(k.trace)| <= i < |k.trace| ==> k.trace[i].Closed?
  {
    var i := 0;
    while i < |held|
      invariant i <= |held| && k.Valid()
      invariant k.pointers.Keys == old(k.pointers.Keys) - (set h | h in held[..i])
      invariant old(k.trace) <= k.trace
      invariant forall i :: |old(k.trace)| <= i < |k.trace| ==> k.trace[i].Closed?
    {
      k.Close(held[i]);
      assert held[..i + 1] == held[..i] + [held[i]];
      i := i + 1;
    }
    assert held[..i] == held;
  }

  /** From event `from` on, a rescan only happens while none of `held` is open. */
  ghost predicate Released(trace: seq<Effect>, from: nat, held: set<Handle>) {
    forall i :: from <= i < |trace| && trace[i].Rescanned? ==> held !! OpenAfter(trace[..i])
  }

  /** The trace of a rescan: nothing else touches the disk or its volumes. */
  ghost predicate RescanOnly(before: seq<Effect>, after: seq<Effect>, held: set<Handle>) {
    && before <= after && Released(after, |before|, held)
    && forall i :: |before| <= i < |after| ==> !after[i].Io() && !after[i].OnVolume()
  }

  lemma RescanOnlyAppends(before: seq<Effect>, after: seq<Effect>, e: Effect, held: set<Handle>)
    requires RescanOnly(before, after, held) && !e.Io() && !e.OnVolume()
    requires e.Rescanned? ==> held !! OpenAfter(after)
    ensures RescanOnly(before, after + [e], held)
  {
    var t := after + [e];
    forall i | |before| <= i < |t| && t[i].Rescanned? ensures held !! OpenAfter(t[..i]) {
      if i < |after| {
        assert t[..i] == after[..i];
      } else {
        assert t[..i] == after;
      }
    }
  }

  /** `rescan_disk`: the only place that asks for a rescan, through a handle of its own. */
  method RescanDisk(k: Kernel, ghost held: set<Handle>)
    requires k.Valid() && held !! k.pointers.Keys && held <= EverOpened(k.trace)
    modifies k`pointers, k`next, k`trace, k`slept
    ensures k.Valid() && k.pointers.Keys == old(k.pointers.Keys)
    ensures RescanOnly(old(k.trace), k.trace, held)
    ensures k.reliable ==> Rescanned in k.trace[|old(k.trace)|..]
    ensures k.slept == old(k.slept) + 1500
  {
    ghost var before, keys := k.trace, k.pointers.Keys;
    var h := k.Open();
    if h.Some? {
      OpenAfterOne(before, Opened(h.value));
      RescanOnlyAppends(before, before, Opened(h.value), held);
      AskAndClose(k, h.value, before, held);
      assert k.pointers.Keys == keys;
      assert k.reliable ==> k.trace[|before|..][1] == Rescanned;
    }
    k.Sleep(1500);
  }

  method AskAndClose(k: Kernel, h: Handle, ghost before: seq<Effect>, ghost held: set<Handle>)
    requires k.Valid() && h in k.pointers && held !! k.pointers.Keys && RescanOnly(before, k.trace, held)
    modifies k`pointers, k`trace
    ensures k.Valid() && k.pointers.Keys == old(k.pointers.Keys) - {h} && RescanOnly(before, k.trace, held)
    ensures old(k.trace) <= k.trace
    ensures k.reliable ==> k.trace == old(k.trace) + [Rescanned, Closed(h)]
  {
    ghost var asking := k.trace;
    RescanOnlyAppends(before, asking, Rescanned, held);
    var asked := k.Control(h, Rescanned);
    assert k.trace == if asked then asking + [Rescanned] else asking;
    RescanOnlyAppends(before, k.trace, Closed(h), held);
    k.Close(h);
  }

  /** The resource protocol of a whole write. From the event after `before` on, the disk is read and
      written only while all of `held` is open, it is rescanned only once none of it is and only if
      `mayRescan`; a volume is locked or dismounted only if it is on the disk, and through a handle
      that is among `held`; and it is dismounted only once locking it was tried. */
  ghost predicate Orderly(
    before: seq<Effect>, after: seq<Effect>, held: set<Handle>, diskOf: map<nat, nat>, disk: nat, mayRescan: bool)
  {
    && before <= after
    && forall i :: |before| <= i < |after| ==> InOrder(after[i], after[..i], held, diskOf, disk, mayRescan)
  }

  ghost predicate InOrder(
    e: Effect, past: seq<Effect>, held: set<Handle>, diskOf: map<nat, nat>, disk: nat, mayRescan: bool)
  {
    && (e.Io() ==> held <= OpenAfter(past))
    && (e.Rescanned? ==> mayRescan && held !! OpenAfter(past))
    && (e.OnVolume() ==> e.letter in diskOf && diskOf[e.letter] == disk && e.h in held)
    && (e.Dismounted? ==> Tried(past, e.letter, e.h))
  }

  lemma OrderlyJoins(
    a: seq<Effect>, b: seq<Effect>, c: seq<Effect>, held: set<Handle>, diskOf: map<nat, nat>, disk: nat,
    mayRescan: bool)
    requires Orderly(a, b, held, diskOf, disk, false) && Orderly(b, c, held, diskOf, disk, mayRescan)
    ensures Orderly(a, c, held, diskOf, disk, mayRescan)
  {
    forall i | |a| <= i < |c| ensures InOrder(c[i], c[..i], held, diskOf, disk, mayRescan) {
      if i < |b| {
        assert c[..i] == b[..i] && c[i] == b[i];
        assert InOrder(b[i], b[..i], held, diskOf, disk, false);
      }
    }
  }

  lemma PreparationIsOrderly(
    before: seq<Effect>, after: seq<Effect>, held: set<Handle>, diskOf: map<nat, nat>, disk: nat)
    requires Preparation(before, after, diskOf, disk) && VolumesThrough(after, |before|, held)
    ensures Orderly(before, after, held, diskOf, disk, false)
  {
  }

  lemma SessionIsOrderly(
    before: seq<Effect>, after: seq<Effect>, held: set<Handle>, diskOf: map<nat, nat>, disk: nat)
    requires Session(before, after, held)
    ensures Orderly(before, after, held, diskOf, disk, false)
  {
  }

  lemma ClosingIsOrderly(
    before: seq<Effect>, after: seq<Effect>, held: set<Handle>, diskOf: map<nat, nat>, disk: nat)
    requires before <= after && forall i :: |before| <= i < |after| ==> after[i].Closed?
    ensures Orderly(before, after, held, diskOf, disk, false)
  {
  }

  lemma RescanIsOrderly(
    before: seq<Effect>, after: seq<Effect>, held: set<Handle>, diskOf: map<nat, nat>, disk: nat)
    requires RescanOnly(before, after, held)
    ensures Orderly(before, after, held, diskOf, disk, true)
  {
  }

  /** What a finished write leaves on the disk. */
  ghost predicate Written(
    k: Kernel, card: seq<byte>, data: seq<byte>, imageSize: nat, verified: bool, sha: seq<byte> -> string)
    reads k
  {
    var source := Source(data, imageSize);
    && |source| <= |k.media|
    && (k.faithful ==> HoldsPrefix(card, k.media, source, |source|, SECTOR))
    && (verified ==> imageSize <= |k.media| && sha(k.media[..imageSize]) == sha(source))
    && (verified && NoCollision(sha, k.media[..imageSize], source) ==> k.media[..imageSize] == source)
  }

  /** Nothing stands in the way of a write: no call fails, the disk keeps what it is given and has
      room, and the image is as long as it was when its size was taken. */
  ghost predicate Smooth(k: Kernel, image: ImageFile, imageSize: nat)
    reads k, image
  {
    && k.reliable && k.faithful && image.reliable
    && imageSize <= |image.data| && RoundUp(imageSize, SECTOR) <= |k.media|
  }

  /** Nothing keeps a write from its end: no call fails, and there is room for what is copied. What the
      disk makes of it is open. */
  ghost predicate Runs(k: Kernel, image: ImageFile, imageSize: nat)
    reads k, image
  {
    k.reliable && image.reliable && RoundUp(|Source(image.data, imageSize)|, SECTOR) <= |k.media|
  }

  /** What the verify pass goes by. */
  ghost predicate DigestsAgree(media: seq<byte>, data: seq<byte>, imageSize: nat, sha: seq<byte> -> string) {
    imageSize <= |media| && sha(media[..imageSize]) == sha(Source(data, imageSize))
  }

  /** A verified write of an image that is shorter than the size taken from its metadata is accepted
      only if the digest confuses the image with the longer stretch of the disk. */
  lemma ShortImageNeedsCollision(media: seq<byte>, data: seq<byte>, imageSize: nat, sha: seq<byte> -> string)
    requires DigestsAgree(media, data, imageSize, sha)
    ensures |data| < imageSize ==> !NoCollision(sha, media[..imageSize], data)
  {
    assert |data| < imageSize ==> Source(data, imageSize) == data && |media[..imageSize]| != |data|;
  }

  lemma HeldImage(card: seq<byte>, media: seq<byte>, data: seq<byte>, imageSize: nat, written: nat)
    requires written == |Source(data, imageSize)| && imageSize <= |data|
    requires HoldsPrefix(card, media, Source(data, imageSize), written, SECTOR)
    ensures imageSize <= |media| && media[..imageSize] == Source(data, imageSize)
  {
  }

  /** The first events of the stretch are a whole pass. */
  ghost predicate WroteThrough(before: seq<Effect>, after: seq<Effect>) {
    exists n :: |before| <= n <= |after| && WholePass(before, after[..n])
  }

  /** Write and verify while the volume locks are held. */
  method WriteUnderLocks(
    k: Kernel, image: ImageFile, imageSize: nat, verify: bool, sha: seq<byte> -> string, progress: ProgressFile,
    ghost held: set<Handle>)
    returns (r: Result<(), FlashError>, ghost written: nat, ghost verifying: seq<Message>)
    requires k.Valid() && held <= k.pointers.Keys
    modifies k`media, k`pointers, k`next, k`trace, image`pos, progress
    ensures k.Valid() && |k.media| == old(|k.media|) && k.pointers.Keys == old(k.pointers.Keys)
    ensures Session(old(k.trace), k.trace, held)
    ensures r.Ok? ==> Written(k, old(k.media), image.data, imageSize, verify, sha)
    ensures k.faithful && imageSize <= |image.data| ==> r != Err(VerifyMismatch)
    ensures Smooth(k, image, imageSize) ==> r.Ok?
    ensures Runs(k, image, imageSize) ==> (r.Ok? <==> !verify || DigestsAgree(k.media, image.data, imageSize, sha))
    ensures written <= |image.data|
    ensures verifying == [] || (verifying[0] == Verifying(0) && VerifyReports(verifying[1..], imageSize))
    ensures progress.history == old(progress.history) + [Writing] + Counts(ChunkReports(written)) + verifying
    ensures r.Ok? ==> FullRun(old(progress.history), progress.history, [Writing], |Source(image.data, imageSize)|, verify,
                              [Verifying(0)], imageSize, [])
    ensures r.Ok? && k.reliable ==> WroteThrough(old(k.trace), k.trace)
  {
    ghost var trace, card, h := k.trace, k.media, progress.history;
    verifying := [];
    progress.Publish(Writing);
    var wrote;
    wrote, written := WritePass(k, image, imageSize, sha, progress, held);
    if wrote.Err? {
      return Err(wrote.error), written, [];
    }
    ghost var before := k.trace;
    assert k.reliable ==> trace <= before[..|before|] && WholePass(trace, before[..|before|]) by {
      assert before[..|before|] == before;
    }
    if !verify {
      assert progress.history == h + [Writing] + Counts(ChunkReports(written)) + [];
      return Ok(()), written, [];
    }
    ghost var percents;
    r, percents := VerifyUnderLocks(k, imageSize, wrote.value, sha, progress, held);
    verifying := [Verifying(0)] + percents;
    if r.Ok? {
      VerifiedRun(h, [Writing], written, [Verifying(0)], percents, imageSize, []);
      assert progress.history == h + [Writing] + Counts(ChunkReports(written)) + ([Verifying(0)] + percents) + [];
    }
    assert k.reliable ==> k.trace[..|before|] == before;
    SessionJoins(trace, before, k.trace, held);
    if k.faithful && imageSize <= |image.data| {
      HeldImage(card, k.media, image.data, imageSize, written);
    }
  }

  /** The verify half: compare the digest of the disk with that of the bytes written. */
  method VerifyUnderLocks(
    k: Kernel, imageSize: nat, writeHash: string, sha: seq<byte> -> string, progress: ProgressFile,
    ghost held: set<Handle>)
    returns (r: Result<(), FlashError>, ghost percents: seq<Message>)
    requires k.Valid() && held <= k.pointers.Keys
    modifies k`pointers, k`next, k`trace, progress
    ensures k.Valid() && k.pointers.Keys == old(k.pointers.Keys) && Session(old(k.trace), k.trace, held)
    ensures r.Ok? ==> imageSize <= |k.media| && sha(k.media[..imageSize]) == writeHash
    ensures r == Err(VerifyMismatch) ==> imageSize <= |k.media| && sha(k.media[..imageSize]) != writeHash
    ensures |k.media| < imageSize ==> r.Err?
    ensures k.reliable && imageSize <= |k.media| ==> (r.Ok? <==> sha(k.media[..imageSize]) == writeHash)
    ensures VerifyReports(percents, imageSize) && (r.Ok? ==> VerifiesTo(percents, imageSize))
    ensures progress.history == old(progress.history) + ([Verifying(0)] + percents)
  {
    ghost var h := progress.history;
    progress.Publish(Verifying(0));
    var read, marks := VerifyPass(k, imageSize, sha, progress, held);
    percents := if imageSize == 0 then [] else Percents(marks, imageSize);
    assert progress.history == h + ([Verifying(0)] + percents);
    if read.Err? {
      return Err(read.error), percents;
    }
    MarksVerify(marks, imageSize);
    r := if read.value == writeHash then Ok(()) else Err(VerifyMismatch);
  }

  /** `write_image`: unmount, write, verify, release, rescan. `disk` is the number in the device
      path and `stat` the size of the image, if they can be had. */
  method WriteImage(
    k: Kernel, disk: Option<nat>, image: ImageFile, stat: Option<nat>, verify: bool, sha: seq<byte> -> string,
    progress: ProgressFile)
    returns (r: Result<(), FlashError>, ghost held: set<Handle>)
    requires k.Valid() && |image.data| <= U64_MAX && Preamble(progress.history)
    modifies k, image`pos, progress
    ensures k.Valid() && |k.media| == old(|k.media|)
    ensures k.pointers.Keys == old(k.pointers.Keys) && held !! k.pointers.Keys
    ensures disk.None? || stat.None? ==> r.Err? && k.media == old(k.media) && k.trace == old(k.trace)
    ensures disk.Some? ==> Orderly(old(k.trace), k.trace, held, k.diskOf, disk.value, r.Ok?)
    ensures forall h :: h in EverOpened(k.trace) && h !in EverOpened(old(k.trace)) ==> CountClosed(k.trace, h) == 1
    ensures r.Ok? ==> stat.Some? && Written(k, old(k.media), image.data, stat.value, verify, sha)
    ensures k.faithful && stat.Some? && stat.value <= |image.data| ==> r != Err(VerifyMismatch)
    ensures disk.Some? && stat.Some? && Smooth(k, image, stat.value) ==> r.Ok?
    ensures disk.Some? && stat.Some? && Runs(k, image, stat.value) ==>
              (r.Ok? <==> !verify || DigestsAgree(k.media, image.data, stat.value, sha))
    ensures Ordered(progress.history)
    ensures r.Ok? ==> FullRun(old(progress.history), progress.history, [Writing], |Source(image.data, stat.value)|, verify,
                              [Verifying(0)], stat.value, [Done])
    // nothing is left out when no call fails
    ensures disk.Some? && stat.Some? && k.reliable ==> TakenBeforeIo(k, disk.value, old(k.trace), k.trace, held)
    ensures r.Ok? && k.reliable ==> Rescanned in k.trace[|old(k.trace)|..]
  {
    ghost var before, preamble := k.trace, progress.history;
    if disk.None? || stat.None? {
      assert RunHistory(progress.history, progress.history, 0, [] + [], []);
      RunIsOrdered(progress.history, progress.history, 0, [], [], 0, []);
      return Err(if disk.None? then NotAPhysicalDrive else CannotStat), {};
    }
    r, held := WriteLocked(k, disk.value, image, stat.value, verify, sha, progress);
    AllClosedOnce(before, k.trace);
    if r.Err? {
      return;
    }
    ghost var released := k.trace;
    RescanDisk(k, held);
    RescanIsOrderly(released, k.trace, held, k.diskOf, disk.value);
    OrderlyJoins(before, released, k.trace, held, k.diskOf, disk.value, true);
    AllClosedOnce(before, k.trace);
    if k.reliable {
      StillTakenBeforeIo(k, disk.value, before, released, k.trace, held);
      LaterIsSince(k.trace, |before|, |released|, Rescanned);
    }
    FullRunEnds(preamble, progress.history, [Writing], |Source(image.data, stat.value)|, verify, [Verifying(0)],
                stat.value, [], [Done]);
    assert [] + [Done] == [Done];
    progress.Publish(Done);
  }

  lemma AllClosedOnce(before: seq<Effect>, after: seq<Effect>)
    requires WellFormed(after) && before <= after && OpenAfter(after) == OpenAfter(before)
    ensures forall h :: h in EverOpened(after) && h !in EverOpened(before) ==> CountClosed(after, h) == 1
  {
    forall h | h in EverOpened(after) && h !in EverOpened(before) ensures CountClosed(after, h) == 1 {
      NewOnesClosedOnce(before, after, h);
    }
  }

  /** Lock the volumes, write and verify, release them. */
  method WriteLocked(
    k: Kernel, disk: nat, image: ImageFile, imageSize: nat, verify: bool, sha: seq<byte> -> string,
    progress: ProgressFile)
    returns (r: Result<(), FlashError>, ghost held: set<Handle>)
    requires k.Valid() && |image.data| <= U64_MAX && Preamble(progress.history)
    modifies k, image`pos, progress
    ensures k.Valid() && |k.media| == old(|k.media|)
    ensures k.pointers.Keys == old(k.pointers.Keys) && held !! k.pointers.Keys && held <= EverOpened(k.trace)
    ensures Orderly(old(k.trace), k.trace, held, k.diskOf, disk, false)
    ensures r.Ok? ==> Written(k, old(k.media), image.data, imageSize, verify, sha)
    ensures k.faithful && imageSize <= |image.data| ==> r != Err(VerifyMismatch)
    ensures Smooth(k, image, imageSize) ==> r.Ok?
    ensures Runs(k, image, imageSize) ==> (r.Ok? <==> !verify || DigestsAgree(k.media, image.data, imageSize, sha))
    ensures Ordered(progress.history) && Ordered(progress.history + [Done])
    ensures r.Ok? ==> FullRun(old(progress.history), progress.history, [Writing], |Source(image.data, imageSize)|, verify,
                              [Verifying(0)], imageSize, [])
    ensures k.reliable ==> TakenBeforeIo(k, disk, old(k.trace), k.trace, held)
  {
    ghost var t0, keys, preamble := k.trace, k.pointers.Keys, progress.history;
    var locks := LockAndDismountVolumes(k, disk);
    held := set h | h in locks;
    ghost var t1 := k.trace;
    PreparationIsOrderly(t0, t1, held, k.diskOf, disk);
    ghost var written, verifying;
    r, written, verifying := WriteUnderLocks(k, image, imageSize, verify, sha, progress, held);
    ghost var t2 := k.trace;
    SessionIsOrderly(t1, t2, held, k.diskOf, disk);
    OrderlyJoins(t0, t1, t2, held, k.diskOf, disk, false);
    ReleaseAll(k, locks);
    assert k.pointers.Keys == keys;
    ghost var t3 := k.trace;
    ClosingIsOrderly(t2, t3, held, k.diskOf, disk);
    OrderlyJoins(t0, t2, t3, held, k.diskOf, disk, false);
    RunHistoryOfWindows(progress.history, preamble, written, verifying, imageSize);
    OpenWasOpened(t1);
    EverOpenedGrows(t1, t3);
    assert t3[..|t1|] == t1;
  }

  /** Before the disk is first read or written all its volumes have been locked and dismounted through
      handles among `held`. */
  ghost predicate TakenBeforeIo(k: Kernel, disk: nat, before: seq<Effect>, after: seq<Effect>, held: set<Handle>) {
    exists n :: |before| <= n <= |after| && AllTaken(k, disk, 26, after[..n], |before|, held)
                && forall i :: |before| <= i < n ==> !after[i].Io()
  }

  lemma LaterIsSince(trace: seq<Effect>, from: nat, later: nat, e: Effect)
    requires from <= later <= |trace| && e in trace[later..]
    ensures e in trace[from..]
  {
    assert trace[from..] == trace[from..later] + trace[later..];
  }

  lemma StillTakenBeforeIo(
    k: Kernel, disk: nat, before: seq<Effect>, after: seq<Effect>, later: seq<Effect>, held: set<Handle>)
    requires TakenBeforeIo(k, disk, before, after, held) && before <= after <= later
    ensures TakenBeforeIo(k, disk, before, later, held)
  {
    var n :| |before| <= n <= |after| && AllTaken(k, disk, 26, after[..n], |before|, held)
             && forall i :: |before| <= i < n ==> !after[i].Io();
    assert later[..n] == after[..n];
  }

  lemma RunHistoryOfWindows(
    h: seq<Message>, preamble: seq<Message>, written: nat, verifying: seq<Message>, imageSize: nat)
    requires Preamble(preamble) && written <= U64_MAX
    requires verifying == [] || (verifying[0] == Verifying(0) && VerifyReports(verifying[1..], imageSize))
    requires h == preamble + [Writing] + Counts(ChunkReports(written)) + verifying
    ensures Ordered(h) && Ordered(h + [Done])
  {
    var start, begun, percents := preamble + [Writing], if verifying == [] then [] else [Verifying(0)],
                                  if verifying == [] then [] else verifying[1..];
    assert begun + percents == verifying;
    assert RunHistory(h, start, written, begun + percents, []);
    RunIsOrdered(h, start, written, begun, percents, imageSize, []);
    assert RunHistory(h + [Done], start, written, begun + percents, [Done]);
    RunIsOrdered(h + [Done], start, written, begun, percents, imageSize, [Done]);
  }
}
