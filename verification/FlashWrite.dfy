/**
 The Linux write helper (src-tauri/src/flashwrite.rs): stream the image with padded direct writes
 or plain buffered ones, hash what was read, fsync every 64 MiB, then hash the card.
 */
module FlashWrite {
  import opened Wrappers
  import opened Bytes
  import opened Streams
  import opened Text
  import opened Progress
  import opened Reports

  const INTERVAL: nat := 0x400_0000

  /** Direct writes go out in 4 KiB blocks, buffered ones as they are. */
  function Block(direct: bool): nat {
    if direct then 4096 else 1
  }

  /** Write-back of the kernel cannot spoil what a sync made durable, as long as no write reaches
      below it. */
  lemma WriteBackKeeps(
    stable: seq<byte>, media: seq<byte>, stable': seq<byte>, media': seq<byte>, image: seq<byte>, from: nat, synced: nat)
    requires |stable| == |media| == |media'| && synced <= from
    requires WrittenBack(stable, media, stable', media')
    requires SameOutside(media, media', from, |media|)
    requires SamePrefix(stable, image, synced) && SamePrefix(media, image, from)
    ensures SamePrefix(stable', image, synced)
  {
  }

  /** A chunk either stays inside the interval or ends exactly on its boundary. */
  lemma Cadence(k: nat, written: nat, filled: nat, syncedAt: nat)
    requires written == k * CHUNK && filled <= CHUNK && syncedAt == written / INTERVAL * INTERVAL
    ensures written + filled - syncedAt <= INTERVAL
    ensures written + filled - syncedAt < INTERVAL ==> syncedAt == (written + filled) / INTERVAL * INTERVAL
    ensures written + filled - syncedAt == INTERVAL ==> written + filled == (written + filled) / INTERVAL * INTERVAL
  {
    var q, j := k / 16, k % 16;
    var rest := j * CHUNK;
    assert written == q * INTERVAL + rest && rest + CHUNK <= INTERVAL;
    DivisionIsUnique(written, INTERVAL, q, rest);
    if rest + filled < INTERVAL {
      DivisionIsUnique(written + filled, INTERVAL, q, rest + filled);
    } else {
      DivisionIsUnique(written + filled, INTERVAL, q + 1, 0);
    }
  }

  lemma IntervalBoundary(written: nat)
    ensures (written / INTERVAL * INTERVAL) % INTERVAL == 0
    ensures written / INTERVAL * INTERVAL <= written < written / INTERVAL * INTERVAL + INTERVAL
  {
  }

  /** What holds of the card at every turn of the write loop. `card` is what was there before the
      run, `source` the bytes to copy, of which `done` are out and `synced` durable. */
  ghost predicate OnCard(
    dev: BlockDevice, card: seq<byte>, source: seq<byte>, done: nat, sector: nat, synced: nat)
    requires sector > 0
    reads dev
  {
    && dev.Valid() && |dev.media| == |card| && done <= |source| && synced <= done
    && RoundUp(done, sector) <= |card|
    && (done < |source| ==> dev.pos == done && done % sector == 0)
    && (dev.faithful ==> HoldsPrefix(card, dev.media, source, done, sector))
    && Secured(dev, card, source, sector, synced)
  }

  /** What holds even when the run stops half way through a write. */
  ghost predicate Secured(dev: BlockDevice, card: seq<byte>, source: seq<byte>, sector: nat, synced: nat)
    requires sector > 0
    reads dev
  {
    && dev.Valid() && |dev.media| == |card|
    && (dev.faithful ==> SameOutside(card, dev.media, 0, RoundUp(|source|, sector)))
    && (dev.faithful ==> SamePrefix(dev.stable, source, synced))
  }

  /** The device write of a chunk leaves what the last sync secured. */
  method StoreSecured(
    dev: BlockDevice, buf: array<byte>, filled: nat, sector: nat,
    ghost card: seq<byte>, ghost source: seq<byte>, ghost done: nat, ghost synced: nat)
    returns (ok: bool)
    requires buf.Length == CHUNK && SuitsChunk(sector, CHUNK) && OnCard(dev, card, source, done, sector, synced)
    requires 0 < filled <= CHUNK && done + filled <= |source| && buf[..filled] == source[done..done + filled]
    requires filled < CHUNK ==> done + filled == |source|
    modifies dev, buf
    ensures ok ==> OnCard(dev, card, source, done + filled, sector, synced)
    ensures Secured(dev, card, source, sector, synced)
    ensures dev.reliable && RoundUp(|source|, sector) <= |card| ==> ok
  {
    ghost var stable, media := dev.stable, dev.media;
    RoundUpFrom(done, 0, sector);
    ok := StoreChunk(dev, buf, filled, sector, card, source, done);
    if dev.faithful {
      WriteBackKeeps(stable, media, dev.stable, dev.media, source, done, synced);
    }
  }

  /** The periodic sync after a chunk. */
  method SyncIfDue(
    dev: BlockDevice, written: nat, syncedAt: nat,
    ghost k: nat, ghost filled: nat, ghost card: seq<byte>, ghost source: seq<byte>, ghost sector: nat)
    returns (ok: bool, at: nat)
    requires sector > 0 && OnCard(dev, card, source, written, sector, syncedAt)
    requires filled <= CHUNK && written == k * CHUNK + filled && syncedAt == (written - filled) / INTERVAL * INTERVAL
    modifies dev`stable
    ensures ok ==> at == written / INTERVAL * INTERVAL
    ensures !ok ==> at == syncedAt && written == syncedAt + INTERVAL
    ensures dev.reliable ==> ok
    ensures OnCard(dev, card, source, written, sector, at)
  {
    Cadence(k, written - filled, filled, syncedAt);
    ok, at := true, syncedAt;
    if written - syncedAt >= INTERVAL {
      ghost var stable := dev.stable;
      ok := dev.Sync();
      if dev.faithful {
        RoundUpFrom(0, 0, sector);
        WriteBackKeeps(stable, dev.media, dev.stable, dev.media, source, written, syncedAt);
      }
      if ok {
        at := written;
      }
    }
  }

  /** One turn of the write loop: fill, hash the real bytes, pad if direct, write, publish, sync
      when due. Ends the loop by writing nothing when the file has no more bytes. */
  method Turn(
    image: ImageFile, dev: BlockDevice, hasher: Hasher, progress: ProgressFile, buf: array<byte>,
    toRead: nat, sector: nat, done: nat, synced: nat, ghost k: nat, ghost card: seq<byte>, ghost source: seq<byte>)
    returns (r: Result<nat, FlashError>, written: nat, at: nat)
    requires buf.Length == CHUNK && SuitsChunk(sector, CHUNK) && OnCard(dev, card, source, done, sector, synced)
    requires image.pos == done <= |source| <= |image.data| && source == image.data[..|source|]
    requires toRead <= CHUNK && Min(toRead, |image.data| - done) == Min(CHUNK, |source| - done)
    requires synced == done / INTERVAL * INTERVAL && (done < |source| ==> done == k * CHUNK)
    modifies dev, image`pos, hasher, progress, buf
    ensures r.Ok? ==> r.value == Min(CHUNK, |source| - done) && written == image.pos == done + r.value
    ensures r.Ok? ==> OnCard(dev, card, source, written, sector, at) && at == written / INTERVAL * INTERVAL
    ensures r.Ok? ==> hasher.fed == old(hasher.fed) + source[done..written]
    ensures r.Err? ==> Secured(dev, card, source, sector, at) && at == synced && !r.error.VerifyMismatch?
    ensures r.Err? && r.error.DeviceSync? ==> written == at + INTERVAL && r.error == DeviceSync(written)
    ensures r.Err? && !r.error.DeviceSync? ==> written == done
    ensures written == done || (done < written <= |source| && written <= done + CHUNK)
    ensures progress.history == old(progress.history) + (if written == done then [] else [Count(written)])
    ensures dev.reliable && image.reliable && RoundUp(|source|, sector) <= |card| ==> r.Ok?
  {
    written, at := done, synced;
    var fill := FillChunk(image, buf, toRead);
    if fill.Err? {
      return Err(ImageRead), done, synced;
    }
    var filled := fill.value;
    ghost var chunk := source[done..done + filled];
    assert buf[..filled] == chunk;
    if filled == 0 {
      return Ok(0), done, synced;
    }
    hasher.Update(buf, filled);
    var ok := StoreSecured(dev, buf, filled, sector, card, source, done, synced);
    if !ok {
      return Err(DeviceWrite(done)), done, synced;
    }
    written := done + filled;
    progress.Publish(Count(done + filled));
    ok, at := SyncIfDue(dev, done + filled, synced, k, filled, card, source, sector);
    r := if ok then Ok(filled) else Err(DeviceSync(done + filled));
  }

  /** The chunk loop of `run`. */
  method WriteLoop(
    image: ImageFile, imageSize: nat, dev: BlockDevice, sector: nat, hasher: Hasher, progress: ProgressFile,
    ghost card: seq<byte>, ghost source: seq<byte>)
    returns (r: Result<nat, FlashError>, written: nat, syncedAt: nat)
    requires source == Source(image.data, imageSize) && SuitsChunk(sector, CHUNK)
    requires OnCard(dev, card, source, 0, sector, 0) && image.pos == 0
    modifies dev, image`pos, hasher, progress
    ensures r.Ok? ==> r.value == written == |source| && syncedAt == written / INTERVAL * INTERVAL
    ensures r.Ok? ==> OnCard(dev, card, source, written, sector, syncedAt)
    ensures r.Ok? ==> hasher.fed == old(hasher.fed) + source
    ensures r.Err? ==> Secured(dev, card, source, sector, syncedAt) && !r.error.VerifyMismatch?
    ensures progress.history == old(progress.history) + Counts(ChunkReports(written))
    ensures syncedAt % INTERVAL == 0 && syncedAt <= written <= |source|
    ensures if r.Err? && r.error.DeviceSync? then written == syncedAt + INTERVAL else written < syncedAt + INTERVAL
    ensures r.Err? && r.error.DeviceSync? ==> r.error == DeviceSync(written)
    ensures dev.reliable && image.reliable && RoundUp(|source|, sector) <= |card| ==> r.Ok?
  {
    ghost var fed, k, history := hasher.fed, 0, progress.history;
    var buf := new byte[CHUNK];
    written, syncedAt := 0, 0;
    while true
      invariant OnCard(dev, card, source, written, sector, syncedAt) && image.pos == written
      invariant written < |source| ==> written == k * CHUNK
      invariant hasher.fed == fed + source[..written]
      invariant progress.history == history + Counts(ChunkReports(written))
      invariant syncedAt == written / INTERVAL * INTERVAL
      decreases |source| - written
    {
      IntervalBoundary(written);
      var toRead := Min(imageSize - written, CHUNK);
      if toRead == 0 {
        break;
      }
      ghost var done := written;
      var turn;
      turn, written, syncedAt :=
        Turn(image, dev, hasher, progress, buf, toRead, sector, written, syncedAt, k, card, source);
      if written > done {
        NextCount(history, k, done, written);
      }
      if turn.Err? {
        return Err(turn.error), written, syncedAt;
      }
      if turn.value == 0 {
        break;
      }
      assert source[..written] == source[..done] + source[done..written];
      k := k + 1;
    }
    assert source[..written] == source;
    r := Ok(written);
  }

  /** The write phase of `run`. `written` and `syncedAt` are its counters when it stops, for
      whatever reason: what lies below `syncedAt` survives a power cut, and never more than one
      interval lies above it. */
  method WritePhase(
    image: ImageFile, imageSize: nat, dev: BlockDevice, direct: bool, hasher: Hasher, progress: ProgressFile)
    returns (r: Result<nat, FlashError>, written: nat, syncedAt: nat)
    requires dev.Valid() && image.pos == 0 && dev.pos == 0
    modifies dev, image`pos, hasher, progress
    ensures dev.Valid() && |dev.media| == old(|dev.media|)
    ensures r.Ok? ==> r.value == written == |Source(image.data, imageSize)|
    ensures r.Ok? ==> RoundUp(written, Block(direct)) <= |dev.media|
    ensures r.Ok? ==> hasher.fed == old(hasher.fed) + Source(image.data, imageSize)
    ensures r.Ok? && dev.faithful ==>
              HoldsPrefix(old(dev.media), dev.media, Source(image.data, imageSize), written, Block(direct))
    ensures r.Ok? ==> dev.stable == dev.media
    ensures dev.faithful ==>
              SameOutside(old(dev.media), dev.media, 0, RoundUp(|Source(image.data, imageSize)|, Block(direct)))
    ensures progress.history == old(progress.history) + Counts(ChunkReports(written))
    ensures syncedAt % INTERVAL == 0 && syncedAt <= written <= |Source(image.data, imageSize)|
    ensures r != Err(VerifyMismatch)
    ensures written <= syncedAt + INTERVAL && (written == syncedAt + INTERVAL ==> r == Err(DeviceSync(written)))
    ensures dev.faithful ==> SamePrefix(dev.stable, Source(image.data, imageSize), syncedAt)
    // in plain numbers: never more than 64 MiB at risk
    ensures written <= syncedAt + 67_108_864 && syncedAt % 67_108_864 == 0
    ensures dev.reliable && image.reliable && RoundUp(|Source(image.data, imageSize)|, Block(direct)) <= |dev.media|
            ==> r.Ok?
  {
    ghost var card, source := dev.media, Source(image.data, imageSize);
    var sector := Block(direct);
    SectorsInUse(CHUNK, sector);
    NothingWritten(card, source, sector);
    RoundUpFrom(0, 0, sector);
    r, written, syncedAt := WriteLoop(image, imageSize, dev, sector, hasher, progress, card, source);
    if r.Ok? {
      ghost var stable := dev.stable;
      var ok := dev.Sync();
      if dev.faithful {
        WriteBackKeeps(stable, dev.media, dev.stable, dev.media, source, written, syncedAt);
      }
      r := if ok then Ok(written) else Err(DeviceSync(written));
    }
  }

  /** `verify_device`: hash what the card returns, for any schedule of short reads. `marks` are the
      byte counts at which a percentage was published. */
  method VerifyDevice(dev: BlockDevice, bytes: nat, sha: seq<byte> -> string, progress: ProgressFile)
    returns (r: Result<string, FlashError>, ghost marks: seq<nat>)
    modifies dev`pos, progress
    ensures r.Ok? ==> bytes <= |dev.media| && r.value == sha(dev.media[..bytes])
    ensures |dev.media| < bytes ==> r.Err?
    ensures dev.reliable && bytes <= |dev.media| ==> r.Ok?
    ensures r != Err(VerifyMismatch)
    ensures Ascending(marks, bytes)
    ensures progress.history == old(progress.history) + (if bytes == 0 then [] else Percents(marks, bytes))
    ensures bytes > 0 ==> forall i, j :: 0 <= i < j < |marks| ==> PercentOf(marks[i], bytes) < PercentOf(marks[j], bytes)
    ensures r.Ok? && bytes > 0 ==> marks != [] && PercentOf(marks[|marks| - 1], bytes) == 100
  {
    ghost var history := progress.history;
    marks := [];
    var ok := dev.Seek(0);
    if !ok {
      return Err(CannotOpenDevice), marks;
    }
    var hasher := new Hasher(sha);
    var buf := new byte[CHUNK];
    var readSoFar: nat, lastPct: nat := 0, U32_MAX;
    assert dev.media[..0] == [];
    while readSoFar < bytes
      invariant readSoFar <= bytes && dev.pos == readSoFar <= |dev.media|
      invariant hasher.sha == sha && hasher.fed == dev.media[..readSoFar]
      invariant progress.history == history + (if bytes == 0 then [] else Percents(marks, bytes))
      invariant Ascending(marks, readSoFar) && (bytes > 0 ==> PercentsRise(marks, bytes, lastPct))
      invariant 0 < readSoFar ==> marks != [] && lastPct == PercentOf(readSoFar, bytes)
      decreases bytes - readSoFar
    {
      var want := Min(bytes - readSoFar, CHUNK);
      var got := dev.Read(buf, want);
      if got.Err? {
        return Err(DeviceRead), marks;
      }
      var n := got.value;
      if n == 0 {
        break;
      }
      assert dev.media[..readSoFar + n] == dev.media[..readSoFar] + buf[..n];
      hasher.Update(buf, n);
      readSoFar := readSoFar + n;
      lastPct, marks := PublishPercent(progress, readSoFar, bytes, lastPct, marks, history);
    }
    if readSoFar != bytes {
      return Err(ShortDevice(readSoFar, bytes)), marks;
    }
    if bytes > 0 {
      WholeIsHundred(bytes);
    }
    r := Ok(hasher.sha(hasher.fed));
  }

  /** The verify half of `run`: compare the digest of the card with that of the bytes written. */
  method VerifyPhase(dev: BlockDevice, written: nat, writeHash: string, sha: seq<byte> -> string, progress: ProgressFile)
    returns (r: Result<(), FlashError>, ghost percents: seq<Message>)
    modifies dev`pos, progress
    ensures r.Ok? ==> written <= |dev.media| && sha(dev.media[..written]) == writeHash
    ensures r == Err(VerifyMismatch) ==> written <= |dev.media| && sha(dev.media[..written]) != writeHash
    ensures |dev.media| < written ==> r.Err?
    ensures dev.reliable && written <= |dev.media| ==> (r.Ok? <==> sha(dev.media[..written]) == writeHash)
    ensures VerifyReports(percents, written) && (r.Ok? ==> VerifiesTo(percents, written))
    ensures progress.history ==
            old(progress.history) + ([Verifying(0)] + percents) + (if r.Ok? then [Done] else [])
  {
    ghost var h := progress.history;
    progress.Publish(Verifying(0));
    var read, marks := VerifyDevice(dev, written, sha, progress);
    percents := if written == 0 then [] else Percents(marks, written);
    assert progress.history == h + ([Verifying(0)] + percents);
    if read.Err? {
      return Err(read.error), percents;
    }
    if read.value != writeHash {
      return Err(VerifyMismatch), percents;
    }
    MarksVerify(marks, written);
    progress.Publish(Done);
    r := Ok(());
  }

  /** What a finished run leaves on the card. */
  ghost predicate Delivered(
    dev: BlockDevice, card: seq<byte>, source: seq<byte>, direct: bool, verified: bool, sha: seq<byte> -> string)
    reads dev
  {
    && |source| <= |dev.media| && dev.stable == dev.media
    && (dev.faithful ==> HoldsPrefix(card, dev.media, source, |source|, Block(direct)))
    && (verified ==> sha(dev.media[..|source|]) == sha(source))
    && (verified && NoCollision(sha, dev.media[..|source|], source) ==> dev.media[..|source|] == source)
  }

  /** Nothing stands in the way of a write: no call fails, and the card keeps what it is given and has
      room for the image. */
  ghost predicate Smooth(dev: BlockDevice, image: ImageFile, imageSize: nat, direct: bool)
    reads dev, image
  {
    && dev.reliable && dev.faithful && image.reliable
    && RoundUp(|Source(image.data, imageSize)|, Block(direct)) <= |dev.media|
  }

  /** `run` once image and device are open: write, then verify by digest. */
  method WriteAndVerify(
    image: ImageFile, imageSize: nat, dev: BlockDevice, direct: bool, verify: bool,
    sha: seq<byte> -> string, progress: ProgressFile)
    returns (r: Result<(), FlashError>)
    requires dev.Valid() && dev.pos == 0 && image.pos == 0 && |image.data| <= U64_MAX
    requires Preamble(progress.history)
    modifies dev, image`pos, progress
    ensures dev.Valid() && |dev.media| == old(|dev.media|)
    ensures r.Ok? ==> Delivered(dev, old(dev.media), Source(image.data, imageSize), direct, verify, sha)
    ensures dev.faithful ==> r != Err(VerifyMismatch)
    ensures Smooth(dev, image, imageSize, direct) ==> r.Ok?
    ensures r.Ok? && dev.faithful ==> (SamePrefix(dev.media, image.data, imageSize) <==> imageSize <= |image.data|)
    ensures Ordered(progress.history) && old(progress.history) <= progress.history
    ensures var n := |Source(image.data, imageSize)|;
            r.Ok? ==> FullRun(old(progress.history), progress.history, [Writing], n, verify, [Verifying(0)], n, [Done])
  {
    ghost var start := progress.history + [Writing];
    progress.Publish(Writing);
    var hasher := new Hasher(sha);
    var wrote, written, syncedAt := WritePhase(image, imageSize, dev, direct, hasher, progress);
    ghost var source := Source(image.data, imageSize);
    assert RunHistory(progress.history, start, written, [] + [], []);
    RunIsOrdered(progress.history, start, written, [], [], 0, []);
    if wrote.Err? {
      return Err(wrote.error);
    }
    RoundUpBounds(written, Block(direct));
    assert hasher.fed == source;
    var writeHash := hasher.sha(hasher.fed);
    if dev.faithful {
      HeldPrefix(old(dev.media), dev.media, source, Block(direct));
    }
    if !verify {
      progress.Publish(Done);
      assert RunHistory(progress.history, start, written, [] + [], [Done]);
      RunIsOrdered(progress.history, start, written, [], [], 0, [Done]);
      return Ok(());
    }
    ghost var percents;
    r, percents := VerifyPhase(dev, written, writeHash, sha, progress);
    ghost var end := if r.Ok? then [Done] else [];
    assert RunHistory(progress.history, start, written, [Verifying(0)] + percents, end);
    RunIsOrdered(progress.history, start, written, [Verifying(0)], percents, written, end);
  }

  /** `run`. `stat` is the size the metadata reports, if it reports any. */
  method Run(
    image: ImageFile, isFile: bool, stat: Option<nat>, dev: BlockDevice, direct: bool, verify: bool,
    sha: seq<byte> -> string, progress: ProgressFile)
    returns (r: Result<(), FlashError>)
    requires dev.Valid() && dev.pos == 0 && |image.data| <= U64_MAX
    requires Preamble(progress.history)
    modifies dev, image`pos, progress
    ensures dev.Valid() && |dev.media| == old(|dev.media|)
    ensures r.Ok? ==>
              && isFile && stat.Some?
              && Delivered(dev, old(dev.media), Source(image.data, stat.value), direct, verify, sha)
    ensures dev.faithful ==> r != Err(VerifyMismatch)
    ensures isFile && stat.Some? && Smooth(dev, image, stat.value, direct) ==> r.Ok?
    ensures r.Ok? && dev.faithful ==> (SamePrefix(dev.media, image.data, stat.value) <==> stat.value <= |image.data|)
    ensures !isFile ==> r == Err(ImageMissing) && dev.media == old(dev.media)
    ensures isFile && stat.None? ==> r == Err(CannotStat) && dev.media == old(dev.media)
    ensures Ordered(progress.history) && old(progress.history) <= progress.history
    ensures r.Ok? ==>
              var n := |Source(image.data, stat.value)|;
              FullRun(old(progress.history), progress.history, [Writing], n, verify, [Verifying(0)], n, [Done])
  {
    if !isFile {
      return Err(ImageMissing);
    }
    if stat.None? {
      return Err(CannotStat);
    }
    var ok := image.Open();
    if !ok {
      return Err(CannotOpenImage);
    }
    ok := Chance();
    if !ok && !dev.reliable {
      return Err(CannotOpenDevice);
    }
    r := WriteAndVerify(image, stat.value, dev, direct, verify, sha, progress);
  }

  /** The progress lines of the flash script around the helper: zero, the speed line and the stage
      before it, the last stage behind it. */
  method FlashScript(
    image: ImageFile, isFile: bool, stat: Option<nat>, dev: BlockDevice, direct: bool, verify: bool,
    sha: seq<byte> -> string, progress: ProgressFile)
    returns (r: Result<(), FlashError>)
    requires dev.Valid() && dev.pos == 0 && |image.data| <= U64_MAX && Preamble(progress.history)
    modifies dev, image`pos, progress
    ensures Ordered(progress.history)
    ensures old(progress.history) + [Count(0), SpeedOk(0), Writing] <= progress.history
    ensures r.Ok? ==>
              && stat.Some?
              && var n := |Source(image.data, stat.value)|;
              FullRun(old(progress.history) + [Count(0), SpeedOk(0), Writing], progress.history, [Writing], n, verify,
                      [Verifying(0)], n, [Done, Done])
  {
    ghost var begun := progress.history + [Count(0), SpeedOk(0), Writing];
    progress.Publish(Count(0));
    progress.Publish(SpeedOk(0));
    progress.Publish(Writing);
    assert progress.history == begun;
    r := Run(image, isFile, stat, dev, direct, verify, sha, progress);
    if r.Ok? {
      ghost var n := |Source(image.data, stat.value)|;
      FullRunEnds(begun, progress.history, [Writing], n, verify, [Verifying(0)], n, [Done], [Done]);
      assert [Done] + [Done] == [Done, Done];
      progress.Publish(Done);
    }
  }
}
