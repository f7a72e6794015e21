/**
 The raw writer of the macOS path (src-tauri/src/rawwrite_unix.rs): wipe the first and last MB,
 stream the image in 4 MiB chunks padded to whole sectors, read it all back.
 */
module RawWriteUnix {
  import opened Wrappers
  import opened Bytes
  import opened Streams
  import opened Progress
  import opened Reports

  const SECTOR: nat := 512
  const MB: nat := 1024 * 1024

  datatype WriteOutcome = WriteOutcome(bytes: nat, syncWarning: bool)

  /** Where the second wipe starts, when the size of the card is known and large enough. */
  function LastMb(deviceSize: Option<nat>): Option<nat> {
    match deviceSize
    case Some(size) => if size > 2 * MB then Some((size / MB - 1) * MB) else None
    case None => None
  }

  /** The last whole MB of a card of this size begins here. */
  predicate LastWholeMb(size: nat, at: nat) {
    at % 0x10_0000 == 0 && at + 0x10_0000 <= size < at + 0x20_0000
  }

  /** The second wipe starts at the last whole MB, on cards of more than two. */
  lemma LastMbIs(size: nat, at: nat)
    ensures LastMb(Some(size)) == Some(at) <==> size > 0x20_0000 && LastWholeMb(size, at)
  {
    var q, r := size / MB, size % MB;
    assert size == q * MB + r;
    if LastWholeMb(size, at) {
      var k := at / MB;
      assert at == k * MB;
      DivisionIsUnique(size, MB, k + 1, size - at - MB);
    }
    if size > 2 * MB {
      assert q >= 2;
      assert (q - 1) * MB + MB == q * MB;
      MultipleOfMb(q - 1);
    }
  }

  lemma MultipleOfMb(k: nat)
    ensures k * MB % 0x10_0000 == 0
  {
  }

  /** A flash in plain numbers: behind the image, zeros up to the next multiple of 512, in the first
      1048576 bytes, and in the last whole 1048576 of a card of more than twice as many; and no other
      byte has changed. */
  ghost predicate Blanks(before: seq<byte>, after: seq<byte>, n: nat, deviceSize: Option<nat>) {
    && |after| == |before|
    && (forall i :: n <= i < |after| && (i < RoundUp(n, 512) || i < 0x10_0000) ==> after[i] == 0)
    && (forall i: nat :: n <= i < |after| && InLastWholeMb(deviceSize, i) ==> after[i] == 0)
    && (forall i: nat :: RoundUp(n, 512) <= i < |after| && 0x10_0000 <= i && !InLastWholeMb(deviceSize, i) ==>
                           after[i] == before[i])
  }

  ghost predicate InLastWholeMb(deviceSize: Option<nat>, i: nat) {
    deviceSize.Some? && deviceSize.value > 0x20_0000
    && exists at: nat :: LastWholeMb(deviceSize.value, at) && at <= i < at + 0x10_0000
  }

  lemma FlashedBlanks(before: seq<byte>, after: seq<byte>, image: seq<byte>, deviceSize: Option<nat>)
    requires Flashed(before, after, image, LastMb(deviceSize))
    ensures Blanks(before, after, |image|, deviceSize)
  {
    if deviceSize.Some? {
      forall at: nat
        ensures LastMb(deviceSize) == Some(at) <==> deviceSize.value > 0x20_0000 && LastWholeMb(deviceSize.value, at)
      {
        LastMbIs(deviceSize.value, at);
      }
    }
  }

  predicate Within(start: Option<nat>, length: nat, i: nat) {
    start.Some? && start.value <= i < start.value + length
  }

  /** The sector padding, the wipes and the image fit on a card of this capacity. */
  predicate Fits(capacity: nat, imageSize: nat, lastMb: Option<nat>) {
    && MB <= capacity
    && (lastMb.Some? ==> lastMb.value + MB <= capacity)
    && RoundUp(imageSize, SECTOR) <= capacity
  }

  /** Every byte a write may change. */
  predicate Touched(imageSize: nat, lastMb: Option<nat>, i: nat) {
    i < RoundUp(imageSize, SECTOR) || i < MB || Within(lastMb, MB, i)
  }

  /** The card after a flash, told byte by byte: the image, zeros where the writer pads or wipes,
      and what was there before everywhere else. */
  ghost predicate Flashed(before: seq<byte>, after: seq<byte>, image: seq<byte>, lastMb: Option<nat>) {
    && |image| <= |after| == |before|
    && (forall i :: 0 <= i < |image| ==> after[i] == image[i])
    && (forall i :: |image| <= i < |after| && Touched(|image|, lastMb, i) ==> after[i] == 0)
    && Contained(before, after, |image|, lastMb)
  }

  /** Only bytes the writer is meant to touch have changed. */
  ghost predicate Contained(before: seq<byte>, after: seq<byte>, imageSize: nat, lastMb: Option<nat>) {
    && |after| == |before|
    && forall i :: 0 <= i < |after| && !Touched(imageSize, lastMb, i) ==> after[i] == before[i]
  }

  /** Zero one MB of the card at `at`. */
  method Wipe(dev: BlockDevice, zeros: array<byte>, at: nat) returns (r: Result<(), FlashError>)
    requires dev.Valid() && zeros[..] == Zeros(MB)
    modifies dev
    ensures dev.Valid() && |dev.media| == old(|dev.media|)
    ensures r.Ok? ==> at + MB <= |dev.media|
    ensures r.Ok? && dev.faithful ==> forall i :: at <= i < at + MB ==> dev.media[i] == 0
    ensures dev.faithful ==> SameOutside(old(dev.media), dev.media, at, at + MB)
    ensures dev.reliable && at + MB <= |dev.media| ==> r.Ok?
  {
    var ok := dev.Seek(at);
    if !ok {
      return Err(DeviceSeek);
    }
    ghost var card := dev.media;
    ok := dev.WriteAll(zeros, MB);
    if !ok {
      return Err(DeviceWrite(at));
    }
    assert zeros[..MB] == Zeros(MB);
    if dev.faithful {
      forall i | at <= i < at + MB ensures dev.media[i] == 0 {
        assert dev.media[at..at + MB][i - at] == 0;
      }
    }
    r := Ok(());
  }

  method WipeEnds(dev: BlockDevice, lastMb: Option<nat>) returns (r: Result<(), FlashError>)
    requires dev.Valid()
    modifies dev
    ensures dev.Valid() && |dev.media| == old(|dev.media|)
    ensures r.Ok? ==> Fits(|dev.media|, 0, lastMb)
    ensures dev.faithful ==> Contained(old(dev.media), dev.media, 0, lastMb)
    ensures dev.faithful && r.Ok? ==> Flashed(old(dev.media), dev.media, [], lastMb)
    ensures dev.reliable && Fits(|dev.media|, 0, lastMb) ==> r.Ok?
  {
    var zeros := new byte[MB](_ => 0);
    assert zeros[..] == Zeros(MB);
    var _ :- Wipe(dev, zeros, 0);
    match lastMb {
      case Some(at) => var _ :- Wipe(dev, zeros, at);
      case None =>
    }
    r := Ok(());
  }

  /** Writing the padded image at the start of a wiped card gives the byte-wise picture. */
  lemma ImageOverWiped(
    before: seq<byte>, wiped: seq<byte>, after: seq<byte>, image: seq<byte>, done: nat, lastMb: Option<nat>)
    requires Flashed(before, wiped, [], lastMb)
    requires done == |image| && HoldsPrefix(wiped, after, image, done, SECTOR)
    ensures Flashed(before, after, image, lastMb)
  {
    RoundUpOfNothing(SECTOR);
  }

  /** One turn of the copy loop: fill the buffer across short reads, pad it to whole sectors and
      write it. `card` is what was on the card before the copy began. */
  method CopyChunk(dev: BlockDevice, image: ImageFile, buf: array<byte>, done: nat, sector: nat, ghost card: seq<byte>)
    returns (r: Result<nat, FlashError>)
    requires dev.Valid() && buf.Length == CHUNK && SuitsChunk(sector, CHUNK)
    requires image.pos == dev.pos == done <= |image.data| && done % sector == 0
    requires done <= |dev.media| == |card|
    requires dev.faithful ==> HoldsPrefix(card, dev.media, image.data, done, sector)
    requires dev.faithful ==> SameOutside(card, dev.media, 0, RoundUp(|image.data|, sector))
    modifies dev, image`pos, buf
    ensures dev.Valid() && |dev.media| == |card|
    ensures r.Ok? ==> r.value == Min(CHUNK, |image.data| - done) && image.pos == done + r.value
    ensures r.Ok? ==> dev.pos == RoundUp(done + r.value, sector) <= |card|
    ensures r.Ok? && r.value == CHUNK ==> dev.pos == done + r.value && dev.pos % sector == 0
    ensures r.Ok? && dev.faithful ==> HoldsPrefix(card, dev.media, image.data, done + r.value, sector)
    ensures dev.faithful ==> SameOutside(card, dev.media, 0, RoundUp(|image.data|, sector))
    ensures dev.reliable && image.reliable && RoundUp(|image.data|, sector) <= |card| ==> r.Ok?
  {
    var fill := FillChunk(image, buf, CHUNK);
    if fill.Err? {
      return Err(ImageRead);
    }
    var filled := fill.value;
    if filled == 0 {
      RoundUpFrom(done, 0, sector);
      return Ok(0);
    }
    var ok := StoreChunk(dev, buf, filled, sector, card, image.data, done);
    r := if ok then Ok(filled) else Err(DeviceWrite(done));
  }

  /** A turn that copied something says so. */
  method CopyTurn(
    dev: BlockDevice, image: ImageFile, buf: array<byte>, progress: ProgressFile, done: nat, sector: nat,
    ghost k: nat, ghost card: seq<byte>, ghost history: seq<Message>)
    returns (r: Result<nat, FlashError>, reached: nat)
    requires dev.Valid() && buf.Length == CHUNK && SuitsChunk(sector, CHUNK)
    requires image.pos == dev.pos == done == k * CHUNK <= |image.data| && done % sector == 0
    requires done <= |dev.media| == |card|
    requires dev.faithful ==> HoldsPrefix(card, dev.media, image.data, done, sector)
    requires dev.faithful ==> SameOutside(card, dev.media, 0, RoundUp(|image.data|, sector))
    requires progress.history == history + Counts(ChunkReports(done))
    modifies dev, image`pos, progress, buf
    ensures dev.Valid() && |dev.media| == |card| && done <= reached <= |image.data|
    ensures r.Ok? ==> r.value == Min(CHUNK, |image.data| - done) && reached == image.pos == done + r.value
    ensures r.Ok? ==> dev.pos == RoundUp(reached, sector) <= |card|
    ensures r.Ok? && r.value == CHUNK ==> dev.pos == reached && reached % sector == 0
    ensures r.Ok? && dev.faithful ==> HoldsPrefix(card, dev.media, image.data, reached, sector)
    ensures dev.faithful ==> SameOutside(card, dev.media, 0, RoundUp(|image.data|, sector))
    ensures progress.history == history + Counts(ChunkReports(reached))
    ensures dev.reliable && image.reliable && RoundUp(|image.data|, sector) <= |card| ==> r.Ok?
  {
    reached := done;
    r := CopyChunk(dev, image, buf, done, sector, card);
    if r.Ok? && r.value > 0 {
      reached := done + r.value;
      NextCount(history, k, done, reached);
      progress.Publish(Count(reached));
    }
  }

  /** The copy loop, from the start of the card. Returns the number of real image bytes. */
  method StreamImage(dev: BlockDevice, image: ImageFile, sector: nat, progress: ProgressFile)
    returns (r: Result<nat, FlashError>, done: nat)
    requires dev.Valid() && dev.pos == 0 && image.pos == 0 && SuitsChunk(sector, CHUNK)
    modifies dev, image`pos, progress
    ensures dev.Valid() && |dev.media| == old(|dev.media|)
    ensures r.Ok? ==> r.value == done == |image.data| && RoundUp(|image.data|, sector) <= |dev.media|
    ensures r.Ok? && dev.faithful ==> HoldsPrefix(old(dev.media), dev.media, image.data, r.value, sector)
    ensures dev.faithful ==> SameOutside(old(dev.media), dev.media, 0, RoundUp(|image.data|, sector))
    ensures progress.history == old(progress.history) + Counts(ChunkReports(done)) && done <= |image.data|
    ensures dev.reliable && image.reliable && RoundUp(|image.data|, sector) <= |dev.media| ==> r.Ok?
  {
    ghost var card, k, history := dev.media, 0, progress.history;
    var buf := new byte[CHUNK];
    done := 0;
    NothingWritten(card, image.data, sector);
    while true
      invariant done <= |image.data| && image.pos == done && dev.Valid() && |dev.media| == |card|
      invariant done == k * CHUNK && done % sector == 0 && dev.pos == done <= |card|
      invariant dev.faithful ==> HoldsPrefix(card, dev.media, image.data, done, sector)
      invariant dev.faithful ==> SameOutside(card, dev.media, 0, RoundUp(|image.data|, sector))
      invariant progress.history == history + Counts(ChunkReports(done))
      decreases |image.data| - done
    {
      var turn;
      turn, done := CopyTurn(dev, image, buf, progress, done, sector, k, card, history);
      if turn.Err? {
        return turn, done;
      }
      if turn.value < CHUNK {
        return Ok(done), done;
      }
      k := k + 1;
    }
  }

  method WriteImageToRawFd(dev: BlockDevice, image: ImageFile, deviceSize: Option<nat>, progress: ProgressFile)
    returns (r: Result<WriteOutcome, FlashError>, ghost done: nat)
    requires dev.Valid()
    modifies dev, image`pos, progress
    ensures dev.Valid() && |dev.media| == old(|dev.media|)
    ensures r.Ok? ==> r.value.bytes == |image.data| && Fits(|dev.media|, |image.data|, LastMb(deviceSize))
    ensures r.Ok? && dev.faithful ==> Flashed(old(dev.media), dev.media, image.data, LastMb(deviceSize))
    ensures r.Ok? && dev.faithful ==> Blanks(old(dev.media), dev.media, |image.data|, deviceSize)
    ensures dev.faithful ==> Contained(old(dev.media), dev.media, |image.data|, LastMb(deviceSize))
    ensures progress.history == old(progress.history) + Counts(ChunkReports(done)) && done <= |image.data|
    ensures r.Ok? ==> done == |image.data| && (!r.value.syncWarning ==> dev.stable == dev.media)
    ensures r.Ok? && dev.reliable ==> !r.value.syncWarning
    ensures dev.reliable && image.reliable && Fits(|dev.media|, |image.data|, LastMb(deviceSize)) ==> r.Ok?
  {
    var lastMb := LastMb(deviceSize);
    done := 0;
    var wiping := WipeEnds(dev, lastMb);
    if wiping.Err? {
      return Err(wiping.error), 0;
    }
    ghost var wiped := dev.media;
    var ok := dev.Seek(0);
    if !ok {
      return Err(DeviceSeek), 0;
    }
    ok := image.Open();
    if !ok {
      return Err(CannotOpenImage), 0;
    }
    SectorsInUse(CHUNK, SECTOR);
    var streamed, count := StreamImage(dev, image, SECTOR, progress);
    done := count;
    if streamed.Err? {
      return Err(streamed.error), done;
    }
    if dev.faithful {
      ImageOverWiped(old(dev.media), wiped, dev.media, image.data, done, lastMb);
      FlashedBlanks(old(dev.media), dev.media, image.data, deviceSize);
    }
    var synced := dev.Sync();
    r := Ok(WriteOutcome(count, !synced));
  }

  /** One turn of the comparison loop: both sides of a chunk, the card in whole sectors. */
  method CompareChunk(
    dev: BlockDevice, image: ImageFile, imgBuf: array<byte>, devBuf: array<byte>, done: nat, want: nat, sector: nat)
    returns (r: Result<(), FlashError>)
    requires imgBuf != devBuf && imgBuf.Length == devBuf.Length == CHUNK && SuitsChunk(sector, CHUNK)
    requires want <= CHUNK && image.pos == dev.pos == done && SamePrefix(dev.media, image.data, done)
    modifies dev`pos, image`pos, imgBuf, devBuf
    ensures r.Ok? ==> image.pos == done + want && dev.pos == done + RoundUp(want, sector)
    ensures r.Ok? ==> SamePrefix(dev.media, image.data, done + want)
    ensures r == Err(VerifyMismatch) ==>
              exists i :: done <= i < done + want && i < |image.data| && i < |dev.media| && dev.media[i] != image.data[i]
    ensures dev.reliable && image.reliable && done + want <= |image.data| && done + RoundUp(want, sector) <= |dev.media|
            ==> r.Ok? || r.error == VerifyMismatch
  {
    var ok := image.ReadExact(imgBuf, want);
    if !ok {
      return Err(ImageRead);
    }
    var aligned := AlignedSize(want, sector);
    ok := dev.ReadExact(devBuf, aligned);
    if !ok {
      return Err(DeviceRead);
    }
    assert devBuf[..want] == devBuf[..aligned][..want] == dev.media[done..done + want];
    if imgBuf[..want] != devBuf[..want] {
      DifferenceInside(dev.media, image.data, done, want);
      return Err(VerifyMismatch);
    }
    SamePrefixExtends(dev.media, image.data, done, want);
    r := Ok(());
  }

  method CompareChunks(dev: BlockDevice, image: ImageFile, imageSize: nat, sector: nat, progress: ProgressFile)
    returns (r: Result<(), FlashError>, ghost compared: nat)
    requires dev.pos == 0 && image.pos == 0 && SuitsChunk(sector, CHUNK)
    modifies dev`pos, image`pos, progress
    ensures r.Ok? ==> SamePrefix(dev.media, image.data, imageSize)
    ensures r == Err(VerifyMismatch) ==>
              exists i :: 0 <= i < imageSize && i < |image.data| && i < |dev.media| && dev.media[i] != image.data[i]
    ensures dev.reliable && image.reliable && imageSize <= |image.data| && RoundUp(imageSize, sector) <= |dev.media|
            ==> r.Ok? || r.error == VerifyMismatch
    ensures compared <= imageSize && (r.Ok? ==> compared == imageSize)
    ensures progress.history ==
            old(progress.history) + (if imageSize == 0 then [] else Percents(ChunkReports(compared), imageSize))
  {
    var imgBuf, devBuf := new byte[CHUNK], new byte[CHUNK];
    var done: nat := 0;
    ghost var k, history := 0, progress.history;
    compared := 0;
    while done < imageSize
      invariant done <= imageSize && image.pos == done
      invariant SamePrefix(dev.media, image.data, done)
      invariant done < imageSize ==> done == k * CHUNK && done % sector == 0 && dev.pos == done
      invariant compared == done
      invariant imageSize > 0 ==> progress.history == history + Percents(ChunkReports(done), imageSize)
      invariant imageSize == 0 ==> progress.history == history
    {
      var want := Min(CHUNK, imageSize - done);
      ChunkBounds(done, want, imageSize, sector);
      var turn := CompareChunk(dev, image, imgBuf, devBuf, done, want, sector);
      if turn.Err? {
        return Err(turn.error), done;
      }
      NextPercent(history, k, done, done + want, imageSize);
      done, k, compared := done + want, k + 1, done + want;
      progress.Publish(Verifying(PercentOf(done, imageSize)));
    }
    r := Ok(());
  }

  /** `verify_image_on_raw_fd`: read the card back over the same descriptor and compare. On media
      that report no error it accepts exactly the cards that hold the image. */
  method VerifyImageOnRawFd(dev: BlockDevice, image: ImageFile, imageSize: nat, progress: ProgressFile)
    returns (r: Result<(), FlashError>, ghost compared: nat)
    modifies dev`pos, image`pos, progress
    ensures r.Ok? ==> SamePrefix(dev.media, image.data, imageSize)
    ensures r == Err(VerifyMismatch) ==> !SamePrefix(dev.media, image.data, imageSize)
    ensures dev.reliable && image.reliable && imageSize <= |image.data| && RoundUp(imageSize, SECTOR) <= |dev.media|
            ==> (r.Ok? <==> SamePrefix(dev.media, image.data, imageSize))
    ensures compared <= imageSize && (r.Ok? ==> compared == imageSize)
    ensures progress.history ==
            old(progress.history) + (if imageSize == 0 then [] else Percents(ChunkReports(compared), imageSize))
  {
    compared := 0;
    var ok := dev.Seek(0);
    if !ok {
      return Err(DeviceSeek), 0;
    }
    ok := image.Open();
    if !ok {
      return Err(CannotOpenImage), 0;
    }
    SectorsInUse(CHUNK, SECTOR);
    r, compared := CompareChunks(dev, image, imageSize, SECTOR, progress);
  }

  lemma DifferenceInside(a: seq<byte>, b: seq<byte>, at: nat, len: nat)
    requires at + len <= |a| && at + len <= |b| && a[at..at + len] != b[at..at + len]
    ensures exists i :: at <= i < at + len && a[i] != b[i]
  {
  }
}
