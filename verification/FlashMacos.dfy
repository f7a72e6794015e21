/**
 The macOS flash (src-tauri/src/flash_macos.rs): make a private copy of the image, patch its boot
 partition, get an authorised descriptor, write, and verify over the same descriptor.
 */
module FlashMacos {
  import opened Wrappers
  import opened Bytes
  import opened Streams
  import opened Text
  import opened Progress
  import opened Reports
  import opened RawWriteUnix
  import opened BootPatch
  import opened FatVolume
  import FdHelper

  datatype FlashFailure =
    | NoWorkingCopy
    | PatchFailed(patch: PatchError)
    | Authorization(helper: FdHelper.HelperError)
    | NotWritten(write: FlashError)
    | NotVerified(verify: FlashError)
  {
    /** The flash stopped before it had a descriptor. */
    predicate BeforeDevice() {
      NoWorkingCopy? || PatchFailed? || Authorization?
    }
  }

  /** What the authorisation helper does while the prompt is up. */
  datatype Helper = Helper(socketOk: bool, spawned: bool, events: seq<FdHelper.Recv>, exit: Option<int>)

  /** The size of a patched image is that of the original, or reaches at most to the end of its boot
      partition; either way it is a 64-bit number. */
  lemma PatchedSize(before: seq<byte>, after: seq<byte>)
    requires |before| <= U64_MAX && OnlyBootPartition(before, after)
    ensures |after| <= U64_MAX
  {
    if |before| >= 512 && BootEntry(before[..512]).Ok? {
      BootEntryBounds(before[..512]);
    }
  }

  /** What the card carries once it holds the patched image: the boot partition, read from the card,
      is the patched tree, and every byte outside it is the user's own. */
  ghost predicate CardCarries(
    media: seq<byte>, n: nat, source: seq<byte>, driver: Driver, dtbo: seq<byte>, variant: seq<byte>, found: bool)
  {
    && |source| <= n <= |media|
    && PatchDone(source, media[..n], driver, dtbo, variant, found)
  }

  // ----- The working copy -----

  /** The file the image is decompressed or copied into. `creates`, `room` and `removes` say what the
      temporary directory allows: creating it, how many bytes, removing it. */
  class WorkingCopy {
    var there: bool
    const image: ImageFile
    const creates: bool
    const room: nat
    const removes: bool

    constructor (image: ImageFile, there: bool, creates: bool, room: nat, removes: bool)
      ensures this.image == image && this.there == there
      ensures this.creates == creates && this.room == room && this.removes == removes
    {
      this.image, this.there := image, there;
      this.creates, this.room, this.removes := creates, room, removes;
    }

    /** Empties a file that is there already. */
    method Create() returns (ok: bool)
      modifies this, image`data
      ensures ok <==> creates
      ensures if ok then there && image.data == [] else there == old(there) && image.data == old(image.data)
    {
      ok := creates;
      if ok {
        there, image.data := true, [];
      }
    }

    /** Writes as much of the chunk as there is room for. */
    method Append(chunk: seq<byte>) returns (ok: bool)
      modifies image`data
      ensures ok <==> old(|image.data|) + |chunk| <= room
      ensures ok ==> image.data == old(image.data) + chunk
    {
      ok := |image.data| + |chunk| <= room;
      var left := if |image.data| <= room then room - |image.data| else 0;
      image.data := image.data + chunk[..Min(|chunk|, left)];
    }

    method Remove()
      modifies this
      ensures there == (old(there) && !removes)
    {
      if removes {
        there := false;
      }
    }
  }

  /** What comes out of the user's file, decompressed or as it is: nothing if the checks before it fail
      or it cannot be opened, else chunks, up to the end or up to an error. */
  datatype Original = Original(opens: bool, chunks: seq<seq<byte>>, complete: bool)

  /** The working copy comes to hold the whole image. */
  predicate Materializes(original: Original, creates: bool, room: nat) {
    original.opens && creates && original.complete && |Concat(original.chunks)| <= room
  }

  /** Step 1 of the flash: decompress or copy. A copy that breaks off stays where it is. */
  method Materialize(copy: WorkingCopy, original: Original) returns (ok: bool)
    modifies copy, copy.image`data
    ensures ok <==> Materializes(original, copy.creates, copy.room)
    ensures ok ==> copy.image.data == Concat(original.chunks)
    ensures copy.there == (old(copy.there) || (original.opens && copy.creates))
  {
    if !original.opens {
      return false;
    }
    ok := copy.Create();
    if !ok {
      return;
    }
    var i := 0;
    while i < |original.chunks|
      invariant i <= |original.chunks| && copy.there
      invariant copy.image.data == Concat(original.chunks[..i]) && |copy.image.data| <= copy.room
    {
      ConcatOne(original.chunks, i);
      ConcatGrows(original.chunks, i + 1);
      ok := copy.Append(original.chunks[i]);
      if !ok {
        return;
      }
      i := i + 1;
    }
    assert original.chunks[..i] == original.chunks;
    ok := original.complete;
  }

  // ----- Write and verify -----

  /** What the verify pass goes by: the size is that of the image, or zero if it cannot be read. */
  ghost predicate Accepts(media: seq<byte>, image: seq<byte>, statOk: bool) {
    |image| <= |media| && SamePrefix(media, image, if statOk then |image| else 0)
  }

  /** What the verify pass accepts is a card that holds the image exactly when the size could be read.
      Without it every card passes. */
  lemma VerifyNeedsSize(image: seq<byte>, statOk: bool)
    ensures (forall media :: Accepts(media, image, statOk) ==> media[..|image|] == image) <==> statOk || image == []
    ensures !statOk ==> forall media: seq<byte> :: |image| <= |media| ==> Accepts(media, image, statOk)
  {
    if !statOk && image != [] {
      var other := [if image[0] == 0 then 1 else 0] + image[1..];
      assert Accepts(other, image, statOk) && other[..|image|][0] != image[0];
    }
  }

  /** The part of the flash that touches the card, on the open descriptor. `imageSize` is what the
      metadata of the working copy reports. */
  method WriteAndVerify(
    dev: BlockDevice, image: ImageFile, imageSize: nat, deviceSize: Option<nat>, verify: bool, progress: ProgressFile)
    returns (r: Result<(), FlashFailure>)
    requires dev.Valid() && |image.data| <= U64_MAX && imageSize <= |image.data|
    requires Preamble(progress.history)
    modifies dev, image`pos, progress
    ensures dev.Valid() && |dev.media| == old(|dev.media|)
    ensures r.Ok? && dev.faithful ==> Flashed(old(dev.media), dev.media, image.data, LastMb(deviceSize))
    ensures r.Ok? && dev.faithful ==> Blanks(old(dev.media), dev.media, |image.data|, deviceSize)
    ensures r.Ok? && verify ==> SamePrefix(dev.media, image.data, imageSize)
    ensures dev.faithful ==> Contained(old(dev.media), dev.media, |image.data|, LastMb(deviceSize))
    ensures dev.faithful ==> r != Err(NotVerified(VerifyMismatch))
    ensures dev.reliable && dev.faithful && image.reliable && Fits(|dev.media|, |image.data|, LastMb(deviceSize)) ==>
              r.Ok?
    ensures dev.reliable && image.reliable && Fits(|dev.media|, |image.data|, LastMb(deviceSize)) ==>
              (r.Ok? <==> !verify || SamePrefix(dev.media, image.data, imageSize))
    ensures r.Err? ==> !r.error.BeforeDevice()
    ensures r.Ok? ==> Fits(|dev.media|, |image.data|, LastMb(deviceSize))
    ensures Ordered(progress.history)
    ensures r.Ok? ==>
              FullRun(old(progress.history), progress.history, [], |image.data|, verify, [], imageSize, [])
  {
    ghost var start := progress.history;
    var wrote, done := WriteImageToRawFd(dev, image, deviceSize, progress);
    ghost var counted := progress.history;
    assert RunHistory(counted, start, done, [] + [], []);
    RunIsOrdered(counted, start, done, [], [], 0, []);
    if wrote.Err? {
      return Err(NotWritten(wrote.error));
    }
    if !verify {
      assert progress.history == start + [] + Counts(ChunkReports(done)) + [];
      return Ok(());
    }
    RoundUpGrows(imageSize, |image.data|, SECTOR);
    var compared, percents := VerifyCopy(dev, image, imageSize, progress);
    assert RunHistory(progress.history, start, done, [] + percents, []);
    RunIsOrdered(progress.history, start, done, [], percents, imageSize, []);
    if compared.Err? {
      return Err(NotVerified(compared.error));
    }
    VerifiedRun(start, [], done, [], percents, imageSize, []);
    assert progress.history == start + [] + Counts(ChunkReports(done)) + ([] + percents) + [];
    r := Ok(());
  }

  /** The verify half, over the same descriptor. */
  method VerifyCopy(dev: BlockDevice, image: ImageFile, imageSize: nat, progress: ProgressFile)
    returns (r: Result<(), FlashError>, ghost percents: seq<Message>)
    modifies dev`pos, image`pos, progress
    ensures r.Ok? ==> SamePrefix(dev.media, image.data, imageSize)
    ensures r == Err(VerifyMismatch) ==> !SamePrefix(dev.media, image.data, imageSize)
    ensures dev.reliable && image.reliable && imageSize <= |image.data| && RoundUp(imageSize, SECTOR) <= |dev.media|
            ==> (r.Ok? <==> SamePrefix(dev.media, image.data, imageSize))
    ensures VerifyReports(percents, imageSize) && (r.Ok? ==> VerifiesTo(percents, imageSize))
    ensures progress.history == old(progress.history) + percents
  {
    ghost var upTo;
    r, upTo := VerifyImageOnRawFd(dev, image, imageSize, progress);
    percents := if imageSize == 0 then [] else Percents(ChunkReports(upTo), imageSize);
    AscendingReports(upTo, imageSize);
    WholePassVerifies(imageSize);
  }

  lemma WholePassVerifies(total: nat)
    ensures VerifiesTo(if total == 0 then [] else Percents(ChunkReports(total), total), total)
  {
    ReportsAscend(total);
    if total > 0 {
      WholePassPercents(total);
      assert Ascending(ChunkReports(total), total);
    }
  }

  lemma AscendingReports(upTo: nat, total: nat)
    requires upTo <= total
    ensures Ascending(ChunkReports(upTo), total)
  {
    ReportsAscend(upTo);
  }

  /** The flash came as far as a descriptor. */
  predicate HadDevice(r: Result<(), FlashFailure>) {
    r.Ok? || !r.error.BeforeDevice()
  }

  /** The helper hands over a descriptor. */
  ghost predicate Authorizes(helper: Helper) {
    helper.socketOk && helper.spawned && exists k, fd :: FdHelper.Arrives(helper.events, k, fd)
  }

  /** `flash_core`. `found` says whether the search for the alternate configuration goes through, and
      `statOk` whether the size of the working copy can be read. */
  method FlashCore(
    original: Original, copy: WorkingCopy, dtbo: Option<seq<byte>>, variant: seq<byte>, driver: Driver, found: bool,
    statOk: bool, deviceSize: Option<nat>, helper: Helper, dev: BlockDevice, verify: bool)
    returns (r: Result<(), FlashFailure>, ghost patched: seq<byte>, ghost history: seq<Message>)
    requires Sound(driver) && dev.Valid() && |Concat(original.chunks)| <= U64_MAX
    modifies dev, copy, copy.image
    ensures dev.Valid() && |dev.media| == old(|dev.media|)
    ensures HadDevice(r) ==>
              dtbo.Some? && PatchDone(Concat(original.chunks), patched, driver, dtbo.value, variant, found)
    ensures r.Ok? && dev.faithful ==> Flashed(old(dev.media), dev.media, patched, LastMb(deviceSize))
    ensures r.Ok? && dev.faithful ==> Blanks(old(dev.media), dev.media, |patched|, deviceSize)
    ensures r.Ok? ==> FullRun([Count(0)], history, [], |patched|, verify, [], if statOk then |patched| else 0, [])
    ensures r.Ok? && (dev.faithful || (verify && statOk)) ==>
              CardCarries(dev.media, |patched|, Concat(original.chunks), driver, dtbo.value, variant, found)
    ensures !HadDevice(r) ==> dev.media == old(dev.media)
    ensures dev.faithful && HadDevice(r) ==> Contained(old(dev.media), dev.media, |patched|, LastMb(deviceSize))
    ensures dev.faithful ==> r != Err(NotVerified(VerifyMismatch))
    // without I/O errors the verify pass decides, and it goes by the size it was given
    ensures HadDevice(r) && dev.reliable && copy.image.reliable && Fits(|dev.media|, |patched|, LastMb(deviceSize)) ==>
              (r.Ok? <==> !verify || Accepts(dev.media, patched, statOk))
    // what a good card, a patchable image and a willing helper lead to
    ensures && Materializes(original, copy.creates, copy.room) && copy.image.reliable && dtbo.Some?
            && WillPatch(Concat(original.chunks), driver, dtbo.value, variant, found) && Authorizes(helper)
            && dev.reliable && dev.faithful
            && Fits(|dev.media|, Extent(Concat(original.chunks)), LastMb(deviceSize))
            ==> r.Ok?
    // the working copy
    ensures r == Err(NoWorkingCopy) <==> !Materializes(original, copy.creates, copy.room)
    ensures copy.there <==> if original.opens && copy.creates then !(HadDevice(r) && copy.removes) else old(copy.there)
    ensures Ordered(history)
  {
    history := [];
    r := Prepare(original, copy, dtbo, variant, driver, found);
    var image := copy.image;
    patched := image.data;
    if r.Err? {
      return;
    }
    PatchFits(Concat(original.chunks), patched, |dev.media|, LastMb(deviceSize));
    r, history := WriteCopy(image, statOk, deviceSize, helper, dev, verify);
    if HadDevice(r) {
      copy.Remove();
    }
    if r.Ok? && (dev.faithful || (verify && statOk)) {
      CarriesPatched(dev.media, Concat(original.chunks), patched, driver, dtbo.value, variant, found);
    }
  }

  /** Steps 4 and 5: get the descriptor, write the working copy, verify. */
  method WriteCopy(
    image: ImageFile, statOk: bool, deviceSize: Option<nat>, helper: Helper, dev: BlockDevice, verify: bool)
    returns (r: Result<(), FlashFailure>, ghost history: seq<Message>)
    requires dev.Valid() && |image.data| <= U64_MAX
    modifies dev, image`pos
    ensures dev.Valid() && |dev.media| == old(|dev.media|)
    ensures HadDevice(r) <==> Authorizes(helper)
    ensures !HadDevice(r) ==> r.error.Authorization? && dev.media == old(dev.media)
    ensures r.Ok? && dev.faithful ==> Flashed(old(dev.media), dev.media, image.data, LastMb(deviceSize))
    ensures r.Ok? && dev.faithful ==> Blanks(old(dev.media), dev.media, |image.data|, deviceSize)
    ensures r.Ok? ==> FullRun([Count(0)], history, [], |image.data|, verify, [], if statOk then |image.data| else 0, [])
    ensures r.Ok? && (dev.faithful || (verify && statOk)) ==>
              |image.data| <= |dev.media| && SamePrefix(dev.media, image.data, |image.data|)
    ensures dev.faithful ==> Contained(old(dev.media), dev.media, |image.data|, LastMb(deviceSize))
    ensures dev.faithful ==> r != Err(NotVerified(VerifyMismatch))
    ensures HadDevice(r) && dev.reliable && image.reliable && Fits(|dev.media|, |image.data|, LastMb(deviceSize)) ==>
              (r.Ok? <==> !verify || Accepts(dev.media, image.data, statOk))
    ensures Authorizes(helper) && dev.reliable && dev.faithful && image.reliable
            && Fits(|dev.media|, |image.data|, LastMb(deviceSize))
            ==> r.Ok?
    ensures Ordered(history)
  {
    history := [];
    var imageSize := if statOk then |image.data| else 0;
    var fd := FdHelper.ReceiveFdFromHelper(helper.socketOk, helper.spawned, helper.events, helper.exit);
    if fd.Err? {
      return Err(Authorization(fd.error)), [];
    }
    var progress := new ProgressFile();
    r := WriteAndVerify(dev, image, imageSize, deviceSize, verify, progress);
    history := progress.history;
  }

  /** Steps 1 and 1b: the working copy, patched. */
  method Prepare(
    original: Original, copy: WorkingCopy, dtbo: Option<seq<byte>>, variant: seq<byte>, driver: Driver, found: bool)
    returns (r: Result<(), FlashFailure>)
    requires Sound(driver) && |Concat(original.chunks)| <= U64_MAX
    modifies copy, copy.image
    ensures r.Ok? ==>
              && dtbo.Some?
              && PatchDone(Concat(original.chunks), copy.image.data, driver, dtbo.value, variant, found)
              && OnlyBootPartition(Concat(original.chunks), copy.image.data) && |copy.image.data| <= U64_MAX
    ensures r.Err? ==> r.error.NoWorkingCopy? || r.error.PatchFailed?
    ensures r == Err(NoWorkingCopy) <==> !Materializes(original, copy.creates, copy.room)
    ensures && Materializes(original, copy.creates, copy.room) && copy.image.reliable && dtbo.Some?
            && WillPatch(Concat(original.chunks), driver, dtbo.value, variant, found)
            ==> r.Ok?
    ensures copy.there == (old(copy.there) || (original.opens && copy.creates))
  {
    var ok := Materialize(copy, original);
    if !ok {
      return Err(NoWorkingCopy);
    }
    var patch := PatchBootPartition(copy.image, dtbo, variant, driver, found);
    if patch.Err? {
      return Err(PatchFailed(patch.error));
    }
    PatchedSize(Concat(original.chunks), copy.image.data);
    r := Ok(());
  }

  function Larger(a: nat, b: nat): nat {
    if a < b then b else a
  }

  /** How far the image and its boot partition reach. */
  function Extent(source: seq<byte>): nat {
    if |source| >= 512 && BootEntry(source[..512]).Ok? then Larger(|source|, BootEntry(source[..512]).value.end)
    else |source|
  }

  /** A card with room for the image and its boot partition has room for the patched image. */
  lemma PatchFits(before: seq<byte>, after: seq<byte>, capacity: nat, lastMb: Option<nat>)
    requires OnlyBootPartition(before, after)
    ensures Fits(capacity, Extent(before), lastMb) ==> Fits(capacity, |after|, lastMb)
  {
    RoundUpGrows(|after|, Extent(before), SECTOR);
  }

  lemma CarriesPatched(
    media: seq<byte>, before: seq<byte>, after: seq<byte>, driver: Driver, dtbo: seq<byte>, variant: seq<byte>,
    found: bool)
    requires PatchDone(before, after, driver, dtbo, variant, found)
    requires |after| <= |media| && SamePrefix(media, after, |after|)
    ensures CardCarries(media, |after|, before, driver, dtbo, variant, found)
  {
    assert media[..|after|] == after;
  }

  /** The card read back by itself: its first partition is where the user's image has it, and the card
      shows there the new overlay and variant, the switched configuration or the old one, and every
      other path as in the image; outside the partition the bytes are the user's. */
  lemma CardShows(
    media: seq<byte>, n: nat, source: seq<byte>, driver: Driver, dtbo: seq<byte>, variant: seq<byte>, found: bool,
    path: string)
    requires CardCarries(media, n, source, driver, dtbo, variant, found)
    ensures |source| >= 512 && BootEntry(source[..512]).Ok? && BootEntry(media[..512]) == BootEntry(source[..512])
    ensures var p := BootEntry(source[..512]).value;
            && p.start <= p.end
            && (forall i :: 0 <= i < |source| && !(p.start <= i < p.end) ==> media[i] == source[i])
            && (p.end <= n ==> Window(media, p.start, p.end) == Window(media[..n], p.start, p.end))
            && (var was := driver.mount(Window(source, p.start, p.end), p.end - p.start);
                var shown := driver.mount(Window(media[..n], p.start, p.end), p.end - p.start);
                was.Some? && shown.Some? && Shows(shown.value, was.value, dtbo, variant, found, path))
  {
    var p, t :| BootTree(source, driver, p, t) && Patchable(t, variant, found)
                && BootTree(media[..n], driver, p, Patched(t, dtbo, variant, found))
                && Confined(source, media[..n], p.start, p.end);
    PatchedFiles(t, dtbo, variant, found, path);
    assert media[..n][..512] == media[..512];
    if p.end <= n {
      assert media[..n][p.start..p.end] == media[p.start..p.end];
    }
  }

  /** What one sees of a patched tree, file by file. */
  predicate Shows(
    shown: FatTree, was: FatTree, dtbo: seq<byte>, variant: seq<byte>, found: bool, path: string)
  {
    var switched := variant == SOYSAUCE && found && Lookup(was, "extlinux/extlinux.conf.soysauce") != [];
    && "overlays/mipi-panel.dtbo" in shown.files && shown.files["overlays/mipi-panel.dtbo"] == dtbo
    && "variant" in shown.files && shown.files["variant"] == variant
    && (switched ==>
          && SameContents(shown, "extlinux/extlinux.conf", was, "extlinux/extlinux.conf.soysauce")
          && SameContents(shown, "extlinux/extlinux.conf.bak", was, "extlinux/extlinux.conf"))
    && (!switched ==> SameFile(shown, was, "extlinux/extlinux.conf") && SameFile(shown, was, "extlinux/extlinux.conf.bak"))
    && (path !in {OVERLAY, VARIANT, CONF, CONF_BAK} ==> SameFile(shown, was, path))
  }

  predicate SameContents(a: FatTree, pathA: string, b: FatTree, pathB: string) {
    pathA in a.files && pathB in b.files && a.files[pathA] == b.files[pathB]
  }
}
