/** The three raw writers side by side, on cards with the same old contents. */
module WritersAgree {
  import opened Wrappers
  import opened Bytes
  import opened Streams
  import opened Progress
  import RawWriteUnix
  import FlashWrite
  import FlashWindows
  import Win32

  /** Byte `i` is where one of two writers has put a zero over something else and the other has not. */
  predicate ZeroedByOne(before: seq<byte>, i: nat, one: bool, other: bool) {
    i < |before| && before[i] != 0 && one != other
  }

  /** Byte `i` lies in what a writer adds to complete the last sector. */
  predicate PaddedTo(n: nat, sector: nat, i: nat)
    requires sector > 0
  {
    n <= i < RoundUp(n, sector)
  }

  /** Byte `i` lies behind the image where the macOS writer pads or wipes. */
  predicate Blanked(n: nat, lastMb: Option<nat>, i: nat) {
    n <= i && RawWriteUnix.Touched(n, lastMb, i)
  }

  /** Exactly the bytes at which two cards of equal size differ. */
  ghost predicate DifferAt(a: seq<byte>, b: seq<byte>, differs: nat -> bool) {
    |a| == |b| && forall i: nat :: i < |a| ==> (a[i] != b[i] <==> differs(i))
  }

  /** A card of this capacity has room for what each of the writers writes. */
  predicate HaveRoom(capacity: nat, n: nat, lastMb: Option<nat>) {
    RoundUp(n, FlashWindows.SECTOR) <= capacity && RawWriteUnix.Fits(capacity, n, lastMb)
  }

  /** A run of each writer for one image, each with reads, writes and chunks as they happen to come. If
      all three succeed, all cards begin with the image, and they differ exactly where one writer has
      blanked a byte behind it that another has left: direct Linux writes and Windows writes do not
      differ at all. On reliable cards with room they do succeed. */
  method RunAll(
    before: seq<byte>, image: seq<byte>, direct: bool, deviceSize: Option<nat>, sha: seq<byte> -> string, reliable: bool)
    returns (ok: bool, linux: seq<byte>, windows: seq<byte>, mac: seq<byte>)
    ensures ok ==> |image| <= |before| == |linux| == |windows| == |mac|
    ensures ok ==> linux[..|image|] == windows[..|image|] == mac[..|image|] == image
    ensures ok && direct ==> linux == windows
    ensures ok ==> DifferAt(linux, windows, (i: nat) =>
                              ZeroedByOne(before, i, direct && PaddedTo(|image|, FlashWindows.SECTOR, i), PaddedTo(|image|, FlashWindows.SECTOR, i)))
    ensures ok ==> DifferAt(mac, windows, (i: nat) =>
                              ZeroedByOne(before, i, Blanked(|image|, RawWriteUnix.LastMb(deviceSize), i), PaddedTo(|image|, FlashWindows.SECTOR, i)))
    ensures reliable && HaveRoom(|before|, |image|, RawWriteUnix.LastMb(deviceSize)) ==> ok
  {
    ok, linux, windows, mac := false, [], [], [];
    SmallerSectorsPadLess(|image|);
    var onLinux := RunLinux(before, image, direct, sha, reliable);
    var onWindows := RunWindows(before, image, sha, reliable);
    var onMac := RunMac(before, image, deviceSize, reliable);
    if onLinux.None? || onWindows.None? || onMac.None? {
      return;
    }
    linux, windows, mac := onLinux.value, onWindows.value, onMac.value;
    ok := true;
    HeldPrefix(before, linux, image, FlashWrite.Block(direct));
    HeldPrefix(before, windows, image, FlashWindows.SECTOR);
    LinuxAgainstWindows(before, linux, windows, image, direct);
    MacAgainstWindows(before, mac, windows, image, RawWriteUnix.LastMb(deviceSize));
  }

  method RunLinux(before: seq<byte>, image: seq<byte>, direct: bool, sha: seq<byte> -> string, reliable: bool)
    returns (r: Option<seq<byte>>)
    ensures r.Some? ==> HoldsPrefix(before, r.value, image, |image|, FlashWrite.Block(direct))
    ensures reliable && RoundUp(|image|, FlashWrite.Block(direct)) <= |before| ==> r.Some?
  {
    var file := new ImageFile(image, reliable);
    var card := new BlockDevice(before, true, reliable);
    var hasher := new Hasher(sha);
    var progress := new ProgressFile();
    assert Source(image, |image|) == image;
    var wrote, written, syncedAt := FlashWrite.WritePhase(file, |image|, card, direct, hasher, progress);
    r := if wrote.Ok? then Some(card.media) else None;
  }

  method RunWindows(before: seq<byte>, image: seq<byte>, sha: seq<byte> -> string, reliable: bool)
    returns (r: Option<seq<byte>>)
    ensures r.Some? ==> HoldsPrefix(before, r.value, image, |image|, FlashWindows.SECTOR)
    ensures reliable && RoundUp(|image|, FlashWindows.SECTOR) <= |before| ==> r.Some?
  {
    var file := new ImageFile(image, reliable);
    var progress := new ProgressFile();
    var disk := new Win32.Kernel(before, {}, map[], true, reliable);
    assert Source(image, |image|) == image;
    var wrote, written := FlashWindows.WritePass(disk, file, |image|, sha, progress, {});
    r := if wrote.Ok? then Some(disk.media) else None;
  }

  method RunMac(before: seq<byte>, image: seq<byte>, deviceSize: Option<nat>, reliable: bool)
    returns (r: Option<seq<byte>>)
    ensures r.Some? ==> RawWriteUnix.Flashed(before, r.value, image, RawWriteUnix.LastMb(deviceSize))
    ensures reliable && RawWriteUnix.Fits(|before|, |image|, RawWriteUnix.LastMb(deviceSize)) ==> r.Some?
  {
    var file := new ImageFile(image, reliable);
    var card := new BlockDevice(before, true, reliable);
    var progress := new ProgressFile();
    var wrote, done := RawWriteUnix.WriteImageToRawFd(card, file, deviceSize, progress);
    r := if wrote.Ok? then Some(card.media) else None;
  }

  lemma SmallerSectorsPadLess(n: nat)
    ensures RoundUp(n, 512) <= RoundUp(n, 4096) && RoundUp(n, 1) == n
  {
    var q := (n + 4095) / 4096;
    RoundUpIsLeast(n, 512, 8 * q);
  }

  lemma LinuxAgainstWindows(before: seq<byte>, linux: seq<byte>, windows: seq<byte>, image: seq<byte>, direct: bool)
    requires HoldsPrefix(before, linux, image, |image|, FlashWrite.Block(direct))
    requires HoldsPrefix(before, windows, image, |image|, FlashWindows.SECTOR)
    ensures direct ==> linux == windows
    ensures DifferAt(linux, windows, (i: nat) =>
                       ZeroedByOne(before, i, direct && PaddedTo(|image|, FlashWindows.SECTOR, i), PaddedTo(|image|, FlashWindows.SECTOR, i)))
  {
    SmallerSectorsPadLess(|image|);
    if direct {
      HoldingIsUnique(before, linux, windows, image, |image|, FlashWindows.SECTOR);
    }
  }

  lemma MacAgainstWindows(
    before: seq<byte>, mac: seq<byte>, windows: seq<byte>, image: seq<byte>, lastMb: Option<nat>)
    requires RawWriteUnix.Flashed(before, mac, image, lastMb)
    requires HoldsPrefix(before, windows, image, |image|, FlashWindows.SECTOR)
    ensures mac[..|image|] == image
    ensures DifferAt(mac, windows, (i: nat) =>
                       ZeroedByOne(before, i, Blanked(|image|, lastMb, i), PaddedTo(|image|, FlashWindows.SECTOR, i)))
  {
  }

  /** The buffered fallback leaves the same card as direct writes exactly when the bytes that direct
      writes pad were zero already. */
  lemma BufferedMatchesDirect(before: seq<byte>, buffered: seq<byte>, padded: seq<byte>, image: seq<byte>)
    requires HoldsPrefix(before, buffered, image, |image|, FlashWrite.Block(false))
    requires HoldsPrefix(before, padded, image, |image|, FlashWrite.Block(true))
    ensures buffered == padded <==> forall i :: |image| <= i < RoundUp(|image|, 4096) ==> before[i] == 0
  {
    assert RoundUp(|image|, 1) == |image|;
    if forall i :: |image| <= i < RoundUp(|image|, 4096) ==> before[i] == 0 {
      assert forall i :: 0 <= i < |before| ==> buffered[i] == padded[i];
    } else {
      var i :| |image| <= i < RoundUp(|image|, 4096) && before[i] != 0;
      assert buffered[i] != padded[i];
    }
  }
}
