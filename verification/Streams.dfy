/**
 What the flash engine runs on: the image file, the card behind a descriptor, and the SHA-256
 state, each kept to the contract the engine relies on. Short reads, I/O errors, partial writes
 and the kernel's own write-back are free choices, so every proof covers every schedule of them.
 */
module Streams {
  import opened Wrappers
  import opened Bytes

  const CHUNK: nat := 0x40_0000

  /** A free choice of the environment. */
  method Chance() returns (b: bool) {
    b := *;
  }

  /** How much of a request is served in one go: at least one byte when any can be. */
  method Amount(most: nat) returns (n: nat)
    ensures n <= most && (n == 0 <==> most == 0)
  {
    n := 0;
    if most > 0 {
      n :| 1 <= n <= most;
    }
  }

  datatype IoError = IoError

  /** Why a flash stops. Offsets are counts of real image bytes. */
  datatype FlashError =
    | ImageMissing
    | CannotStat
    | NotAPhysicalDrive
    | CannotOpenImage
    | CannotOpenDevice
    | ImageRead
    | DeviceSeek
    | DeviceWrite(at: nat)
    | WriteRefused
    | WroteNothing
    | DeviceSync(at: nat)
    | DeviceRead
    | ShortDevice(got: nat, want: nat)
    | VerifyMismatch

  /** A file that does not change while it is open for reading. */
  class ImageFile {
    var data: seq<byte>
    var pos: nat
    const reliable: bool

    constructor (data: seq<byte>, reliable: bool)
      ensures this.data == data && pos == 0 && this.reliable == reliable
    {
      this.data := data;
      this.pos := 0;
      this.reliable := reliable;
    }

    method Open() returns (ok: bool)
      modifies this`pos
      ensures ok ==> pos == 0
      ensures reliable ==> ok
    {
      ok := Chance();
      ok := ok || reliable;
      pos := 0;
    }

    /** Reads between 1 and `to - from` bytes; 0 only at the end of the file. */
    method Read(buf: array<byte>, from: nat, to: nat) returns (r: Result<nat, IoError>)
      requires from <= to <= buf.Length && pos <= |data|
      modifies this`pos, buf
      ensures pos <= |data|
      ensures r.Ok? ==> r.value <= to - from && pos == old(pos) + r.value
      ensures r.Ok? ==> (r.value == 0 <==> from == to || old(pos) == |data|)
      ensures r.Ok? ==> buf[from..from + r.value] == data[old(pos)..pos]
      ensures buf[..from] == old(buf[..from])
      ensures reliable ==> r.Ok?
    {
      var ok := Chance();
      if !ok && !reliable {
        return Err(IoError);
      }
      var n := Amount(Min(to - from, |data| - pos));
      forall i | from <= i < from + n {
        buf[i] := data[pos + i - from];
      }
      pos := pos + n;
      r := Ok(n);
    }

    /** Reads exactly the first `len` bytes of the buffer, or fails. */
    method ReadExact(buf: array<byte>, len: nat) returns (ok: bool)
      requires len <= buf.Length && pos <= |data|
      modifies this`pos, buf
      ensures pos <= |data|
      ensures ok ==> pos == old(pos) + len && buf[..len] == data[old(pos)..pos]
      ensures reliable && old(pos) + len <= |data| ==> ok
    {
      ok := Chance();
      ok := (ok || reliable) && pos + len <= |data|;
      if ok {
        forall i | 0 <= i < len {
          buf[i] := data[pos + i];
        }
        pos := pos + len;
      }
    }
  }

  /** Bytes outside `[from, to)` are the same on both cards. */
  ghost predicate SameOutside(a: seq<byte>, b: seq<byte>, from: nat, to: nat) {
    |a| == |b| && forall i :: 0 <= i < |a| && !(from <= i < to) ==> a[i] == b[i]
  }

  lemma SameOutsideJoins(a: seq<byte>, b: seq<byte>, c: seq<byte>, from: nat, to: nat, limit: nat)
    requires to <= limit && SameOutside(a, b, 0, limit) && SameOutside(b, c, from, to)
    ensures SameOutside(a, c, 0, limit)
  {
  }

  ghost predicate SamePrefix(a: seq<byte>, b: seq<byte>, n: nat) {
    n <= |a| && n <= |b| && forall i :: 0 <= i < n ==> a[i] == b[i]
  }

  lemma SamePrefixExtends(a: seq<byte>, b: seq<byte>, n: nat, more: nat)
    requires SamePrefix(a, b, n) && n + more <= |a| && n + more <= |b| && a[n..n + more] == b[n..n + more]
    ensures SamePrefix(a, b, n + more)
  {
    forall i | n <= i < n + more ensures a[i] == b[i] {
      assert a[n..n + more][i - n] == b[n..n + more][i - n];
    }
  }

  /** After a write or a wait, every byte that survives a power cut is one that was stable before
      or one that has been in the cache. */
  ghost predicate WrittenBack(stable: seq<byte>, media: seq<byte>, stable': seq<byte>, media': seq<byte>)
    requires |stable| == |media| == |media'|
  {
    && |stable'| == |media|
    && forall i :: 0 <= i < |media| ==> stable'[i] in {stable[i], media[i], media'[i]}
  }

  /**
   A card behind an open descriptor. `media` is what reads return, `stable` what a power cut
   would leave. A faithful card stores what accepted writes carry; a reliable one reports no
   error inside its capacity.
   */
  class BlockDevice {
    var media: seq<byte>
    var pos: nat
    ghost var stable: seq<byte>
    const faithful: bool
    const reliable: bool

    ghost predicate Valid()
      reads this
    {
      |stable| == |media|
    }

    constructor (media: seq<byte>, faithful: bool, reliable: bool)
      ensures Valid() && this.media == media && pos == 0
      ensures this.faithful == faithful && this.reliable == reliable
    {
      this.media := media;
      this.stable := media;
      this.pos := 0;
      this.faithful := faithful;
      this.reliable := reliable;
    }

    method Seek(to: nat) returns (ok: bool)
      modifies this`pos
      ensures ok ==> pos == to
      ensures reliable ==> ok
    {
      ok := Chance();
      ok := ok || reliable;
      pos := to;
    }

    method WriteAll(buf: array<byte>, len: nat) returns (ok: bool)
      requires Valid() && len <= buf.Length
      modifies this
      ensures Valid() && |media| == old(|media|)
      ensures ok ==> pos == old(pos) + len <= |media|
      ensures ok && faithful ==> media == Splice(old(media), old(pos), buf[..len])
      ensures faithful ==> SameOutside(old(media), media, old(pos), old(pos) + len)
      ensures faithful ==> WrittenBack(old(stable), old(media), stable, media)
      ensures reliable && old(pos) + len <= |media| ==> ok
    {
      ok := Chance();
      ok := (ok || reliable) && pos + len <= |media|;
      var accepted := len;
      if !ok && pos < |media| {
        accepted := Amount(Min(len, |media| - pos));
      } else if !ok {
        accepted := 0;
      }
      ghost var media0 := media;
      if pos + accepted <= |media| {
        media := Splice(media, pos, buf[..accepted]);
      }
      pos := pos + accepted;
      if !faithful {
        var junk: seq<byte> := *;
        if |junk| == |media| {
          media := junk;
        }
      }
      ghost var s: seq<byte> := *;
      if WrittenBack(stable, media0, s, media) {
        stable := s;
      }
    }

    method ReadExact(buf: array<byte>, len: nat) returns (ok: bool)
      requires len <= buf.Length
      modifies this`pos, buf
      ensures ok ==> pos == old(pos) + len <= |media| && buf[..len] == media[old(pos)..pos]
      ensures reliable && old(pos) + len <= |media| ==> ok
    {
      ok := Chance();
      ok := (ok || reliable) && pos + len <= |media|;
      if ok {
        forall i | 0 <= i < len {
          buf[i] := media[pos + i];
        }
        pos := pos + len;
      }
    }

    /** Reads between 1 and `len` bytes; 0 only at the end of the card. */
    method Read(buf: array<byte>, len: nat) returns (r: Result<nat, IoError>)
      requires 0 < len <= buf.Length && pos <= |media|
      modifies this`pos, buf
      ensures pos <= |media|
      ensures r.Ok? ==> r.value <= len && pos == old(pos) + r.value
      ensures r.Ok? ==> (r.value == 0 <==> old(pos) == |media|)
      ensures r.Ok? ==> buf[..r.value] == media[old(pos)..pos]
      ensures reliable ==> r.Ok?
    {
      var ok := Chance();
      if !ok && !reliable {
        return Err(IoError);
      }
      var n := Amount(Min(len, |media| - pos));
      forall i | 0 <= i < n {
        buf[i] := media[pos + i];
      }
      pos := pos + n;
      r := Ok(n);
    }

    /** A sync that succeeds makes the whole cache stable; one that fails may still write some. */
    method Sync() returns (ok: bool)
      requires Valid()
      modifies this`stable
      ensures Valid()
      ensures ok ==> stable == media
      ensures WrittenBack(old(stable), media, stable, media)
      ensures reliable ==> ok
    {
      ok := Chance();
      ok := ok || reliable;
      ghost var s: seq<byte> := *;
      if ok {
        stable := media;
      } else if WrittenBack(stable, media, s, media) {
        stable := s;
      }
    }
  }

  /** The running SHA-256: all that has been fed so far. `sha` is the hexadecimal digest function. */
  class Hasher {
    const sha: seq<byte> -> string
    var fed: seq<byte>

    constructor (sha: seq<byte> -> string)
      ensures this.sha == sha && fed == []
    {
      this.sha := sha;
      this.fed := [];
    }

    method Update(buf: array<byte>, len: nat)
      requires len <= buf.Length
      modifies this
      ensures fed == old(fed) + buf[..len]
    {
      fed := fed + buf[..len];
    }
  }

  /** The inner read loop of every writer: fill the chunk up to `limit`, across short reads. */
  method FillChunk(src: ImageFile, buf: array<byte>, limit: nat) returns (r: Result<nat, IoError>)
    requires limit <= buf.Length && src.pos <= |src.data|
    modifies src`pos, buf
    ensures src.pos <= |src.data|
    ensures r.Ok? ==> r.value == Min(limit, |src.data| - old(src.pos)) && src.pos == old(src.pos) + r.value
    ensures r.Ok? ==> buf[..r.value] == src.data[old(src.pos)..src.pos]
    ensures src.reliable ==> r.Ok?
  {
    var filled: nat := 0;
    while filled < limit
      invariant filled <= limit && src.pos == old(src.pos) + filled <= |src.data|
      invariant buf[..filled] == src.data[old(src.pos)..src.pos]
    {
      ghost var before := buf[..filled];
      var n :- src.Read(buf, filled, limit);
      if n == 0 {
        break;
      }
      assert buf[..filled + n] == before + buf[filled..filled + n];
      filled := filled + n;
    }
    r := Ok(filled);
  }

  /** Zero the tail of the buffer that completes the last sector. */
  method ZeroTail(buf: array<byte>, from: nat, to: nat)
    requires from <= to <= buf.Length
    modifies buf
    ensures buf[..to] == old(buf[..from]) + Zeros(to - from)
  {
    var i := from;
    while i < to
      invariant from <= i <= to
      invariant buf[..i] == old(buf[..from]) + Zeros(i - from)
    {
      ghost var before := buf[..i];
      buf[i] := 0;
      assert buf[..i + 1] == before + [0];
      i := i + 1;
    }
  }

  /** The card after the first `done` image bytes went out in whole sectors: those bytes, zeros up
      to the sector boundary, and beyond it what was there before. */
  ghost predicate HoldsPrefix(before: seq<byte>, after: seq<byte>, image: seq<byte>, done: nat, sector: nat)
    requires sector > 0
  {
    && done <= |image| && RoundUp(done, sector) <= |after| == |before|
    && (forall i :: 0 <= i < done ==> after[i] == image[i])
    && (forall i :: done <= i < RoundUp(done, sector) ==> after[i] == 0)
    && (forall i :: RoundUp(done, sector) <= i < |after| ==> after[i] == before[i])
  }

  lemma NothingWritten(before: seq<byte>, image: seq<byte>, sector: nat)
    requires sector > 0
    ensures HoldsPrefix(before, before, image, 0, sector)
  {
    RoundUpOfNothing(sector);
  }

  /** A chunk written behind whole sectors extends what the card holds. */
  lemma ChunkExtends(
    before: seq<byte>, media: seq<byte>, after: seq<byte>, image: seq<byte>, done: nat, filled: nat, sector: nat)
    requires sector > 0 && done % sector == 0 && done + filled <= |image|
    requires HoldsPrefix(before, media, image, done, sector)
    requires done + RoundUp(filled, sector) <= |media|
    requires after == Splice(media, done, Padded(image[done..done + filled], sector))
    ensures HoldsPrefix(before, after, image, done + filled, sector)
  {
    RoundUpFrom(done, filled, sector);
    var chunk := image[done..done + filled];
    var padded := Padded(chunk, sector);
    forall i | done <= i < done + |padded|
      ensures after[i] == if i < done + filled then image[i] else 0
    {
      assert after[done..done + |padded|][i - done] == padded[i - done];
      assert i < done + filled ==> padded[..filled][i - done] == padded[i - done];
    }
  }

  /** Any two cards that hold the same image the same way over the same old contents are equal. */
  lemma HoldingIsUnique(before: seq<byte>, a: seq<byte>, b: seq<byte>, image: seq<byte>, done: nat, sector: nat)
    requires sector > 0 && HoldsPrefix(before, a, image, done, sector) && HoldsPrefix(before, b, image, done, sector)
    ensures a == b
  {
  }

  /** Where the copy loop stands after a chunk: still on a sector boundary unless it is the last. */
  lemma ChunkBounds(done: nat, next: nat, total: nat, sector: nat)
    requires SuitsChunk(sector, CHUNK)
    requires done % sector == 0 && next <= CHUNK && done + next <= total
    ensures RoundUp(done, sector) == done
    ensures RoundUp(done + next, sector) == done + RoundUp(next, sector) <= RoundUp(total, sector)
    ensures next == CHUNK ==> RoundUp(next, sector) == next && (done + next) % sector == 0
  {
    RoundUpFrom(done, next, sector);
    RoundUpGrows(done + next, total, sector);
    RoundUpFrom(CHUNK, 0, sector);
    MultiplesAdd(done, CHUNK, sector);
  }

  /** The mask expression of the writers, on a chunk. */
  method AlignedSize(n: nat, sector: nat) returns (aligned: nat)
    requires n <= CHUNK && SuitsChunk(sector, CHUNK)
    ensures aligned == RoundUp(n, sector) <= CHUNK
  {
    aligned := if sector == 1 then n else AlignUp(n, sector);
  }

  /** Pad the filled part of the buffer to whole sectors and write it at the current position. */
  method WritePadded(dev: BlockDevice, buf: array<byte>, filled: nat, sector: nat, ghost chunk: seq<byte>)
    returns (ok: bool)
    requires dev.Valid() && buf.Length == CHUNK && SuitsChunk(sector, CHUNK)
    requires filled == |chunk| <= CHUNK && buf[..filled] == chunk
    modifies dev, buf
    ensures dev.Valid() && |dev.media| == old(|dev.media|)
    ensures ok ==> dev.pos == old(dev.pos) + RoundUp(filled, sector) <= |dev.media|
    ensures ok && dev.faithful ==> dev.media == Splice(old(dev.media), old(dev.pos), Padded(chunk, sector))
    ensures dev.faithful ==>
              SameOutside(old(dev.media), dev.media, old(dev.pos), old(dev.pos) + RoundUp(filled, sector))
    ensures dev.faithful ==> WrittenBack(old(dev.stable), old(dev.media), dev.stable, dev.media)
    ensures dev.reliable && old(dev.pos) + RoundUp(filled, sector) <= |dev.media| ==> ok
  {
    var aligned := AlignedSize(filled, sector);
    ZeroTail(buf, filled, aligned);
    assert buf[..aligned] == Padded(chunk, sector);
    ok := dev.WriteAll(buf, aligned);
  }

  /** Write the chunk behind `done` image bytes: the card goes on holding a prefix of the image over
      what it held before the copy, `card`, and nothing beyond the padded image changes. */
  method StoreChunk(
    dev: BlockDevice, buf: array<byte>, filled: nat, sector: nat,
    ghost card: seq<byte>, ghost image: seq<byte>, ghost done: nat)
    returns (ok: bool)
    requires dev.Valid() && buf.Length == CHUNK && SuitsChunk(sector, CHUNK)
    requires filled <= CHUNK && done + filled <= |image| && buf[..filled] == image[done..done + filled]
    requires dev.pos == done && done % sector == 0 && done <= |dev.media| == |card|
    requires dev.faithful ==> HoldsPrefix(card, dev.media, image, done, sector)
    requires dev.faithful ==> SameOutside(card, dev.media, 0, RoundUp(|image|, sector))
    modifies dev, buf
    ensures dev.Valid() && |dev.media| == |card|
    ensures ok ==> dev.pos == RoundUp(done + filled, sector) <= |card|
    ensures ok && filled == CHUNK ==> dev.pos == done + filled && dev.pos % sector == 0
    ensures ok && dev.faithful ==> HoldsPrefix(card, dev.media, image, done + filled, sector)
    ensures dev.faithful ==> SameOutside(card, dev.media, 0, RoundUp(|image|, sector))
    ensures dev.faithful ==> SameOutside(old(dev.media), dev.media, done, |card|)
    ensures dev.faithful ==> WrittenBack(old(dev.stable), old(dev.media), dev.stable, dev.media)
    ensures dev.reliable && RoundUp(|image|, sector) <= |card| ==> ok
  {
    ghost var media, size := dev.media, RoundUp(|image|, sector);
    ChunkBounds(done, filled, |image|, sector);
    ok := WritePadded(dev, buf, filled, sector, image[done..done + filled]);
    if dev.faithful {
      SameOutsideJoins(card, media, dev.media, done, done + RoundUp(filled, sector), size);
      if ok {
        ChunkExtends(card, media, dev.media, image, done, filled, sector);
      }
    }
  }

  /** The prefix of the image file that a run with this size copies. */
  function Source(data: seq<byte>, imageSize: nat): seq<byte> {
    data[..Min(imageSize, |data|)]
  }

  /** The digest tells these two byte strings apart if they differ. */
  ghost predicate NoCollision(sha: seq<byte> -> string, a: seq<byte>, b: seq<byte>) {
    sha(a) == sha(b) ==> a == b
  }

  lemma HeldPrefix(card: seq<byte>, media: seq<byte>, source: seq<byte>, sector: nat)
    requires sector > 0 && HoldsPrefix(card, media, source, |source|, sector)
    ensures media[..|source|] == source
  {
  }
}
