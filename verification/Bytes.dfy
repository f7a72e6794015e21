/**
 Byte strings as they appear on the image, in the copy buffers and on the card, and the
 sector arithmetic of the writers.
 */
module Bytes {

  newtype byte = x: int | 0 <= x < 0x100

  function Min(a: nat, b: nat): nat {
    if a < b then a else b
  }

  function Zeros(n: nat): (z: seq<byte>)
    ensures |z| == n
    ensures forall i :: 0 <= i < n ==> z[i] == 0
  {
    seq(n, _ => 0)
  }

  /** `s` with the bytes from `at` on replaced by `part`. */
  function Splice(s: seq<byte>, at: nat, part: seq<byte>): (r: seq<byte>)
    requires at + |part| <= |s|
    ensures |r| == |s|
    ensures r[at..at + |part|] == part
    ensures forall i :: 0 <= i < |s| && !(at <= i < at + |part|) ==> r[i] == s[i]
  {
    s[..at] + part + s[at + |part|..]
  }

  /** The bytes of a stream that arrives in chunks. */
  function Concat(chunks: seq<seq<byte>>): seq<byte> {
    if chunks == [] then [] else Concat(chunks[..|chunks| - 1]) + chunks[|chunks| - 1]
  }

  lemma ConcatOne(chunks: seq<seq<byte>>, i: nat)
    requires i < |chunks|
    ensures Concat(chunks[..i + 1]) == Concat(chunks[..i]) + chunks[i]
  {
    assert chunks[..i + 1][..i] == chunks[..i];
  }

  lemma {:induction false} ConcatIsPrefix(chunks: seq<seq<byte>>, i: nat)
    requires i <= |chunks|
    ensures Concat(chunks[..i]) <= Concat(chunks)
  {
    if i == |chunks| {
      assert chunks[..i] == chunks;
    } else {
      var fewer := chunks[..|chunks| - 1];
      ConcatIsPrefix(fewer, i);
      assert fewer[..i] == chunks[..i];
    }
  }

  lemma {:induction false} ConcatGrows(chunks: seq<seq<byte>>, i: nat)
    requires i <= |chunks|
    ensures |Concat(chunks[..i])| <= |Concat(chunks)|
  {
    if i == |chunks| {
      assert chunks[..i] == chunks;
    } else {
      var fewer := chunks[..|chunks| - 1];
      ConcatGrows(fewer, i);
      assert fewer[..i] == chunks[..i];
    }
  }

  /** The least multiple of `sector` that is at least `n`. */
  function RoundUp(n: nat, sector: nat): (r: nat)
    requires sector > 0
    ensures n <= r < n + sector
  {
    RoundUpBounds(n, sector);
    (n + sector - 1) / sector * sector
  }

  lemma RoundUpBounds(n: nat, sector: nat)
    requires sector > 0
    ensures n <= (n + sector - 1) / sector * sector < n + sector
  {
    var m := n + sector - 1;
    assert m == m / sector * sector + m % sector;
  }

  /** Among the multiples of the sector size, no smaller one reaches `n`. */
  lemma RoundUpIsLeast(n: nat, sector: nat, q: nat)
    requires sector > 0 && n <= q * sector
    ensures RoundUp(n, sector) <= q * sector
  {
    var p := (n + sector - 1) / sector;
    if q < p {
      LargerQuotient(sector, q, p);
    }
  }

  lemma RoundUpGrows(m: nat, n: nat, sector: nat)
    requires sector > 0 && m <= n
    ensures RoundUp(m, sector) <= RoundUp(n, sector)
  {
    RoundUpIsLeast(m, sector, (n + sector - 1) / sector);
  }

  lemma RoundUpOfNothing(sector: nat)
    requires sector > 0
    ensures RoundUp(0, sector) == 0
  {
    DivisionIsUnique(sector - 1, sector, 0, sector - 1);
  }

  /** Rounding up past whole sectors only concerns the rest. */
  lemma RoundUpFrom(start: nat, rest: nat, sector: nat)
    requires sector > 0 && start % sector == 0
    ensures RoundUp(start, sector) == start
    ensures RoundUp(start + rest, sector) == start + RoundUp(rest, sector)
  {
    PastSectors(start, rest, sector);
    PastSectors(start, 0, sector);
    RoundUpOfNothing(sector);
  }

  lemma PastSectors(start: nat, rest: nat, sector: nat)
    requires sector > 0 && start % sector == 0
    ensures RoundUp(start + rest, sector) == start + RoundUp(rest, sector)
  {
    var q := start / sector;
    assert start == q * sector;
    var m := rest + sector - 1;
    var p, r := m / sector, m % sector;
    assert m == p * sector + r;
    assert (q + p) * sector == q * sector + p * sector;
    DivisionIsUnique(start + m, sector, q + p, r);
  }

  lemma MultiplesAdd(a: nat, b: nat, sector: nat)
    requires sector > 0 && a % sector == 0 && b % sector == 0
    ensures (a + b) % sector == 0
  {
    var p, q := a / sector, b / sector;
    assert a + b == (p + q) * sector + 0;
    DivisionIsUnique(a + b, sector, p + q, 0);
  }

  lemma QuotientIsUnique(d: nat, q: int, r: int, q': int, r': int)
    requires 0 <= r < d && 0 <= r' < d
    requires q * d + r == q' * d + r'
    ensures q == q' && r == r'
  {
    if q < q' {
      LargerQuotient(d, q, q');
    } else if q' < q {
      LargerQuotient(d, q', q);
    }
  }

  lemma LargerQuotient(d: nat, q: int, q': int)
    requires q < q'
    ensures q' * d >= q * d + d
  {
    var k := q' - q - 1;
    assert q' * d == q * d + d + k * d;
    assert k * d >= 0;
  }

  /** `s` followed by the zeros that complete its last sector. */
  function Padded(s: seq<byte>, sector: nat): (p: seq<byte>)
    requires sector > 0
    ensures |p| == RoundUp(|s|, sector)
    ensures p[..|s|] == s
    ensures forall i :: |s| <= i < |p| ==> p[i] == 0
  {
    s + Zeros(RoundUp(|s|, sector) - |s|)
  }

  // The writers round with a bit mask, `(n + SECTOR - 1) & !(SECTOR - 1)`, on 64-bit words.

  /** Bitwise conjunction, one binary digit at a time. */
  function And(a: nat, b: nat): nat {
    if a == 0 || b == 0 then 0
    else (if a % 2 == 1 && b % 2 == 1 then 1 else 0) + 2 * And(a / 2, b / 2)
  }

  function Pow2(k: nat): (p: nat)
    ensures p > 0
  {
    if k == 0 then 1 else 2 * Pow2(k - 1)
  }

  const WORDS: nat := 0x1_0000_0000_0000_0000

  /** Bitwise negation of a 64-bit word. */
  function Not(x: nat): nat
    requires x < WORDS
  {
    WORDS - 1 - x
  }

  function AlignUp(n: nat, sector: nat): nat
    requires 0 < sector <= WORDS
  {
    And(n + sector - 1, Not(sector - 1))
  }

  /** A word whose low `k` digits are clear and whose other `w - k` digits are set keeps exactly
      the multiple of `Pow2(k)` below its partner. */
  lemma {:induction false} MaskClearsLowBits(x: nat, w: nat, k: nat)
    requires k <= w && x < Pow2(w)
    ensures Pow2(k) <= Pow2(w)
    ensures And(x, Pow2(w) - Pow2(k)) == x / Pow2(k) * Pow2(k)
    decreases w
  {
    if k > 0 {
      MaskClearsLowBits(x / 2, w - 1, k - 1);
      MaskDoubled(x, Pow2(k - 1), Pow2(w - 1) - Pow2(k - 1));
    } else if w > 0 {
      MaskClearsLowBits(x / 2, w - 1, 0);
      AndOdd(x, Pow2(w - 1) - 1);
    }
  }

  /** One more clear digit at the end of the mask. */
  lemma MaskDoubled(x: nat, low: nat, mask: nat)
    requires low > 0 && And(x / 2, mask) == x / 2 / low * low
    ensures And(x, 2 * mask) == x / (2 * low) * (2 * low)
  {
    AndDoubled(x, mask);
    DoubledMultiple(x, low);
  }

  lemma DoubledMultiple(x: nat, d: nat)
    requires d > 0
    ensures x / (2 * d) * (2 * d) == 2 * (x / 2 / d * d)
  {
    HalfThenDivide(x, d);
    var q := x / 2 / d;
    assert q * (2 * d) == 2 * (q * d);
  }

  lemma AndOdd(x: nat, m: nat)
    ensures And(x, 2 * m + 1) == x % 2 + 2 * And(x / 2, m)
  {
    assert (2 * m + 1) % 2 == 1 && (2 * m + 1) / 2 == m;
  }

  lemma AndDoubled(x: nat, m: nat)
    ensures And(x, 2 * m) == 2 * And(x / 2, m)
  {
    assert (2 * m) % 2 == 0 && (2 * m) / 2 == m;
  }

  lemma HalfThenDivide(x: nat, d: nat)
    requires d > 0
    ensures x / (2 * d) == x / 2 / d
  {
    var h, q, r := x / 2, x / 2 / d, (x / 2) % d;
    assert h == q * d + r && 0 <= r < d;
    var rest := 2 * r + x % 2;
    assert x == q * (2 * d) + rest && 0 <= rest < 2 * d;
    DivisionIsUnique(x, 2 * d, q, rest);
  }

  lemma DivisionIsUnique(x: nat, d: nat, q: int, r: int)
    requires d > 0 && 0 <= r < d && x == q * d + r
    ensures x / d == q
  {
    var q', r' := x / d, x % d;
    assert x == q' * d + r';
    QuotientIsUnique(d, q, r, q', r');
  }

  lemma MaskRounds(n: nat, k: nat, w: nat, words: nat, sector: nat)
    requires k <= w && Pow2(w) == words && Pow2(k) == sector && n + sector - 1 < words
    ensures sector <= words
    ensures And(n + sector - 1, words - sector) == RoundUp(n, sector)
  {
    MaskClearsLowBits(n + sector - 1, w, k);
  }

  /** The mask expression of the writers rounds up to the sector, for every power of two. */
  lemma MaskRoundsUp(n: nat, k: nat, sector: nat)
    requires k <= 64 && Pow2(k) == sector && n + sector - 1 < WORDS
    ensures sector <= WORDS
    ensures AlignUp(n, sector) == RoundUp(n, sector)
  {
    PowersInUse();
    MaskRounds(n, k, 64, WORDS, sector);
  }

  /** What the copy loops need of a sector size: it divides the chunk, so that only the last chunk
      is ever padded, and the mask expression rounds up to it. A sector of one byte stands for
      unpadded writes. */
  ghost predicate SuitsChunk(sector: nat, chunk: nat) {
    && 0 < sector <= WORDS
    && chunk % sector == 0
    && (sector == 1 ==> forall n: nat :: RoundUp(n, sector) == n)
    && forall n: nat {:trigger AlignUp(n, sector)} :: n <= chunk ==> AlignUp(n, sector) == RoundUp(n, sector) <= chunk
  }

  lemma SectorsInUse(chunk: nat, sector: nat)
    requires chunk == 0x40_0000 && (sector == 1 || sector == 512 || sector == 4096)
    ensures SuitsChunk(sector, chunk)
  {
    PowersInUse();
    forall n: nat | n <= chunk ensures AlignUp(n, sector) == RoundUp(n, sector) <= chunk {
      MaskRoundsUp(n, if sector == 1 then 0 else if sector == 512 then 9 else 12, sector);
      RoundUpGrows(n, chunk, sector);
      RoundUpFrom(chunk, 0, sector);
    }
  }

  lemma PowersInUse()
    ensures Pow2(0) == 1 && Pow2(9) == 512 && Pow2(12) == 4096 && Pow2(64) == WORDS
  {
    assert Pow2(4) == 16;
    PowAdds(4, 4);
    PowAdds(8, 1);
    PowAdds(8, 4);
    PowAdds(8, 8);
    PowAdds(16, 16);
    PowAdds(32, 32);
  }

  lemma {:induction false} PowAdds(a: nat, b: nat)
    ensures Pow2(a + b) == Pow2(a) * Pow2(b)
  {
    if b > 0 {
      PowAdds(a, b - 1);
    }
  }
}
