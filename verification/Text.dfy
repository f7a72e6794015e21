/**
 The string operations that the progress poller, the cache and the disk list rely on:
 trimming, prefixes, decimal numbers, lines and words.
 */
module Text {
  import opened Wrappers

  /** The code points with the Unicode property White_Space. */
  predicate IsWhitespace(c: char) {
    '\U{0009}' <= c <= '\U{000D}' || c == ' ' || c == '\U{0085}' || c == '\U{00A0}' || c == '\U{1680}' ||
    '\U{2000}' <= c <= '\U{200A}' || c == '\U{2028}' || c == '\U{2029}' || c == '\U{202F}' ||
    c == '\U{205F}' || c == '\U{3000}'
  }

  /** The first position from `i` on that is not whitespace. */
  function InkFrom(s: string, i: nat): (r: nat)
    requires i <= |s|
    ensures i <= r <= |s| && (r < |s| ==> !IsWhitespace(s[r]))
    decreases |s| - i
  {
    if i < |s| && IsWhitespace(s[i]) then InkFrom(s, i + 1) else i
  }

  /** The last position up to `j` behind something that is not whitespace. */
  function InkTo(s: string, from: nat, j: nat): (r: nat)
    requires from <= j <= |s|
    ensures from <= r <= j && (r > from ==> !IsWhitespace(s[r - 1]))
    decreases j
  {
    if j > from && IsWhitespace(s[j - 1]) then InkTo(s, from, j - 1) else j
  }

  function Trim(s: string): string {
    s[InkFrom(s, 0)..InkTo(s, InkFrom(s, 0), |s|)]
  }

  /** Trimming removes the line feed of `echo` and nothing of a text that has no outer whitespace. */
  lemma TrimOfLine(s: string, tail: string)
    requires s != [] && !IsWhitespace(s[0]) && !IsWhitespace(s[|s| - 1])
    requires tail == "" || tail == "\n"
    ensures Trim(s + tail) == s
  {
    var t := s + tail;
    assert t[0] == s[0] && t[|s| - 1] == s[|s| - 1];
    assert InkFrom(t, 0) == 0;
    assert InkTo(t, 0, |s|) == |s|;
    assert tail == "\n" ==> t[|s|] == '\n';
    assert InkTo(t, 0, |t|) == |s|;
    assert t[0..|s|] == s;
  }

  predicate IsSpace(s: string) {
    forall i :: 0 <= i < |s| ==> IsWhitespace(s[i])
  }

  lemma {:induction false} InkBehind(s: string, i: nat, j: nat)
    requires i <= j <= |s| && (forall x :: i <= x < j ==> IsWhitespace(s[x])) && (j < |s| ==> !IsWhitespace(s[j]))
    ensures InkFrom(s, i) == j
    decreases j - i
  {
    if i < j {
      InkBehind(s, i + 1, j);
    }
  }

  lemma {:induction false} InkBefore(s: string, from: nat, i: nat, j: nat)
    requires from <= i <= j <= |s| && (forall x :: i <= x < j ==> IsWhitespace(s[x]))
    requires i > from ==> !IsWhitespace(s[i - 1])
    ensures InkTo(s, from, j) == i
    decreases j - i
  {
    if i < j {
      InkBefore(s, from, i, j - 1);
    }
  }

  /** Trimming takes all whitespace from both ends, and nothing else. */
  lemma TrimIs(a: string, t: string, b: string)
    requires IsSpace(a) && IsSpace(b) && t != [] && !IsWhitespace(t[0]) && !IsWhitespace(t[|t| - 1])
    ensures Trim(a + t + b) == t
  {
    var s := a + t + b;
    forall x | 0 <= x < |a| ensures IsWhitespace(s[x]) {
      assert s[x] == a[x];
    }
    forall x | |a| + |t| <= x < |s| ensures IsWhitespace(s[x]) {
      assert s[x] == b[x - |a| - |t|];
    }
    assert s[|a|] == t[0] && s[|a| + |t| - 1] == t[|t| - 1];
    InkBehind(s, 0, |a|);
    InkBefore(s, |a|, |a| + |t|, |s|);
    assert s[|a|..|a| + |t|] == t;
  }

  lemma TrimShrinks(s: string)
    ensures |Trim(s)| <= |s|
  {
  }

  lemma TrimOfWord(s: string)
    requires s == [] || (!IsWhitespace(s[0]) && !IsWhitespace(s[|s| - 1]))
    ensures Trim(s) == s
  {
    if s != [] {
      assert s + "" == s;
      TrimOfLine(s, "");
    }
  }

  predicate StartsWith(s: string, prefix: string) {
    prefix <= s
  }

  /** `trim_start_matches`: removes the prefix as often as it occurs. */
  function TrimStartMatches(s: string, prefix: string): string
    requires prefix != ""
  {
    if StartsWith(s, prefix) then TrimStartMatches(s[|prefix|..], prefix) else s
  }

  predicate IsDigit(c: char) {
    '0' <= c <= '9'
  }

  predicate AllDigits(s: string) {
    forall i :: 0 <= i < |s| ==> IsDigit(s[i])
  }

  function DigitOf(d: nat): (c: char)
    requires d < 10
    ensures IsDigit(c) && c as int - '0' as int == d
  {
    '0' + d as char
  }

  /** The decimal notation of a number, as `to_string` prints it. */
  function Decimal(n: nat): (s: string)
    ensures s != [] && AllDigits(s)
  {
    if n < 10 then [DigitOf(n)] else Decimal(n / 10) + [DigitOf(n % 10)]
  }

  function DigitsValue(s: string): nat
    requires AllDigits(s)
  {
    if s == [] then 0
    else 10 * DigitsValue(s[..|s| - 1]) + (s[|s| - 1] as int - '0' as int)
  }

  lemma {:induction false} DecimalReadsBack(n: nat)
    ensures DigitsValue(Decimal(n)) == n
  {
    if n >= 10 {
      DecimalReadsBack(n / 10);
      var s := Decimal(n);
      assert s[..|s| - 1] == Decimal(n / 10);
    } else {
      assert Decimal(n)[..0] == [];
    }
  }

  /** Unsigned integer parsing: an optional plus sign, at least one digit, and no overflow. */
  function ParseUnsigned(s: string, max: nat): Option<nat> {
    var digits := if s != [] && s[0] == '+' then s[1..] else s;
    if digits != [] && AllDigits(digits) && DigitsValue(digits) <= max
    then Some(DigitsValue(digits)) else None
  }

  const U64_MAX: nat := 0xFFFF_FFFF_FFFF_FFFF
  const U32_MAX: nat := 0xFFFF_FFFF

  /** A number is read exactly if it fits, with or without a plus sign. */
  lemma DecimalParses(n: nat, max: nat)
    ensures ParseUnsigned(Decimal(n), max) == (if n <= max then Some(n) else None)
    ensures ParseUnsigned("+" + Decimal(n), max) == ParseUnsigned(Decimal(n), max)
  {
    assert ("+" + Decimal(n))[1..] == Decimal(n);
    DecimalReadsBack(n);
    assert IsDigit(Decimal(n)[0]);
  }

  /** Nothing else is. */
  lemma OnlyDigitsParse(s: string, max: nat)
    requires s == "" || s == "+" || exists i :: 0 <= i < |s| && !IsDigit(s[i]) && (i == 0 ==> s[0] != '+')
    ensures ParseUnsigned(s, max) == None
  {
    var digits := if s != [] && s[0] == '+' then s[1..] else s;
    if i :| 0 <= i < |s| && !IsDigit(s[i]) && (i == 0 ==> s[0] != '+') {
      assert !IsDigit(digits[if s[0] == '+' then i - 1 else i]);
    }
  }

  predicate OccursAt(s: string, part: string, i: nat)
    requires i + |part| <= |s|
  {
    s[i..i + |part|] == part
  }

  predicate Contains(s: string, part: string) {
    exists i :: 0 <= i <= |s| - |part| && OccursAt(s, part, i)
  }

  /** The last position of `c`, if it occurs. */
  function LastIndexOf(s: string, c: char): (r: Option<nat>)
    ensures r.Some? ==> r.value < |s| && s[r.value] == c && forall i :: r.value < i < |s| ==> s[i] != c
    ensures r.None? ==> c !in s
  {
    if s == [] then None
    else if s[|s| - 1] == c then Some(|s| - 1)
    else LastIndexOf(s[..|s| - 1], c)
  }

  /** The first position of `c`, or the length when there is none. */
  function IndexOrEnd(s: string, c: char): (r: nat)
    ensures r <= |s| && (r < |s| ==> s[r] == c) && forall i :: 0 <= i < r ==> s[i] != c
  {
    if s == [] || s[0] == c then 0 else 1 + IndexOrEnd(s[1..], c)
  }

  /** Lines end at a line feed, with an optional carriage return before it. */
  function Lines(s: string): seq<string>
    decreases |s|
  {
    if s == [] then []
    else
      var end := IndexOrEnd(s, '\n');
      if end == |s| then [s]
      else
        [WithoutCr(s[..end])] + Lines(s[end + 1..])
  }

  function WithoutCr(line: string): string {
    if line != [] && line[|line| - 1] == '\r' then line[..|line| - 1] else line
  }

  /** A line feed ends a line. */
  lemma LineInFront(line: string, after: string)
    requires '\n' !in line
    ensures Lines(line + "\n" + after) == [WithoutCr(line)] + Lines(after)
  {
    var s := line + "\n" + after;
    assert s[|line|] == '\n';
    assert forall i :: 0 <= i < |line| ==> s[i] == line[i];
    assert IndexOrEnd(s, '\n') == |line|;
    assert s[..|line|] == line && s[|line| + 1..] == after;
  }

  predicate EndsLine(s: string) {
    s == "" || s[|s| - 1] == '\n'
  }

  lemma SplitLine(s: string) returns (line: string, others: string)
    requires s != "" && EndsLine(s)
    ensures s == line + "\n" + others && '\n' !in line && EndsLine(others)
  {
    var end := IndexOrEnd(s, '\n');
    line, others := s[..end], s[end + 1..];
  }

  lemma Regrouped(a: string, b: string, c: string, d: string)
    ensures a + b + c + d == a + b + (c + d) == a + (b + (c + d)) == a + (b + c) + d == a + (b + c + d)
  {
  }

  lemma ListRegrouped(a: seq<string>, b: seq<string>, c: seq<string>)
    ensures a + (b + c) == a + b + c
  {
  }

  lemma LineJoins(line: string, others: string, rest: string)
    requires '\n' !in line && Lines(others + rest) == Lines(others) + Lines(rest)
    ensures Lines(line + "\n" + others + rest) == Lines(line + "\n" + others) + Lines(rest)
  {
    Regrouped(line, "\n", others, rest);
    LineInFront(line, others);
    LineInFront(line, others + rest);
    ListRegrouped([WithoutCr(line)], Lines(others), Lines(rest));
  }

  /** Whole lines in front of a text are read first. */
  lemma {:induction false} LinesJoin(before: string, rest: string)
    requires EndsLine(before)
    ensures Lines(before + rest) == Lines(before) + Lines(rest)
    decreases |before|
  {
    if before == "" {
      assert before + rest == rest;
    } else {
      var line, others := SplitLine(before);
      LinesJoin(others, rest);
      LineJoins(line, others, rest);
    }
  }

  /** Every line of a text is among its lines. */
  lemma LineAmong(before: string, line: string, after: string)
    requires EndsLine(before) && '\n' !in line
    ensures WithoutCr(line) in Lines(before + line + "\n" + after)
  {
    Regrouped(before, line, "\n", after);
    LinesJoin(before, line + "\n" + after);
    LineInFront(line, after);
    var own := [WithoutCr(line)] + Lines(after);
    assert own[0] in own;
    InSecond(Lines(before), own, own[0]);
  }

  lemma InSecond(a: seq<string>, b: seq<string>, x: string)
    requires x in b
    ensures x in a + b
  {
  }

  function JoinLines(lines: seq<string>): string {
    if lines == [] then "" else lines[0] + "\n" + JoinLines(lines[1..])
  }

  predicate IsLine(line: string) {
    '\n' !in line && (line != [] ==> line[|line| - 1] != '\r')
  }

  /** Lines with a line feed behind each are read back. */
  lemma {:induction false} LinesReadBack(lines: seq<string>)
    requires forall l :: l in lines ==> IsLine(l)
    ensures Lines(JoinLines(lines)) == lines
  {
    if lines != [] {
      assert IsLine(lines[0]);
      LineInFront(lines[0], JoinLines(lines[1..]));
      LinesReadBack(lines[1..]);
    }
  }

  /** So is a last line without one. */
  lemma LastLineReadsBack(line: string)
    requires line != [] && '\n' !in line
    ensures Lines(line) == [line]
  {
    assert IndexOrEnd(line, '\n') == |line|;
  }

  function WordEnd(s: string): (r: nat)
    ensures r <= |s| && (r < |s| ==> IsWhitespace(s[r])) && forall i :: 0 <= i < r ==> !IsWhitespace(s[i])
  {
    if s == [] || IsWhitespace(s[0]) then 0 else 1 + WordEnd(s[1..])
  }

  function Words(s: string): seq<string>
    decreases |s|
  {
    var t := s[InkFrom(s, 0)..];
    if t == [] then [] else [t[..WordEnd(t)]] + Words(t[WordEnd(t)..])
  }

  predicate IsWord(w: string) {
    w != [] && forall i :: 0 <= i < |w| ==> !IsWhitespace(w[i])
  }

  lemma WordInFront(w: string, rest: string)
    requires IsWord(w) && (rest != [] ==> IsWhitespace(rest[0]))
    ensures Words(w + rest) == [w] + Words(rest)
  {
    var s := w + rest;
    assert forall i :: 0 <= i < |w| ==> s[i] == w[i];
    assert rest != [] ==> s[|w|] == rest[0];
    assert InkFrom(s, 0) == 0 && s[0..] == s;
    assert WordEnd(s) == |w|;
    assert s[..|w|] == w && s[|w|..] == rest;
  }

  lemma {:induction false} InkShifts(c: char, rest: string, i: nat)
    requires i <= |rest|
    ensures InkFrom([c] + rest, i + 1) == InkFrom(rest, i) + 1
    decreases |rest| - i
  {
    var s := [c] + rest;
    if i < |rest| {
      assert s[i + 1] == rest[i];
      if IsWhitespace(rest[i]) {
        InkShifts(c, rest, i + 1);
      }
    }
  }

  lemma SpaceInFront(c: char, rest: string)
    requires IsWhitespace(c)
    ensures Words([c] + rest) == Words(rest)
  {
    var s := [c] + rest;
    InkShifts(c, rest, 0);
    assert InkFrom(s, 0) == InkFrom(s, 1);
    assert s[InkFrom(s, 0)..] == rest[InkFrom(rest, 0)..];
  }

  function JoinWords(words: seq<string>): string {
    if words == [] then "" else if |words| == 1 then words[0] else words[0] + " " + JoinWords(words[1..])
  }

  /** Words with single spaces between them are read back. */
  lemma {:induction false} WordsReadBack(words: seq<string>)
    requires forall w :: w in words ==> IsWord(w)
    ensures Words(JoinWords(words)) == words
  {
    if |words| == 1 {
      OneWord(words[0]);
    } else if words != [] {
      var rest := JoinWords(words[1..]);
      WordsReadBack(words[1..]);
      assert IsWord(words[0]);
      WordAndMore(words[0], rest);
    }
  }

  lemma OneWord(w: string)
    requires IsWord(w)
    ensures Words(w) == [w]
  {
    WordInFront(w, "");
    assert w + "" == w;
  }

  lemma WordAndMore(w: string, rest: string)
    requires IsWord(w)
    ensures Words(w + " " + rest) == [w] + Words(rest)
  {
    SpaceInFront(' ', rest);
    WordInFront(w, " " + rest);
    assert w + " " + rest == w + (" " + rest);
  }
}
