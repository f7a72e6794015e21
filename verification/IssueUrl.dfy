/**
 The prefilled issue URL (src/main.js): keep the end of the log, trimming from its start until the
 whole URL fits. Strings are sequences of UTF-16 code units, as in the language of the source.
 */
module IssueUrl {
  import opened Wrappers
  import opened Percent

  // ----- The URL -----

  const LIMIT: nat := 6000
  const NEWLINE: CodeUnit := 0x0A

  const ISSUES_URL := "https://github.com/" + "archr-linux/archr-flasher" + "/issues/new"

  datatype Report = Report(firstLine: Str, appVersion: Str, osName: Str)

  function IndexOf(s: Str, c: CodeUnit, from: nat): (r: int)
    ensures r == -1 || (from <= r < |s| && s[r] == c)
    ensures forall i :: from <= i < (if r == -1 then |s| else r) ==> s[i] != c
    decreases |s| - from
  {
    if from >= |s| then -1 else if s[from] == c then from else IndexOf(s, c, from + 1)
  }

  function Take(s: Str, n: nat): Str {
    if |s| <= n then s else s[..n]
  }

  /** The first line of the message, or a stand-in. */
  function WholeFirstLine(rawMsg: Str): (r: Str)
    ensures r != []
    ensures if rawMsg == [] || rawMsg[0] == 0x0A then r == U("flash error")
            else r <= rawMsg && 0x0A !in r && (|r| < |rawMsg| ==> rawMsg[|r|] == 0x0A)
  {
    var end := IndexOf(rawMsg, NEWLINE, 0);
    var line := if end == -1 then rawMsg else rawMsg[..end];
    if line == [] then U("flash error") else line
  }

  /** What the report takes of it: 120 code units. */
  function FirstLine(rawMsg: Str): (r: Str)
    ensures |r| <= 120 && r <= WholeFirstLine(rawMsg)
    ensures |r| < |WholeFirstLine(rawMsg)| ==> |r| == 120
  {
    Take(WholeFirstLine(rawMsg), 120)
  }

  function Title(p: Report): Str {
    U("[flash-error] ") + p.firstLine + U(" (v") + p.appVersion + U(", ") + p.osName + U(")")
  }

  function Head(p: Report): Str {
    U("**Error:** `") + p.firstLine + BelowFirstLine(p)
  }

  function BelowFirstLine(p: Report): Str {
    U("`\n**Version:** ") + p.appVersion + U("\n**OS:** ") + p.osName
    + U("\n\n<!-- Please describe what you were doing. -->\n\n**Flash log")
  }

  function Note(truncated: bool): Str {
    if truncated then U(" (older lines trimmed to fit)") else []
  }

  function Fence(): Str {
    U(":**\n```\n")
  }

  function Foot(): Str {
    U("\n```\n")
  }

  function Body(p: Report, log: Str, truncated: bool): Str {
    Head(p) + Note(truncated) + Fence() + log + Foot()
  }

  /** `urlFor(bodyFor(log, truncated))`, or None where encoding throws. */
  function Url(p: Report, log: Str, truncated: bool): Option<Str> {
    match (Encode(Title(p)), Encode(Body(p, log, truncated)))
    case (Some(title), Some(body)) => Some(U(ISSUES_URL) + U("?title=") + title + U("&body=") + body)
    case _ => None
  }

  // ----- Reading it -----

  datatype Link = Link(page: Str, title: Str, body: Str)

  /** What the server reads: the page up to the first `?`, and behind it the two fields, in this order,
      parted by the only `&`. */
  function ReadUrl(url: Str): Option<Link> {
    var q := IndexOf(url, 0x3F, 0);
    var amp := if q == -1 then -1 else IndexOf(url, 0x26, q);
    if amp == -1 || IndexOf(url, 0x26, amp + 1) != -1 then None
    else
      match (ReadField(url[q + 1..amp], U("title=")), ReadField(url[amp + 1..], U("body=")))
      case (Some(title), Some(body)) => Some(Link(url[..q], title, body))
      case _ => None
  }

  /** The value of a field of this name. */
  function ReadField(field: Str, name: Str): Option<Str> {
    if name <= field then Decode(field[|name|..]) else None
  }

  lemma PageIsPlain()
    ensures 0x3F !in U(ISSUES_URL)
  {
    assert '?' !in "https://github.com/" && '?' !in "archr-linux/archr-flasher" && '?' !in "/issues/new";
    assert '?' !in ISSUES_URL;
    forall i | 0 <= i < |ISSUES_URL| ensures U(ISSUES_URL)[i] != 0x3F {
      assert ISSUES_URL[i] in ISSUES_URL;
    }
  }

  lemma IndexIs(s: Str, c: CodeUnit, from: nat, at: nat)
    requires from <= at < |s| && s[at] == c && forall i :: from <= i < at ==> s[i] != c
    ensures IndexOf(s, c, from) == at
  {
  }

  /** A URL of the right shape reads as its parts. */
  lemma FieldsReadBack(page: Str, title: Str, body: Str)
    requires 0x3F !in page && WellFormed(title) && WellFormed(body)
    ensures ReadUrl(page + U("?title=") + Encode(title).value + U("&body=") + Encode(body).value)
         == Some(Link(page, title, body))
  {
    var t, b := Encode(title).value, Encode(body).value;
    var url := page + U("?title=") + t + U("&body=") + b;
    var q, amp := |page|, |page| + 7 + |t|;
    EncodedIsHarmless(title);
    EncodedIsHarmless(body);
    FieldsLieThere(page, t, b, url);
    OnlyAmpersand(page, t, b, url);
    MarksAreFound(url, q, amp);
    FieldReadsBack(url[q + 1..amp], U("title="), title);
    FieldReadsBack(url[amp + 1..], U("body="), body);
    ReadAt(url, q, amp, title, body);
  }

  lemma MarksAreFound(url: Str, q: nat, amp: nat)
    requires q < amp < |url| && url[q] == 0x3F && url[amp] == 0x26 && 0x3F !in url[..q]
    requires (forall i :: q <= i < amp ==> url[i] != 0x26) && (forall i :: amp < i < |url| ==> url[i] != 0x26)
    ensures IndexOf(url, 0x3F, 0) == q && IndexOf(url, 0x26, q) == amp && IndexOf(url, 0x26, amp + 1) == -1
  {
    forall i | 0 <= i < q ensures url[i] != 0x3F {
      assert url[i] == url[..q][i];
    }
    IndexIs(url, 0x3F, 0, q);
    IndexIs(url, 0x26, q, amp);
  }

  lemma ReadAt(url: Str, q: nat, amp: nat, title: Str, body: Str)
    requires IndexOf(url, 0x3F, 0) == q && IndexOf(url, 0x26, q) == amp && IndexOf(url, 0x26, amp + 1) == -1
    requires q < amp < |url|
    requires ReadField(url[q + 1..amp], U("title=")) == Some(title) && ReadField(url[amp + 1..], U("body=")) == Some(body)
    ensures ReadUrl(url) == Some(Link(url[..q], title, body))
  {
  }

  lemma FieldReadsBack(field: Str, name: Str, value: Str)
    requires WellFormed(value) && field == name + Encode(value).value
    ensures ReadField(field, name) == Some(value)
  {
    EncodeReadsBack(value);
    assert field[|name|..] == Encode(value).value;
  }

  lemma FieldsLieThere(page: Str, t: Str, b: Str, url: Str)
    requires url == page + U("?title=") + t + U("&body=") + b
    ensures var q, amp := |page|, |page| + 7 + |t|;
            && |url| == amp + 6 + |b|
            && url[..q] == page && url[q] == 0x3F && url[amp] == 0x26
            && url[q + 1..amp] == U("title=") + t && url[amp + 1..] == U("body=") + b
  {
    var q, amp := |page|, |page| + 7 + |t|;
    assert "?title="[0] == '?' && "&body="[0] == '&';
    assert url[q..q + 7] == U("?title=") && url[amp..amp + 6] == U("&body=");
    assert url[q] == U("?title=")[0] && url[amp] == U("&body=")[0];
    assert url[q + 1..amp] == U("?title=")[1..] + t && U("?title=")[1..] == U("title=");
    assert url[amp + 1..] == U("&body=")[1..] + b && U("&body=")[1..] == U("body=");
  }

  lemma OnlyAmpersand(page: Str, t: Str, b: Str, url: Str)
    requires url == page + U("?title=") + t + U("&body=") + b
    requires forall c :: c in t || c in b ==> Harmless(c)
    ensures var q, amp := |page|, |page| + 7 + |t|;
            && (forall i :: q <= i < amp ==> url[i] != 0x26) && (forall i :: amp < i < |url| ==> url[i] != 0x26)
  {
    var q, amp := |page|, |page| + 7 + |t|;
    forall i | q <= i < amp ensures url[i] != 0x26 {
      if i < q + 7 {
        assert url[i] == U("?title=")[i - q] && "?title="[i - q] != '&';
      } else {
        assert url[i] == t[i - q - 7] && t[i - q - 7] in t;
      }
    }
    forall i | amp < i < |url| ensures url[i] != 0x26 {
      if i < amp + 6 {
        assert url[i] == U("&body=")[i - amp] && "&body="[i - amp] != '&';
      } else {
        assert url[i] == b[i - amp - 6] && b[i - amp - 6] in b;
      }
    }
  }

  lemma UrlReadsBack(p: Report, log: Str, truncated: bool)
    requires Url(p, log, truncated).Some?
    ensures ReadUrl(Url(p, log, truncated).value) == Some(Link(U(ISSUES_URL), Title(p), Body(p, log, truncated)))
  {
    PageIsPlain();
    FieldsReadBack(U(ISSUES_URL), Title(p), Body(p, log, truncated));
  }

  /** The report as it reads on the page: the title names the error, version and system, the text repeats
      them and has the kept log between the fences. */
  ghost predicate ReadsAs(url: Str, rawMsg: Str, appVersion: Str, osName: Str, kept: Str, truncated: bool) {
    ReadUrl(url) == Some(Link(
                           U("https://github.com/" + "archr-linux/archr-flasher" + "/issues/new"),
                           U("[flash-error] ") + FirstLine(rawMsg) + U(" (v") + appVersion + U(", ") + osName + U(")"),
                           U("**Error:** `") + FirstLine(rawMsg) + U("`\n**Version:** ") + appVersion + U("\n**OS:** ") + osName
                           + U("\n\n<!-- Please describe what you were doing. -->\n\n**Flash log")
                           + (if truncated then U(" (older lines trimmed to fit)") else [])
                           + U(":**\n```\n") + kept + U("\n```\n")))
  }

  lemma ReportReads(rawMsg: Str, appVersion: Str, osName: Str, kept: Str, truncated: bool)
    requires Url(MakeReport(rawMsg, appVersion, osName), kept, truncated).Some?
    ensures var url := Url(MakeReport(rawMsg, appVersion, osName), kept, truncated).value;
            ReadsAs(url, rawMsg, appVersion, osName, kept, truncated)
  {
    var p := MakeReport(rawMsg, appVersion, osName);
    UrlReadsBack(p, kept, truncated);
    BodyIs(p, kept, truncated);
  }

  lemma BodyIs(p: Report, kept: Str, truncated: bool)
    ensures Body(p, kept, truncated) ==
            U("**Error:** `") + p.firstLine + U("`\n**Version:** ") + p.appVersion + U("\n**OS:** ") + p.osName
            + U("\n\n<!-- Please describe what you were doing. -->\n\n**Flash log")
            + (if truncated then U(" (older lines trimmed to fit)") else [])
            + U(":**\n```\n") + kept + U("\n```\n")
  {
    var a, b := U("**Error:** `") + p.firstLine, BelowFirstLine(p);
    assert a + b == a + U("`\n**Version:** ") + p.appVersion + U("\n**OS:** ") + p.osName
                    + U("\n\n<!-- Please describe what you were doing. -->\n\n**Flash log");
  }

  /** The parts that do not depend on the log encode without an exception. */
  predicate Encodable(p: Report) {
    WellFormed(Title(p)) && WellFormed(Head(p))
  }

  function Opening(p: Report, truncated: bool): Str {
    Head(p) + Note(truncated) + Fence()
  }

  lemma OpeningEncodes(p: Report, truncated: bool)
    ensures WellFormed(Opening(p, truncated)) <==> WellFormed(Head(p))
    ensures WellFormed(Note(truncated) + Fence())
    ensures WellFormed(Head(p)) ==>
              |Encode(Opening(p, truncated)).value| ==
              |Encode(Head(p)).value| + |Encode(Note(truncated) + Fence()).value|
  {
    var rest := Note(truncated) + Fence();
    assert Opening(p, truncated) == Head(p) + rest;
    PlainIsWellFormed(rest);
    JoinWellFormed(Head(p), rest);
    if WellFormed(Head(p)) {
      EncodeJoins(Head(p), rest);
    }
  }

  /** The length of the URL but for the log. */
  function Fixed(p: Report, truncated: bool): nat
    requires Encodable(p)
  {
    OpeningEncodes(p, truncated);
    PlainIsWellFormed(Foot());
    |ISSUES_URL| + 13 + |Encode(Title(p)).value| + |Encode(Opening(p, truncated)).value| + |Encode(Foot()).value|
  }

  /** Whether there is a URL, and how long it is, in terms of the log alone. */
  lemma UrlShape(p: Report, log: Str, truncated: bool)
    ensures Url(p, log, truncated).Some? <==> Encodable(p) && WellFormed(log)
    ensures Encodable(p) && WellFormed(log) ==>
              |Url(p, log, truncated).value| == Fixed(p, truncated) + |Encode(log).value|
  {
    OpeningEncodes(p, truncated);
    if WellFormed(Head(p)) {
      SoundHead(p, log, truncated);
    } else {
      BrokenHead(p, log, truncated);
    }
  }

  lemma SoundHead(p: Report, log: Str, truncated: bool)
    requires WellFormed(Opening(p, truncated))
    ensures WellFormed(Foot()) && (WellFormed(Body(p, log, truncated)) <==> WellFormed(log))
    ensures WellFormed(log) ==>
              |Encode(Body(p, log, truncated)).value| ==
              |Encode(Opening(p, truncated)).value| + |Encode(log).value| + |Encode(Foot()).value|
  {
    var opening, foot := Opening(p, truncated), Foot();
    PlainIsWellFormed(foot);
    assert Body(p, log, truncated) == opening + log + foot;
    JoinWellFormed(opening + log, foot);
    EncodeJoins(opening, log);
    if WellFormed(log) {
      EncodeJoins(opening + log, foot);
    }
  }

  /** A broken head is not mended by what follows it. */
  lemma BrokenHead(p: Report, log: Str, truncated: bool)
    requires !WellFormed(Head(p))
    ensures !WellFormed(Body(p, log, truncated))
  {
    var rest := Note(truncated) + Fence() + log + Foot();
    assert Body(p, log, truncated) == Head(p) + rest;
    assert rest[0] == (Note(truncated) + Fence())[0];
    IllFormedStays(Head(p), rest);
  }

  /** Announcing the trimming makes the URL longer. */
  lemma NoteLengthens(p: Report)
    requires Encodable(p)
    ensures Fixed(p, false) <= Fixed(p, true)
  {
    OpeningEncodes(p, false);
    OpeningEncodes(p, true);
    PlainIsWellFormed(Note(true));
    PlainIsWellFormed(Fence());
    EncodeJoins(Note(true), Fence());
    assert Note(false) + Fence() == Fence();
  }

  // ----- The trimming loop -----

  predicate Fits(url: Option<Str>) {
    url.None? || |url.value| <= LIMIT
  }

  function Max(a: int, b: int): int {
    if a < b then b else a
  }

  /** Where the source starts looking for a line break. */
  function CutFrom(log: Str, urlLength: nat): int
    requires urlLength > 0
  {
    Max(200, |log| - |log| * 5000 / urlLength)
  }

  /** One round: cut behind a line break near the estimated place, or halve. */
  function Trimmed(log: Str, urlLength: nat): (r: Str)
    requires log != [] && urlLength > 0
    ensures r != [] && |r| <= |log| && r == log[|log| - |r|..]
    ensures |r| == |log| <==> |log| == 1
  {
    var cut := IndexOf(log, NEWLINE, CutFrom(log, urlLength));
    if cut > 0 && cut < |log| - 1 then log[cut + 1..] else log[|log| / 2..]
  }

  /** The search begins behind at least 200 code units, and where what is left would, at the rate of the
      whole URL, come to at most 5000; no earlier than that. */
  lemma CutFromIs(log: Str, urlLength: nat)
    requires urlLength > 0
    ensures var c := CutFrom(log, urlLength);
            && c >= 200 && (|log| - c) * urlLength <= |log| * 5000
            && (c > 200 ==> (|log| - (c - 1)) * urlLength > |log| * 5000)
  {
    var x, q := |log| * 5000, |log| * 5000 / urlLength;
    assert x == q * urlLength + x % urlLength;
    assert (q + 1) * urlLength == q * urlLength + urlLength;
    var left := |log| - CutFrom(log, urlLength);
    assert left <= q;
    assert left * urlLength <= q * urlLength by {
      assert (q - left) * urlLength >= 0;
    }
  }

  /** Without a line break there, but for one at the very end, the log is halved. */
  lemma OneLineIsHalved(log: Str, urlLength: nat)
    requires log != [] && urlLength > 0
    requires forall i :: CutFrom(log, urlLength) <= i < |log| - 1 ==> log[i] != NEWLINE
    ensures Trimmed(log, urlLength) == log[|log| / 2..]
  {
    var cut := IndexOf(log, NEWLINE, CutFrom(log, urlLength));
    assert cut == -1 || cut == |log| - 1;
  }

  /** With a line break in the estimated range, and something behind it, whole lines are kept: the
      tail begins behind the first such break. */
  lemma CutBehindLineBreak(log: Str, urlLength: nat, at: nat)
    requires log != [] && urlLength > 0 && CutFrom(log, urlLength) <= at < |log| - 1 && log[at] == NEWLINE
    requires NEWLINE !in log[CutFrom(log, urlLength)..at]
    ensures Trimmed(log, urlLength) == log[at + 1..]
  {
    var from := CutFrom(log, urlLength);
    forall i | from <= i < at ensures log[i] != NEWLINE {
      assert log[i] == log[from..at][i - from];
    }
    assert IndexOf(log, NEWLINE, from) == at;
  }

  function LastUnit(log: Str): Str
    requires log != []
  {
    log[|log| - 1..]
  }

  /** The URL fits as it is, or it would with a single code unit of the log. */
  predicate Terminates(p: Report, log: Str)
    requires log != []
  {
    Fits(Url(p, log, false)) || Fits(Url(p, LastUnit(log), true))
  }

  /** A non-empty tail. */
  predicate Tail(part: Str, whole: Str) {
    part != [] && |part| <= |whole| && part == whole[|whole| - |part|..]
  }

  function MakeReport(rawMsg: Str, appVersion: Str, osName: Str): Report {
    Report(FirstLine(rawMsg), appVersion, osName)
  }

  function LogOrNote(log: Str): (r: Str)
    ensures r != [] && (log != [] ==> r == log) && (log == [] ==> r == U("(log file empty)"))
  {
    if log == [] then U("(log file empty)") else log
  }

  datatype LoopState = LoopState(log: Str, truncated: bool)

  /** One round of the loop, if its guard holds. */
  function Next(p: Report, s: LoopState): (r: LoopState)
    requires s.log != []
    ensures r.log != []
  {
    match Url(p, s.log, s.truncated)
    case Some(url) => if |url| > LIMIT then LoopState(Trimmed(s.log, |url|), true) else s
    case None => s
  }

  /** The variables of the loop after `k` rounds; they no longer change once its guard fails. */
  function After(p: Report, whole: Str, k: nat): (s: LoopState)
    requires whole != []
    ensures s.log != []
  {
    if k == 0 then LoopState(whole, false) else Next(p, After(p, whole, k - 1))
  }

  lemma AfterOne(p: Report, whole: Str, k: nat)
    requires whole != [] && k > 0
    ensures After(p, whole, k) == Next(p, After(p, whole, k - 1))
  {
  }

  /** A round does nothing once the URL has at most 6000 code units or cannot be built, so that rounds
      beyond the last do not count; before that it trims. */
  lemma RoundSpelled(p: Report, s: LoopState)
    requires s.log != []
    ensures var url := Url(p, s.log, s.truncated);
            Next(p, s) == if url.Some? && |url.value| > 6000 then LoopState(Trimmed(s.log, |url.value|), true) else s
  {
  }

  lemma AfterTrimming(p: Report, whole: Str, k: nat, kept: Str, truncated: bool, url: Str)
    requires whole != [] && kept != [] && After(p, whole, k) == LoopState(kept, truncated)
    requires Url(p, kept, truncated) == Some(url) && |url| > LIMIT
    ensures After(p, whole, k + 1) == LoopState(Trimmed(kept, |url|), true)
  {
    AfterOne(p, whole, k + 1);
  }

  /** As long as the URL is too long, more than one code unit of the log is left. */
  lemma MoreToTrim(p: Report, whole: Str, kept: Str, truncated: bool)
    requires whole != [] && Terminates(p, whole) && !Fits(Url(p, whole, false))
    requires Tail(kept, whole) && (truncated <==> kept != whole)
    requires !Fits(Url(p, kept, truncated))
    ensures |kept| > 1
  {
    if |kept| == 1 && !truncated {
      UrlShape(p, kept, false);
      UrlShape(p, kept, true);
      NoteLengthens(p);
    }
  }

  lemma TailOfTail(a: Str, b: Str, c: Str)
    requires Tail(a, b) && Tail(b, c)
    ensures Tail(a, c)
  {
  }

  /** `buildIssueUrl`. `kept` is the part of the log in the URL, and `truncated` whether the URL says
      that it was trimmed. No URL means that the source throws a URIError. */
  method BuildIssueUrl(rawMsg: Str, log: Str, appVersion: Str, osName: Str)
    returns (r: Option<Str>, kept: Str, truncated: bool, ghost rounds: nat)
    requires Terminates(MakeReport(rawMsg, appVersion, osName), LogOrNote(log))
    ensures Stands(MakeReport(rawMsg, appVersion, osName), LogOrNote(log), kept, truncated, rounds)
    ensures r == Url(MakeReport(rawMsg, appVersion, osName), kept, truncated) && Fits(r)
    ensures r.Some? ==> |r.value| <= 6000 && ReadsAs(r.value, rawMsg, appVersion, osName, kept, truncated)
    ensures r.None? <==> !(Encodable(MakeReport(rawMsg, appVersion, osName)) && WellFormed(kept))
  {
    var p := MakeReport(rawMsg, appVersion, osName);
    r, kept, truncated, rounds := TrimToFit(p, LogOrNote(log));
    UrlShape(p, kept, truncated);
    if r.Some? {
      ReportReads(rawMsg, appVersion, osName, kept, truncated);
    }
  }

  /** Where the loop stands: `kept` is what `k` rounds have left of the log. */
  ghost predicate Stands(p: Report, whole: Str, kept: Str, truncated: bool, k: nat) {
    && whole != [] && Tail(kept, whole) && (truncated <==> kept != whole)
    && After(p, whole, k) == LoopState(kept, truncated)
    && (k > 0 ==> !Fits(Url(p, whole, false)))
  }

  /** The loop of `buildIssueUrl`. */
  method TrimToFit(p: Report, whole: Str) returns (r: Option<Str>, kept: Str, truncated: bool, ghost rounds: nat)
    requires whole != [] && Terminates(p, whole)
    ensures r == Url(p, kept, truncated) && Fits(r)
    ensures Stands(p, whole, kept, truncated, rounds)
  {
    kept, truncated, rounds := whole, false, 0;
    r := Url(p, kept, truncated);
    while r.Some? && |r.value| > LIMIT && |kept| > 0
      invariant Stands(p, whole, kept, truncated, rounds)
      invariant r == Url(p, kept, truncated)
      decreases |kept|
    {
      kept := Shorten(p, whole, r.value, kept, truncated, rounds);
      truncated, rounds := true, rounds + 1;
      r := Url(p, kept, truncated);
    }
  }

  /** The body of the loop: drop from the start. */
  method Shorten(p: Report, whole: Str, url: Str, kept: Str, truncated: bool, ghost k: nat) returns (shorter: Str)
    requires Stands(p, whole, kept, truncated, k) && Terminates(p, whole)
    requires Url(p, kept, truncated) == Some(url) && |url| > LIMIT
    ensures |shorter| < |kept| && Stands(p, whole, shorter, true, k + 1)
  {
    shorter := Trimmed(kept, |url|);
    NeverFittedBefore(p, whole, kept, truncated, k);
    MoreToTrim(p, whole, kept, truncated);
    TrimmedTail(whole, kept, |url|);
    AfterTrimming(p, whole, k, kept, truncated, url);
  }

  lemma TrimmedTail(whole: Str, kept: Str, urlLength: nat)
    requires Tail(kept, whole) && |kept| > 1 && urlLength > 0
    ensures var shorter := Trimmed(kept, urlLength);
            |shorter| < |kept| && shorter != whole && Tail(shorter, whole)
  {
    TailOfTail(Trimmed(kept, urlLength), kept, whole);
  }

  lemma NeverFittedBefore(p: Report, whole: Str, kept: Str, truncated: bool, k: nat)
    requires Stands(p, whole, kept, truncated, k) && !Fits(Url(p, kept, truncated))
    ensures !Fits(Url(p, whole, false))
  {
    if k == 0 {
      assert After(p, whole, 0) == LoopState(whole, false);
    }
  }

  /** With a version of up to 120 code units and one of the three system names the loop ends for every
      message and every log: what does not depend on the log, and one more code unit, always fit. */
  lemma BoundedVersionTerminates(rawMsg: Str, log: Str, appVersion: Str, osName: Str)
    requires |appVersion| <= 120 && |osName| <= 7
    ensures Terminates(MakeReport(rawMsg, appVersion, osName), LogOrNote(log))
  {
    var p := MakeReport(rawMsg, appVersion, osName);
    var last := LastUnit(LogOrNote(log));
    UrlShape(p, last, true);
    if Url(p, last, true).Some? {
      FixedIsBounded(p);
      EncodeGrowth(last);
    }
  }

  lemma FixedIsBounded(p: Report)
    requires Encodable(p) && |p.firstLine| <= 120 && |p.appVersion| <= 120 && |p.osName| <= 7
    ensures Fixed(p, true) + 9 <= LIMIT
  {
    OpeningEncodes(p, true);
    PlainIsWellFormed(Foot());
    EncodeGrowth(Title(p));
    EncodeGrowth(Opening(p, true));
    EncodeGrowth(Foot());
    assert |Title(p)| == 20 + |p.firstLine| + |p.appVersion| + |p.osName|;
    assert |Opening(p, true)| == 133 + |p.firstLine| + |p.appVersion| + |p.osName|;
  }

  lemma LongerLogLongerUrl(p: Report, log: Str)
    requires Encodable(p) && log != [] && NoSurrogates(log)
    ensures WellFormed(log) && WellFormed(LastUnit(log))
    ensures |Encode(LastUnit(log)).value| <= |Encode(log).value|
  {
    var front := log[..|log| - 1];
    assert log == front + LastUnit(log);
    PlainIsWellFormed(log);
    PlainIsWellFormed(front);
    PlainIsWellFormed(LastUnit(log));
    EncodeJoins(front, LastUnit(log));
  }

  /** Any tail gives a URL that is too long if the last code unit alone does. */
  lemma TailTooLong(p: Report, part: Str, whole: Str)
    requires whole != [] && NoSurrogates(whole) && Tail(part, whole)
    requires !Fits(Url(p, LastUnit(whole), true))
    ensures !Fits(Url(p, part, true))
  {
    LastOfTail(part, whole);
    UrlShape(p, LastUnit(whole), true);
    LongerLogLongerUrl(p, part);
    UrlShape(p, part, true);
  }

  /** The guard of the loop holds, on some tail of the log. */
  predicate GoesOn(p: Report, whole: Str, s: LoopState) {
    Tail(s.log, whole) && !Fits(Url(p, s.log, s.truncated))
  }

  lemma NextGoesOn(p: Report, whole: Str, s: LoopState)
    requires whole != [] && NoSurrogates(whole) && !Fits(Url(p, LastUnit(whole), true))
    requires s.log != [] && GoesOn(p, whole, s)
    ensures GoesOn(p, whole, Next(p, s))
  {
    var next := Trimmed(s.log, |Url(p, s.log, s.truncated).value|);
    TailOfTail(next, s.log, whole);
    TailTooLong(p, next, whole);
  }

  /** The condition is exact: on a log without surrogates, where it fails, the guard of the loop holds
      after any number of rounds. */
  lemma {:induction false} OtherwiseNeverEnds(p: Report, whole: Str, k: nat)
    requires whole != [] && NoSurrogates(whole) && !Terminates(p, whole)
    ensures GoesOn(p, whole, After(p, whole, k))
  {
    if k == 0 {
      StartGoesOn(p, whole);
    } else {
      var before := k - 1;
      OtherwiseNeverEnds(p, whole, before);
      AfterGoesOn(p, whole, before);
    }
  }

  lemma AfterGoesOn(p: Report, whole: Str, k: nat)
    requires whole != [] && NoSurrogates(whole) && !Terminates(p, whole)
    requires GoesOn(p, whole, After(p, whole, k))
    ensures GoesOn(p, whole, After(p, whole, k + 1))
  {
    NextGoesOn(p, whole, After(p, whole, k));
    AfterOne(p, whole, k + 1);
  }

  lemma StartGoesOn(p: Report, whole: Str)
    requires whole != [] && !Terminates(p, whole)
    ensures GoesOn(p, whole, After(p, whole, 0))
  {
    assert whole == whole[0..];
  }

  lemma LastOfTail(part: Str, whole: Str)
    requires Tail(part, whole)
    ensures LastUnit(part) == LastUnit(whole)
    ensures NoSurrogates(whole) ==> NoSurrogates(part)
  {
  }

  // ----- Exceptions -----

  lemma PlainReportEncodes(p: Report)
    requires NoSurrogates(p.firstLine) && NoSurrogates(p.appVersion) && NoSurrogates(p.osName)
    ensures Encodable(p)
  {
    PlainIsWellFormed(Title(p));
    PlainIsWellFormed(Head(p));
  }

  /** Without surrogates in any input there is always a URL. */
  lemma PlainInputsEncode(rawMsg: Str, log: Str, appVersion: Str, osName: Str, kept: Str, truncated: bool)
    requires NoSurrogates(rawMsg) && NoSurrogates(log) && NoSurrogates(appVersion) && NoSurrogates(osName)
    requires Tail(kept, LogOrNote(log))
    ensures Url(MakeReport(rawMsg, appVersion, osName), kept, truncated).Some?
  {
    var p := MakeReport(rawMsg, appVersion, osName);
    PlainReportEncodes(p);
    assert NoSurrogates(LogOrNote(log));
    PlainIsWellFormed(kept);
    UrlShape(p, kept, truncated);
  }

  /** On a well-formed log the exception comes exactly when a cut falls inside a surrogate pair. */
  lemma ThrowsWhenPairIsCut(p: Report, whole: Str, kept: Str, truncated: bool)
    requires Encodable(p) && WellFormed(whole) && Tail(kept, whole)
    ensures Url(p, kept, truncated).None? <==> IsLow(kept[0])
  {
    TailWellFormed(whole, |whole| - |kept|);
    UrlShape(p, kept, truncated);
  }

  /** `n` times the pair for U+1F600. */
  function Pairs(n: nat): (r: Str)
    ensures |r| == 2 * n
    ensures forall i :: 0 <= i < |r| ==> r[i] == if i % 2 == 0 then 0xD83D else 0xDE00
  {
    if n == 0 then [] else [0xD83D, 0xDE00] + Pairs(n - 1)
  }

  lemma {:induction false} PairsEncode(n: nat)
    ensures WellFormed(Pairs(n)) && |Encode(Pairs(n)).value| == 12 * n
  {
    if n > 0 {
      PairsEncode(n - 1);
      var s := Pairs(n);
      assert s[..2] == [0xD83D, 0xDE00] && s[2..] == Pairs(n - 1);
      assert |EncodeChar(s[..2])| == 12;
    }
  }

  /** A letter and `n` pairs: well-formed, on one line, and no shorter when encoded. */
  function Faces(n: nat): Str {
    [0x61] + Pairs(n)
  }

  lemma FacesEncode(n: nat)
    ensures WellFormed(Faces(n)) && |Encode(Faces(n)).value| > 12 * n
    ensures NEWLINE !in Faces(n)
  {
    PairsEncode(n);
    PlainIsWellFormed([0x61]);
    EncodeGrowth([0x61]);
    EncodeJoins([0x61], Pairs(n));
  }

  /** It does happen: a log of one letter and 500 pairs or more, an even number of them, all on one
      line, is well-formed and too long, and the first cut, at its middle, falls inside a pair. */
  lemma LogCanThrow(p: Report, n: nat)
    requires Encodable(p) && n >= 250
    ensures var whole := Faces(2 * n);
            && WellFormed(whole) && Terminates(p, whole)
            && !Fits(Url(p, whole, false))
            && Url(p, Next(p, LoopState(whole, false)).log, true).None?
  {
    var whole := Faces(2 * n);
    LongFaces(n, whole);
    FirstRoundThrows(p, whole);
    EndsInsidePair(p, whole);
  }

  lemma LongFaces(n: nat, whole: Str)
    requires n >= 250 && whole == Faces(2 * n)
    ensures WellFormed(whole) && |Encode(whole).value| > LIMIT && NEWLINE !in whole
    ensures whole != [] && IsLow(whole[|whole| / 2]) && IsLow(whole[|whole| - 1])
  {
    FacesEncode(2 * n);
    FacesEndInsidePair(n);
  }

  lemma EndsInsidePair(p: Report, whole: Str)
    requires Encodable(p) && WellFormed(whole) && whole != [] && IsLow(whole[|whole| - 1])
    ensures Terminates(p, whole)
  {
    CutThrows(p, whole, |whole| - 1);
  }

  /** A long log on one line whose middle code unit is the second half of a pair. */
  lemma FirstRoundThrows(p: Report, whole: Str)
    requires Encodable(p) && WellFormed(whole) && |Encode(whole).value| > LIMIT && NEWLINE !in whole
    requires whole != [] && IsLow(whole[|whole| / 2])
    ensures !Fits(Url(p, whole, false))
    ensures Url(p, Next(p, LoopState(whole, false)).log, true).None?
  {
    UrlShape(p, whole, false);
    FirstRoundHalves(p, whole);
    CutThrows(p, whole, |whole| / 2);
  }

  lemma FirstRoundHalves(p: Report, whole: Str)
    requires whole != [] && !Fits(Url(p, whole, false)) && NEWLINE !in whole
    ensures Next(p, LoopState(whole, false)).log == whole[|whole| / 2..]
  {
    OneLineIsHalved(whole, |Url(p, whole, false).value|);
  }

  lemma CutThrows(p: Report, whole: Str, at: nat)
    requires Encodable(p) && WellFormed(whole) && at < |whole| && IsLow(whole[at])
    ensures Url(p, whole[at..], true).None?
  {
    ThrowsWhenPairIsCut(p, whole, whole[at..], true);
  }

  lemma FacesEndInsidePair(n: nat)
    requires n > 0
    ensures var s := Faces(2 * n); |s| == 4 * n + 1 && IsLow(s[|s| / 2]) && IsLow(s[|s| - 1])
  {
    var pairs := Pairs(2 * n);
    assert pairs[2 * n - 1] == 0xDE00 && pairs[4 * n - 1] == 0xDE00;
    assert (4 * n + 1) / 2 == 2 * n;
  }

  /** A first line that is cut inside a pair spoils the title, and with it every URL. */
  lemma BrokenFirstLine(p: Report, log: Str, truncated: bool)
    requires !WellFormed(p.firstLine)
    ensures Url(p, log, truncated).None?
  {
    var mark, rest := U("[flash-error] "), U(" (v") + p.appVersion + U(", ") + p.osName + U(")");
    assert Title(p) == mark + (p.firstLine + rest);
    assert rest[0] == U(" (v")[0];
    IllFormedStays(p.firstLine, rest);
    PlainIsWellFormed(mark);
    EncodeJoins(mark, p.firstLine + rest);
  }

  /** A well-formed first line is spoiled by the cut exactly when code unit 120 is the second half of a
      pair; then no log gives a URL. Otherwise, with a plain version and system name, every well-formed
      log does. */
  lemma FirstLineCut(rawMsg: Str, appVersion: Str, osName: Str, log: Str, truncated: bool)
    requires WellFormed(WholeFirstLine(rawMsg)) && NoSurrogates(appVersion) && NoSurrogates(osName)
    ensures var line := WholeFirstLine(rawMsg);
            Url(MakeReport(rawMsg, appVersion, osName), log, truncated).Some?
            <==> WellFormed(log) && !(|line| > 120 && IsLow(line[120]))
  {
    var line, p := WholeFirstLine(rawMsg), MakeReport(rawMsg, appVersion, osName);
    if |line| > 120 {
      FrontWellFormed(line, 120);
    }
    if WellFormed(p.firstLine) {
      SoundFirstLine(p);
      UrlShape(p, log, truncated);
    } else {
      BrokenFirstLine(p, log, truncated);
    }
  }

  lemma SoundFirstLine(p: Report)
    requires WellFormed(p.firstLine) && NoSurrogates(p.appVersion) && NoSurrogates(p.osName)
    ensures Encodable(p)
  {
    SoundTitle(p);
    SoundTop(p);
  }

  lemma SoundTitle(p: Report)
    requires WellFormed(p.firstLine) && NoSurrogates(p.appVersion) && NoSurrogates(p.osName)
    ensures WellFormed(Title(p))
  {
    var mark, rest := U("[flash-error] "), U(" (v") + p.appVersion + U(", ") + p.osName + U(")");
    assert Title(p) == mark + (p.firstLine + rest);
    Surrounded(mark, p.firstLine, rest);
  }

  lemma SoundTop(p: Report)
    requires WellFormed(p.firstLine) && NoSurrogates(p.appVersion) && NoSurrogates(p.osName)
    ensures WellFormed(Head(p))
  {
    var top, rest := U("**Error:** `"), BelowFirstLine(p);
    assert Head(p) == top + (p.firstLine + rest);
    Surrounded(top, p.firstLine, rest);
  }

  lemma Surrounded(before: Str, line: Str, after: Str)
    requires NoSurrogates(before) && WellFormed(line) && NoSurrogates(after)
    ensures WellFormed(before + (line + after))
  {
    PlainIsWellFormed(before);
    PlainIsWellFormed(after);
    EncodeJoins(line, after);
    EncodeJoins(before, line + after);
  }

  /** It does happen: a letter and sixty pairs or more on one line. */
  lemma FirstLineCanThrow(n: nat, appVersion: Str, osName: Str, log: Str, truncated: bool)
    requires n >= 60 && NoSurrogates(appVersion) && NoSurrogates(osName)
    ensures WellFormed(Faces(n))
    ensures Url(MakeReport(Faces(n), appVersion, osName), log, truncated).None?
  {
    FacesEncode(n);
    assert IndexOf(Faces(n), NEWLINE, 0) == -1;
    assert Faces(n)[120] == Pairs(n)[119];
    FirstLineCut(Faces(n), appVersion, osName, log, truncated);
  }
}
