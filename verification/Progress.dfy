/**
 The progress file: the messages the writers print into it, and the thread that samples it
 and turns whatever it reads into percentages for the window.
 */
module Progress {
  import opened Wrappers
  import opened Text

  /** What a writer, or the script that starts it, can publish. */
  datatype Message = Count(bytes: nat) | SpeedOk(megabytes: nat) | Writing | Verifying(percent: nat) | Done

  function Print(m: Message): string {
    match m
    case Count(bytes) => Decimal(bytes)
    case SpeedOk(megabytes) => "STAGE:speed_ok:" + Decimal(megabytes)
    case Writing => "STAGE:writing"
    case Verifying(percent) => "STAGE:verifying:" + Decimal(percent)
    case Done => "STAGE:done"
  }

  /** A message whose number fits the type the writer prints it from. */
  predicate Printable(m: Message) {
    match m
    case Count(bytes) => bytes <= U64_MAX
    case SpeedOk(megabytes) => megabytes <= U32_MAX
    case Verifying(percent) => percent <= 100
    case _ => true
  }

  /** The order of a run: a speed line only before anything has been counted, growing counts, growing
      verify percentages, done. */
  predicate NotAfter(a: Message, b: Message) {
    match (a, b)
    case (Writing, _) => true
    case (_, Writing) => true
    case (SpeedOk(_), _) => true
    case (Count(m), SpeedOk(_)) => m == 0
    case (Count(m), Count(n)) => m <= n
    case (Count(_), _) => true
    case (Verifying(p), Verifying(q)) => p <= q
    case (Verifying(_), Done) => true
    case (Done, Done) => true
    case _ => false
  }

  predicate Ordered(h: seq<Message>) {
    && (forall i :: 0 <= i < |h| ==> Printable(h[i]))
    && (forall i, j :: 0 <= i <= j < |h| ==> NotAfter(h[i], h[j]))
  }

  /** What the file can have held before a writer starts: the caller's zero, and on Linux also the
      zero, the speed line and the stage that the flash script echoes. */
  predicate Preamble(h: seq<Message>) {
    forall i :: 0 <= i < |h| ==> h[i] == Count(0) || h[i] == SpeedOk(0) || h[i] == Writing
  }

  /** The progress file; `history` is every content it has had. */
  class ProgressFile {
    var content: string
    ghost var history: seq<Message>

    constructor ()
      ensures content == Print(Count(0)) && history == [Count(0)]
    {
      content := Print(Count(0));
      history := [Count(0)];
    }

    method Publish(m: Message)
      modifies this
      ensures content == Print(m) && history == old(history) + [m]
    {
      content := Print(m);
      history := history + [m];
    }
  }

  /** What the poller sends to the window. */
  datatype Event =
    | Percent(percent: real, stage: string, bytesDone: nat, bytesTotal: nat)
    | Speed(quality: string, megabytesPerSecond: nat)
    | VerifyFailed(detail: string)

  function Stage(percent: real, stage: string): seq<Event> {
    [Percent(percent, stage, 0, 0)]
  }

  function MinReal(a: real, b: real): real {
    if a < b then a else b
  }

  function WritingPercent(bytes: nat, imageSize: nat): real
    requires imageSize > 0
  {
    55.0 + MinReal(bytes as real / imageSize as real * 35.0, 35.0)
  }

  /** The verify percentage: writers print decimal digits, anything else counts as zero. */
  function ParsePercent(s: string): real {
    if s != [] && AllDigits(s) then DigitsValue(s) as real else 0.0
  }

  function VerifyingPercent(p: real): real {
    90.0 + p / 100.0 * 8.0
  }

  function SpeedOf(s: string): nat {
    match ParseUnsigned(s, U32_MAX)
    case Some(n) => n
    case None => 0
  }

  const VERIFYING := "STAGE:verifying:"
  const TESTING := "STAGE:testing"
  const SPEED_SLOW := "STAGE:speed_slow:"
  const SPEED_MEDIUM := "STAGE:speed_medium:"
  const SPEED_OK := "STAGE:speed_ok:"
  const DONE := "STAGE:done"
  const VERIFY_FAILED := "VERIFY_FAILED"

  /** One successful read of the progress file. */
  function PollStep(raw: string, imageSize: nat): seq<Event> {
    PollContent(Trim(raw), imageSize)
  }

  function PollContent(content: string, imageSize: nat): seq<Event> {
    if StartsWith(content, VERIFYING) then
      Stage(VerifyingPercent(ParsePercent(TrimStartMatches(content, VERIFYING))), "verifying")
    else if StartsWith(content, TESTING) then
      Stage(55.0, "testing_sd")
    else if StartsWith(content, SPEED_SLOW) then
      [Speed("slow", SpeedOf(TrimStartMatches(content, SPEED_SLOW)))] + Stage(56.0, "writing_safe")
    else if StartsWith(content, SPEED_MEDIUM) then
      [Speed("medium", SpeedOf(TrimStartMatches(content, SPEED_MEDIUM)))] + Stage(56.0, "writing")
    else if StartsWith(content, SPEED_OK) then
      [Speed("fast", SpeedOf(TrimStartMatches(content, SPEED_OK)))] + Stage(56.0, "writing")
    else if StartsWith(content, DONE) then
      Stage(98.0, "finalizing")
    else if StartsWith(content, VERIFY_FAILED) then
      [VerifyFailed(TrimStartMatches(content, "VERIFY_FAILED:"))] + Stage(0.0, "verify_failed")
    else
      match ParseUnsigned(content, U64_MAX)
      case Some(bytes) =>
        if imageSize > 0 then [Percent(WritingPercent(bytes, imageSize), "writing", bytes, imageSize)] else []
      case None => []
  }

  /** What the poller must make of a message, told without any text. */
  function Meaning(m: Message, imageSize: nat): seq<Event> {
    match m
    case Count(bytes) =>
      if imageSize > 0 then [Percent(WritingPercent(bytes, imageSize), "writing", bytes, imageSize)] else []
    case SpeedOk(megabytes) => [Speed("fast", megabytes)] + Stage(56.0, "writing")
    case Writing => []
    case Verifying(percent) => Stage(VerifyingPercent(percent as real), "verifying")
    case Done => Stage(98.0, "finalizing")
  }

  /** Print, write with or without the line feed of `echo`, read, trim, test prefixes, parse:
      the poller recovers exactly the message. */
  lemma PollReadsBack(m: Message, tail: string, imageSize: nat)
    requires Printable(m) && (tail == "" || tail == "\n")
    ensures PollStep(Print(m) + tail, imageSize) == Meaning(m, imageSize)
  {
    match m {
      case Count(bytes) =>
        DecimalReadsBack(bytes);
        PollReadsDigits(Decimal(bytes), imageSize);
      case Verifying(percent) =>
        DecimalReadsBack(percent);
        PollReadsPercent(Decimal(percent), imageSize);
      case SpeedOk(megabytes) => PollReadsSpeed(megabytes, imageSize);
      case _ => PollReadsStage(m, imageSize);
    }
    PrintHasNoOuterSpace(m);
    TrimOfLine(Print(m), tail);
  }

  lemma PrintHasNoOuterSpace(m: Message)
    ensures Print(m) != []
    ensures !IsWhitespace(Print(m)[0]) && !IsWhitespace(Print(m)[|Print(m)| - 1])
  {
    match m {
      case Count(bytes) =>
        var d := Decimal(bytes);
        assert IsDigit(d[0]) && IsDigit(d[|d| - 1]);
      case Verifying(percent) =>
        var d := Decimal(percent);
        assert IsDigit(d[|d| - 1]) && Print(m)[|Print(m)| - 1] == d[|d| - 1];
      case SpeedOk(megabytes) =>
        var d := Decimal(megabytes);
        assert IsDigit(d[|d| - 1]) && Print(m)[|Print(m)| - 1] == d[|d| - 1];
      case _ =>
    }
  }

  /** Any digits, such as those of a count or the first few of them, are read as their value. */
  lemma PollReadsDigits(d: string, imageSize: nat)
    requires d != [] && AllDigits(d) && DigitsValue(d) <= U64_MAX
    ensures PollContent(d, imageSize) == Meaning(Count(DigitsValue(d)), imageSize)
  {
    assert IsDigit(d[0]);
    NoStageInDigits(d);
  }

  lemma NoStageInDigits(d: string)
    requires d != [] && IsDigit(d[0])
    ensures !StartsWith(d, VERIFYING) && !StartsWith(d, TESTING) && !StartsWith(d, SPEED_SLOW)
    ensures !StartsWith(d, SPEED_MEDIUM) && !StartsWith(d, SPEED_OK) && !StartsWith(d, DONE)
    ensures !StartsWith(d, VERIFY_FAILED)
  {
    assert VERIFYING[0] == TESTING[0] == SPEED_SLOW[0] == SPEED_MEDIUM[0] == SPEED_OK[0] == DONE[0] == 'S';
    assert VERIFY_FAILED[0] == 'V';
  }

  /** Any digits behind the verify prefix are read as their value, no digits as zero. */
  lemma PollReadsPercent(d: string, imageSize: nat)
    requires AllDigits(d)
    ensures PollContent(VERIFYING + d, imageSize) == Meaning(Verifying(DigitsValue(d)), imageSize)
  {
    var s := VERIFYING + d;
    assert d != [] ==> IsDigit(d[0]);
    assert VERIFYING[0] == 'S';
    assert s[|VERIFYING|..] == d;
    assert TrimStartMatches(d, VERIFYING) == d;
    assert TrimStartMatches(s, VERIFYING) == d;
  }

  lemma PollReadsSpeed(megabytes: nat, imageSize: nat)
    requires megabytes <= U32_MAX
    ensures PollContent(SPEED_OK + Decimal(megabytes), imageSize) == Meaning(SpeedOk(megabytes), imageSize)
  {
    SpeedPrefix(Decimal(megabytes));
    DecimalParses(megabytes, U32_MAX);
  }

  lemma SpeedPrefix(d: string)
    requires d != [] && IsDigit(d[0])
    ensures var s := SPEED_OK + d;
            && !StartsWith(s, VERIFYING) && !StartsWith(s, TESTING) && !StartsWith(s, SPEED_SLOW)
            && !StartsWith(s, SPEED_MEDIUM) && StartsWith(s, SPEED_OK) && TrimStartMatches(s, SPEED_OK) == d
  {
    var s := SPEED_OK + d;
    assert s[6] == 's' && s[12] == 'o';
    assert VERIFYING[6] == 'v' && TESTING[6] == 't' && SPEED_SLOW[12] == 's' && SPEED_MEDIUM[12] == 'm';
    assert SPEED_OK[0] == 'S';
    assert s[|SPEED_OK|..] == d;
    assert TrimStartMatches(d, SPEED_OK) == d;
    assert TrimStartMatches(s, SPEED_OK) == d;
  }

  lemma PollReadsStage(m: Message, imageSize: nat)
    requires m.Writing? || m.Done?
    ensures PollContent(Print(m), imageSize) == Meaning(m, imageSize)
  {
    var s := Print(m);
    assert s[0] == 'S' && !IsDigit(s[0]);
    assert s[6] == (if m.Writing? then 'w' else 'd');
    assert VERIFYING[6] == 'v' && TESTING[6] == 't' && SPEED_SLOW[6] == 's' && SPEED_MEDIUM[6] == 's'
           && SPEED_OK[6] == 's' && DONE[6] == 'd' && VERIFY_FAILED[0] == 'V';
  }

  /** No two messages of a helper share a text. */
  lemma PrintIsInjective(a: Message, b: Message)
    requires Printable(a) && Printable(b) && Print(a) == Print(b)
    ensures a == b
  {
    PollReadsBack(a, "", 1);
    PollReadsBack(b, "", 1);
    MeaningIsInjective(a, b);
  }

  lemma MeaningIsInjective(a: Message, b: Message)
    requires Printable(a) && Printable(b) && Meaning(a, 1) == Meaning(b, 1)
    ensures a == b
  {
    match a {
      case Count(bytes) => assert Meaning(a, 1)[0].bytesTotal == 1;
      case SpeedOk(megabytes) => assert Meaning(a, 1)[0].Speed? && |Meaning(a, 1)| == 2;
      case Writing =>
      case Verifying(percent) => assert Meaning(a, 1)[0].stage == "verifying" && Meaning(a, 1)[0].bytesTotal == 0;
      case Done => assert Meaning(a, 1)[0].stage == "finalizing" && Meaning(a, 1)[0].bytesTotal == 0;
    }
  }

  /** What one round sends; a read that fails sends nothing. */
  function Sent(sample: Option<string>, imageSize: nat): seq<Event> {
    match sample
    case Some(raw) => PollStep(raw, imageSize)
    case None => []
  }

  function Flatten(rounds: seq<seq<Event>>): seq<Event> {
    if rounds == [] then [] else Flatten(rounds[..|rounds| - 1]) + rounds[|rounds| - 1]
  }

  function Rounds(samples: seq<Option<string>>, imageSize: nat): (rounds: seq<seq<Event>>)
    ensures |rounds| == |samples|
    ensures forall i :: 0 <= i < |samples| ==> rounds[i] == Sent(samples[i], imageSize)
  {
    seq(|samples|, i requires 0 <= i < |samples| => Sent(samples[i], imageSize))
  }

  /** Everything the poller sends for a series of reads. */
  function Polled(samples: seq<Option<string>>, imageSize: nat): seq<Event> {
    Flatten(Rounds(samples, imageSize))
  }

  /** The polling thread: one read per round until it is told to stop. */
  method PollFlashProgress(samples: seq<Option<string>>, imageSize: nat) returns (sent: seq<Event>)
    ensures sent == Polled(samples, imageSize)
  {
    sent := [];
    var round := 0;
    ghost var rounds := Rounds(samples, imageSize);
    while round < |samples|
      invariant round <= |samples|
      invariant sent == Flatten(rounds[..round])
    {
      assert rounds[..round + 1][..round] == rounds[..round];
      match samples[round] {
        case Some(raw) => sent := sent + PollStep(raw, imageSize);
        case None =>
      }
      round := round + 1;
    }
    assert rounds[..round] == rounds;
  }

  /** The poller saw contents of the file in the order they were written, with reads missed,
      repeated or failed as it happens. */
  ghost predicate SampledInOrder(samples: seq<Option<string>>, history: seq<Message>, picks: seq<nat>) {
    && |picks| == |samples|
    && (forall i :: 0 <= i < |picks| ==> picks[i] < |history|)
    && (forall i, j :: 0 <= i <= j < |picks| ==> picks[i] <= picks[j])
    && (forall i :: 0 <= i < |samples| && samples[i].Some? ==>
                      samples[i].value == Print(history[picks[i]]) || samples[i].value == Print(history[picks[i]]) + "\n")
  }

  /** The percentages among the events never fall. */
  predicate NeverFalls(sent: seq<Event>) {
    forall i, j :: 0 <= i <= j < |sent| && sent[i].Percent? && sent[j].Percent? ==> sent[i].percent <= sent[j].percent
  }

  /** Each stage stays inside its own part of the progress bar. */
  predicate InItsBand(e: Event) {
    || (e.Speed? && e.quality == "fast")
    || (e.Percent? && e.stage == "writing" && 55.0 <= e.percent <= 90.0)
    || (e.Percent? && e.stage == "verifying" && 90.0 <= e.percent <= 98.0)
    || (e.Percent? && e.stage == "finalizing" && e.percent == 98.0)
  }

  lemma MeaningInBand(m: Message, imageSize: nat)
    requires Printable(m)
    ensures forall e :: e in Meaning(m, imageSize) ==> InItsBand(e)
  {
    if m.Count? && imageSize > 0 {
      assert m.bytes as real / imageSize as real >= 0.0;
    }
  }

  /** The bar is in proportion: writing takes it from 55 to 90 with the bytes, up to those of the image,
      and verifying from 90 to 98 with the percentage. */
  lemma BarInProportion(bytes: nat, imageSize: nat, percent: nat)
    requires imageSize > 0
    ensures (WritingPercent(bytes, imageSize) - 55.0) * imageSize as real
         == 35.0 * (if bytes <= imageSize then bytes else imageSize) as real
    ensures (VerifyingPercent(percent as real) - 90.0) * 100.0 == 8.0 * percent as real
  {
    var b, s := bytes as real, imageSize as real;
    assert b / s * s == b;
    RatioOrder(bytes, imageSize, imageSize);
    RatioOrder(imageSize, bytes, imageSize);
    assert s / s == 1.0;
    if bytes <= imageSize {
      assert WritingPercent(bytes, imageSize) == 55.0 + b / s * 35.0;
      assert b / s * 35.0 * s == 35.0 * b;
    }
  }

  /** What is shown, in plain words: a count as a share of the image with the bytes, nothing if the size
      of the image is unknown, a percentage of the verify pass, and the end. */
  lemma WhatIsShown(bytes: nat, percent: nat, imageSize: nat)
    requires bytes <= U64_MAX && percent <= 100
    ensures imageSize > 0 ==>
              var share := WritingPercent(bytes, imageSize);
              && PollStep(Decimal(bytes) + "\n", imageSize) == [Percent(share, "writing", bytes, imageSize)]
              && (share - 55.0) * imageSize as real == 35.0 * (if bytes <= imageSize then bytes else imageSize) as real
    ensures PollStep(Decimal(bytes) + "\n", 0) == []
    ensures var share := VerifyingPercent(percent as real);
            && PollStep("STAGE:verifying:" + Decimal(percent), imageSize) == [Percent(share, "verifying", 0, 0)]
            && (share - 90.0) * 100.0 == 8.0 * percent as real
    ensures PollStep("STAGE:writing\n", imageSize) == []
    ensures PollStep("STAGE:done\n", imageSize) == [Percent(98.0, "finalizing", 0, 0)]
  {
    ShownCount(bytes, imageSize);
    ShownCount(bytes, 0);
    ShownPercent(percent, imageSize);
    ShownStages(imageSize);
  }

  lemma ShownCount(bytes: nat, imageSize: nat)
    requires bytes <= U64_MAX
    ensures imageSize > 0 ==>
              var share := WritingPercent(bytes, imageSize);
              && PollStep(Decimal(bytes) + "\n", imageSize) == [Percent(share, "writing", bytes, imageSize)]
              && (share - 55.0) * imageSize as real == 35.0 * (if bytes <= imageSize then bytes else imageSize) as real
    ensures imageSize == 0 ==> PollStep(Decimal(bytes) + "\n", 0) == []
  {
    SampleReadsBack(Print(Count(bytes)) + "\n", Count(bytes), imageSize);
    if imageSize > 0 {
      BarInProportion(bytes, imageSize, 0);
    }
  }

  lemma ShownPercent(percent: nat, imageSize: nat)
    requires percent <= 100
    ensures var share := VerifyingPercent(percent as real);
            && PollStep("STAGE:verifying:" + Decimal(percent), imageSize) == [Percent(share, "verifying", 0, 0)]
            && (share - 90.0) * 100.0 == 8.0 * percent as real
  {
    DecimalReadsBack(percent);
    PollStepOfPercent(Decimal(percent), imageSize);
    BarInProportion(0, 1, percent);
  }

  lemma ShownStages(imageSize: nat)
    ensures PollStep("STAGE:writing\n", imageSize) == []
    ensures PollStep("STAGE:done\n", imageSize) == [Percent(98.0, "finalizing", 0, 0)]
  {
    assert "STAGE:writing" + "\n" == "STAGE:writing\n" && "STAGE:done" + "\n" == "STAGE:done\n";
    SampleReadsBack(Print(Writing) + "\n", Writing, imageSize);
    SampleReadsBack(Print(Done) + "\n", Done, imageSize);
  }

  /** What the poller makes of the messages that only older scripts wrote. */
  lemma PollReadsOldStages(n: nat, detail: string, imageSize: nat)
    requires n <= U32_MAX
    requires detail == "" || detail[0] != 'V'
    ensures PollContent("STAGE:testing", imageSize) == [Percent(55.0, "testing_sd", 0, 0)]
    ensures PollContent("STAGE:speed_slow:" + Decimal(n), imageSize)
         == [Speed("slow", n), Percent(56.0, "writing_safe", 0, 0)]
    ensures PollContent("STAGE:speed_medium:" + Decimal(n), imageSize)
         == [Speed("medium", n), Percent(56.0, "writing", 0, 0)]
    ensures PollContent("VERIFY_FAILED:" + detail, imageSize) == [VerifyFailed(detail), Percent(0.0, "verify_failed", 0, 0)]
  {
    PollReadsTesting(imageSize);
    PollReadsSlow(n, imageSize);
    PollReadsMedium(n, imageSize);
    PollReadsFailure(detail, imageSize);
  }

  lemma PollReadsTesting(imageSize: nat)
    ensures PollContent("STAGE:testing", imageSize) == [Percent(55.0, "testing_sd", 0, 0)]
  {
    assert TESTING[6] == 't' && VERIFYING[6] == 'v';
  }

  lemma PollReadsSlow(n: nat, imageSize: nat)
    requires n <= U32_MAX
    ensures PollContent(SPEED_SLOW + Decimal(n), imageSize) == [Speed("slow", n), Percent(56.0, "writing_safe", 0, 0)]
  {
    SlowPrefix(Decimal(n));
    DecimalParses(n, U32_MAX);
  }

  lemma SlowPrefix(d: string)
    requires d != [] && IsDigit(d[0])
    ensures var s := SPEED_SLOW + d;
            && !StartsWith(s, VERIFYING) && !StartsWith(s, TESTING) && StartsWith(s, SPEED_SLOW)
            && TrimStartMatches(s, SPEED_SLOW) == d
  {
    var s := SPEED_SLOW + d;
    assert s[6] == 's' && VERIFYING[6] == 'v' && TESTING[6] == 't' && SPEED_SLOW[0] == 'S';
    assert s[|SPEED_SLOW|..] == d;
    assert TrimStartMatches(d, SPEED_SLOW) == d;
    assert TrimStartMatches(s, SPEED_SLOW) == d;
  }

  lemma PollReadsMedium(n: nat, imageSize: nat)
    requires n <= U32_MAX
    ensures PollContent(SPEED_MEDIUM + Decimal(n), imageSize) == [Speed("medium", n), Percent(56.0, "writing", 0, 0)]
  {
    MediumPrefix(Decimal(n));
    DecimalParses(n, U32_MAX);
  }

  lemma MediumPrefix(d: string)
    requires d != [] && IsDigit(d[0])
    ensures var s := SPEED_MEDIUM + d;
            && !StartsWith(s, VERIFYING) && !StartsWith(s, TESTING) && !StartsWith(s, SPEED_SLOW)
            && StartsWith(s, SPEED_MEDIUM) && TrimStartMatches(s, SPEED_MEDIUM) == d
  {
    var s := SPEED_MEDIUM + d;
    assert s[6] == 's' && s[12] == 'm' && VERIFYING[6] == 'v' && TESTING[6] == 't' && SPEED_SLOW[12] == 's';
    assert SPEED_MEDIUM[0] == 'S';
    assert s[|SPEED_MEDIUM|..] == d;
    assert TrimStartMatches(d, SPEED_MEDIUM) == d;
    assert TrimStartMatches(s, SPEED_MEDIUM) == d;
  }

  lemma PollReadsFailure(detail: string, imageSize: nat)
    requires detail == "" || detail[0] != 'V'
    ensures PollContent("VERIFY_FAILED:" + detail, imageSize) == [VerifyFailed(detail), Percent(0.0, "verify_failed", 0, 0)]
  {
    FailurePrefix(detail);
  }

  lemma FailurePrefix(detail: string)
    requires detail == "" || detail[0] != 'V'
    ensures var s := "VERIFY_FAILED:" + detail;
            && !StartsWith(s, VERIFYING) && !StartsWith(s, TESTING) && !StartsWith(s, SPEED_SLOW)
            && !StartsWith(s, SPEED_MEDIUM) && !StartsWith(s, SPEED_OK) && !StartsWith(s, DONE)
            && StartsWith(s, VERIFY_FAILED) && TrimStartMatches(s, "VERIFY_FAILED:") == detail
  {
    var mark := "VERIFY_FAILED:";
    var s := mark + detail;
    assert s[0] == 'V' && mark[0] == 'V';
    assert VERIFYING[0] == TESTING[0] == SPEED_SLOW[0] == SPEED_MEDIUM[0] == SPEED_OK[0] == DONE[0] == 'S';
    assert s[..|VERIFY_FAILED|] == VERIFY_FAILED;
    assert s[|mark|..] == detail;
    assert TrimStartMatches(detail, mark) == detail;
    assert TrimStartMatches(s, mark) == detail;
  }

  /** A speed line shows more than the count that comes after it. */
  predicate SpeedAbove(a: Message, b: Message, imageSize: nat) {
    a.SpeedOk? && b.Count? && imageSize > 0 && b.bytes * 35 < imageSize
  }

  predicate NotAbove(a: seq<Event>, b: seq<Event>) {
    forall x, y :: x in a && y in b && x.Percent? && y.Percent? ==> x.percent <= y.percent
  }

  /** Of two messages in order the later one shows no less, but for the one exception. */
  lemma MeaningGrows(a: Message, b: Message, imageSize: nat)
    requires Printable(a) && Printable(b) && NotAfter(a, b)
    ensures NotAbove(Meaning(a, imageSize), Meaning(b, imageSize)) <==> !SpeedAbove(a, b, imageSize)
  {
    if b.Count? && imageSize > 0 {
      assert Meaning(b, imageSize)[0].Percent?;
      if a.Count? {
        PercentOrder(a.bytes, b.bytes, imageSize);
      } else if a.SpeedOk? {
        FirstPercent(b.bytes, imageSize);
        assert Meaning(a, imageSize)[1].percent == 56.0;
      }
    } else if a.Count? && imageSize > 0 {
      FirstPercent(a.bytes, imageSize);
    }
    MeaningInBand(a, imageSize);
    MeaningInBand(b, imageSize);
  }

  lemma RatioOrder(m: nat, n: nat, d: nat)
    requires d > 0
    ensures m as real / d as real <= n as real / d as real <==> m <= n
  {
    var a, b, r := m as real, n as real, 1.0 / d as real;
    assert r > 0.0;
    assert a / d as real == a * r && b / d as real == b * r;
    if m <= n {
      assert (b - a) * r >= 0.0;
    } else {
      assert (a - b) * r > 0.0;
    }
  }

  /** The writing percentage grows with the count until the whole image is written. */
  lemma PercentOrder(a: nat, b: nat, imageSize: nat)
    requires imageSize > 0
    ensures WritingPercent(a, imageSize) <= WritingPercent(b, imageSize) <==> a <= b || imageSize <= b
  {
    RatioOrder(a, b, imageSize);
    RatioOrder(imageSize, b, imageSize);
    RatioOrder(imageSize, a, imageSize);
    var s := imageSize as real;
    assert s / s == 1.0;
  }

  /** It passes 56 with the 35th part of the image. */
  lemma FirstPercent(bytes: nat, imageSize: nat)
    requires imageSize > 0
    ensures WritingPercent(bytes, imageSize) >= 56.0 <==> bytes * 35 >= imageSize
    ensures bytes == 0 ==> WritingPercent(bytes, imageSize) == 55.0
  {
    QuotientReaches(bytes as real, imageSize as real);
    assert (bytes * 35) as real == bytes as real * 35.0;
  }

  lemma QuotientReaches(b: real, s: real)
    requires s > 0.0
    ensures b / s * 35.0 >= 1.0 <==> b * 35.0 >= s
    ensures b == 0.0 ==> b / s == 0.0
  {
    var q := b / s;
    assert q * s == b;
    if q * 35.0 >= 1.0 {
      assert (q * 35.0 - 1.0) * s >= 0.0;
    } else {
      assert (1.0 - q * 35.0) * s > 0.0;
    }
  }

  /** Events that follow one another never fall exactly when neither part does and the second is
      nowhere below the first. */
  lemma JoinNeverFalls(a: seq<Event>, b: seq<Event>)
    ensures NeverFalls(a + b) <==> NeverFalls(a) && NeverFalls(b) && NotAbove(a, b)
  {
    var all := a + b;
    if NeverFalls(all) {
      forall i, j | 0 <= i <= j < |b| && b[i].Percent? && b[j].Percent? ensures b[i].percent <= b[j].percent {
        assert all[|a| + i] == b[i] && all[|a| + j] == b[j];
      }
      forall i, j | 0 <= i <= j < |a| && a[i].Percent? && a[j].Percent? ensures a[i].percent <= a[j].percent {
        assert all[i] == a[i] && all[j] == a[j];
      }
      forall x, y | x in a && y in b && x.Percent? && y.Percent? ensures x.percent <= y.percent {
        var i, j :| 0 <= i < |a| && 0 <= j < |b| && a[i] == x && b[j] == y;
        assert all[i] == x && all[|a| + j] == y;
      }
    } else if NeverFalls(a) && NeverFalls(b) && NotAbove(a, b) {
      forall i, j | 0 <= i <= j < |all| && all[i].Percent? && all[j].Percent?
        ensures all[i].percent <= all[j].percent
      {
        if i < |a| && |a| <= j {
          assert all[i] in a && all[j] in b;
        }
      }
    }
  }

  /** No round falls, and no later round is below an earlier one. */
  ghost predicate RoundsGrow(rounds: seq<seq<Event>>) {
    && (forall i :: 0 <= i < |rounds| ==> NeverFalls(rounds[i]))
    && (forall i, j :: 0 <= i < j < |rounds| ==> NotAbove(rounds[i], rounds[j]))
  }

  lemma {:induction false} EventsOfRounds(rounds: seq<seq<Event>>, e: Event)
    ensures e in Flatten(rounds) <==> exists k :: 0 <= k < |rounds| && e in rounds[k]
  {
    if rounds != [] {
      var n := |rounds| - 1;
      EventsOfRounds(rounds[..n], e);
      assert (exists k :: 0 <= k < |rounds| && e in rounds[k])
        <==> e in rounds[n] || exists k :: 0 <= k < n && e in rounds[..n][k];
    }
  }

  lemma {:induction false} RoundsNeverFall(rounds: seq<seq<Event>>)
    ensures NeverFalls(Flatten(rounds)) <==> RoundsGrow(rounds)
  {
    if rounds != [] {
      var n := |rounds| - 1;
      var before, last := rounds[..n], rounds[n];
      RoundsNeverFall(before);
      JoinNeverFalls(Flatten(before), last);
      LastRound(before, last);
      OneMoreRound(before, last);
      assert rounds == before + [last];
    }
  }

  lemma OneMoreRound(before: seq<seq<Event>>, last: seq<Event>)
    ensures RoundsGrow(before + [last]) <==>
            RoundsGrow(before) && NeverFalls(last) && forall k :: 0 <= k < |before| ==> NotAbove(before[k], last)
  {
    var all := before + [last];
    assert all[|before|] == last;
    assert forall k :: 0 <= k < |before| ==> all[k] == before[k];
  }

  lemma LastRound(before: seq<seq<Event>>, last: seq<Event>)
    ensures NotAbove(Flatten(before), last) <==> forall k :: 0 <= k < |before| ==> NotAbove(before[k], last)
  {
    forall e ensures e in Flatten(before) <==> exists k :: 0 <= k < |before| && e in before[k] {
      EventsOfRounds(before, e);
    }
    if NotAbove(Flatten(before), last) {
      forall k | 0 <= k < |before| ensures NotAbove(before[k], last) {
        forall x, y | x in before[k] && y in last && x.Percent? && y.Percent? ensures x.percent <= y.percent {
          assert x in Flatten(before);
        }
      }
    }
  }

  /** What one round sends for a sample of this message. */
  ghost predicate Says(round: seq<Event>, sample: Option<string>, m: Message, imageSize: nat) {
    round == if sample.Some? then Meaning(m, imageSize) else []
  }

  lemma OneRound(sample: Option<string>, m: Message, imageSize: nat)
    requires Printable(m)
    requires sample.Some? ==> sample.value == Print(m) || sample.value == Print(m) + "\n"
    ensures Says(Sent(sample, imageSize), sample, m, imageSize)
  {
    if sample.Some? {
      SampleReadsBack(sample.value, m, imageSize);
    }
  }

  lemma SampleReadsBack(sample: string, m: Message, imageSize: nat)
    requires Printable(m) && (sample == Print(m) || sample == Print(m) + "\n")
    ensures PollStep(sample, imageSize) == Meaning(m, imageSize)
  {
    PollReadsBack(m, if sample == Print(m) then "" else "\n", imageSize);
    assert Print(m) + "" == Print(m);
  }

  /** Some round catches the speed line, and a later one a count below the 35th part of the image. */
  ghost predicate CatchesSpeedLine(
    samples: seq<Option<string>>, history: seq<Message>, picks: seq<nat>, imageSize: nat)
    requires SampledInOrder(samples, history, picks)
  {
    exists i, j :: 0 <= i < j < |samples| && samples[i].Some? && samples[j].Some?
                   && SpeedAbove(history[picks[i]], history[picks[j]], imageSize)
  }

  lemma SampledRounds(
    rounds: seq<seq<Event>>, samples: seq<Option<string>>, history: seq<Message>, picks: seq<nat>, imageSize: nat)
    requires Ordered(history) && SampledInOrder(samples, history, picks) && |rounds| == |samples|
    requires forall i :: 0 <= i < |rounds| ==> Says(rounds[i], samples[i], history[picks[i]], imageSize)
    ensures RoundsGrow(rounds) <==> !CatchesSpeedLine(samples, history, picks, imageSize)
  {
    forall i, j | 0 <= i < j < |rounds|
      ensures NotAbove(rounds[i], rounds[j]) <==>
              !(samples[i].Some? && samples[j].Some? && SpeedAbove(history[picks[i]], history[picks[j]], imageSize))
    {
      assert NotAfter(history[picks[i]], history[picks[j]]);
      MeaningGrows(history[picks[i]], history[picks[j]], imageSize);
    }
  }

  /** For every run of a writer, behind whatever its caller put in the file, and every way the poller
      may have sampled it: the bar moves backwards exactly when a round catches the speed line and a
      later one a count below the 35th part of the image. Every stage keeps to its band, and nothing is
      shown that no sampled message says. */
  lemma WhenTheBarFalls(
    history: seq<Message>, samples: seq<Option<string>>, picks: seq<nat>, imageSize: nat)
    requires Ordered(history) && SampledInOrder(samples, history, picks)
    ensures NeverFalls(Polled(samples, imageSize)) <==> !CatchesSpeedLine(samples, history, picks, imageSize)
    ensures forall e :: e in Polled(samples, imageSize) ==> InItsBand(e)
    ensures forall e :: e in Polled(samples, imageSize) ==>
                          exists k :: 0 <= k < |picks| && e in Meaning(history[picks[k]], imageSize)
  {
    var rounds := Rounds(samples, imageSize);
    forall i | 0 <= i < |samples| ensures Says(rounds[i], samples[i], history[picks[i]], imageSize) {
      OneRound(samples[i], history[picks[i]], imageSize);
    }
    SampledRounds(rounds, samples, history, picks, imageSize);
    RoundsNeverFall(rounds);
    forall e | e in Polled(samples, imageSize)
      ensures InItsBand(e) && exists k :: 0 <= k < |picks| && e in Meaning(history[picks[k]], imageSize)
    {
      EventsOfRounds(rounds, e);
      var k :| 0 <= k < |samples| && e in rounds[k];
      assert e in Meaning(history[picks[k]], imageSize);
      MeaningInBand(history[picks[k]], imageSize);
    }
  }

  /** On Windows and macOS, where nobody writes a speed line, the bar never moves backwards. */
  lemma WithoutSpeedLineNeverFalls(
    history: seq<Message>, samples: seq<Option<string>>, picks: seq<nat>, imageSize: nat)
    requires Ordered(history) && SampledInOrder(samples, history, picks)
    requires forall i :: 0 <= i < |samples| && samples[i].Some? ==> !history[picks[i]].SpeedOk?
    ensures NeverFalls(Polled(samples, imageSize))
  {
    WhenTheBarFalls(history, samples, picks, imageSize);
  }

  /** It does happen on Linux: a round right before the writer starts and one after its first chunk. */
  lemma SpeedLineGoesBack(bytes: nat, imageSize: nat)
    requires bytes <= U64_MAX && imageSize > 0
    ensures NeverFalls(PollStep(Print(SpeedOk(0)) + "\n", imageSize) + PollStep(Print(Count(bytes)), imageSize))
       <==> bytes * 35 >= imageSize
  {
    SampleReadsBack(Print(SpeedOk(0)) + "\n", SpeedOk(0), imageSize);
    SampleReadsBack(Print(Count(bytes)), Count(bytes), imageSize);
    SpeedPair(bytes, imageSize);
  }

  lemma SpeedPair(bytes: nat, imageSize: nat)
    requires bytes <= U64_MAX && imageSize > 0
    ensures NeverFalls(Meaning(SpeedOk(0), imageSize) + Meaning(Count(bytes), imageSize)) <==> bytes * 35 >= imageSize
  {
    JoinNeverFalls(Meaning(SpeedOk(0), imageSize), Meaning(Count(bytes), imageSize));
    MeaningGrows(SpeedOk(0), Count(bytes), imageSize);
  }

  // ----- Reads that catch a write half way -----

  lemma {:induction false} PrefixValue(s: string, k: nat)
    requires AllDigits(s) && k <= |s|
    ensures DigitsValue(s[..k]) <= DigitsValue(s)
  {
    if k < |s| {
      PrefixValue(s[..|s| - 1], k);
      assert s[..|s| - 1][..k] == s[..k];
    } else {
      assert s[..k] == s;
    }
  }

  /** What the poller makes of any digits, alone in the file or behind the verify prefix. */
  lemma PollStepOfDigits(d: string, imageSize: nat)
    requires AllDigits(d) && DigitsValue(d) <= U64_MAX
    ensures PollStep(d, imageSize) == if d == [] then [] else Meaning(Count(DigitsValue(d)), imageSize)
  {
    assert d != [] ==> IsDigit(d[0]) && IsDigit(d[|d| - 1]);
    TrimOfWord(d);
    if d != [] {
      PollReadsDigits(d, imageSize);
    }
  }

  lemma PollStepOfPercent(d: string, imageSize: nat)
    requires AllDigits(d)
    ensures PollStep(VERIFYING + d, imageSize) == Meaning(Verifying(DigitsValue(d)), imageSize)
  {
    var s := VERIFYING + d;
    assert s[|s| - 1] == (if d == [] then ':' else d[|d| - 1]);
    TrimOfWord(s);
    PollReadsPercent(d, imageSize);
  }

  /** Atomic writes are needed: a read that catches the first `k` digits of a count moves the bar back
      exactly when there are any and their value is below the last count shown, or below the whole image
      if that was shown. */
  lemma TornCount(shown: nat, written: nat, k: nat, imageSize: nat)
    requires shown <= written <= U64_MAX && k <= |Print(Count(written))| && imageSize > 0
    ensures var torn := Print(Count(written))[..k];
            NeverFalls(PollStep(Print(Count(shown)), imageSize) + PollStep(torn, imageSize))
            <==> k == 0 || shown <= DigitsValue(torn) || imageSize <= DigitsValue(torn)
  {
    var torn := Decimal(written)[..k];
    DecimalReadsBack(written);
    PrefixValue(Decimal(written), k);
    DecimalReadsBack(shown);
    PollStepOfDigits(Decimal(shown), imageSize);
    PollStepOfDigits(torn, imageSize);
    TornPair(shown, torn, imageSize);
  }

  lemma TornPair(shown: nat, torn: string, imageSize: nat)
    requires AllDigits(torn) && imageSize > 0
    ensures NeverFalls(Meaning(Count(shown), imageSize)
                       + (if torn == [] then [] else Meaning(Count(DigitsValue(torn)), imageSize)))
       <==> torn == [] || shown <= DigitsValue(torn) || imageSize <= DigitsValue(torn)
  {
    var first := Meaning(Count(shown), imageSize);
    if torn == [] {
      assert first + [] == first;
    } else {
      PercentOrder(shown, DigitsValue(torn), imageSize);
      FallingPair(first, Meaning(Count(DigitsValue(torn)), imageSize));
    }
  }

  /** The same for the digits of a verify percentage; with none of them the poller shows zero. */
  lemma TornPercent(shown: nat, percent: nat, k: nat, imageSize: nat)
    requires shown <= percent <= 100 && k <= |Decimal(percent)|
    ensures var torn := Decimal(percent)[..k];
            NeverFalls(PollStep(VERIFYING + Decimal(shown), imageSize) + PollStep(VERIFYING + torn, imageSize))
            <==> shown <= DigitsValue(torn)
  {
    var torn := Decimal(percent)[..k];
    DecimalReadsBack(shown);
    PollStepOfPercent(Decimal(shown), imageSize);
    PollStepOfPercent(torn, imageSize);
    FallingPair(Meaning(Verifying(shown), imageSize), Meaning(Verifying(DigitsValue(torn)), imageSize));
  }

  lemma FallingPair(first: seq<Event>, second: seq<Event>)
    requires |first| == |second| == 1 && first[0].Percent? && second[0].Percent?
    ensures NeverFalls(first + second) <==> first[0].percent <= second[0].percent
  {
    JoinNeverFalls(first, second);
  }
}
