/**
 Which progress messages a whole pass publishes: one byte count per chunk written, one percentage
 per chunk compared.
 */
module Reports {
  import opened Bytes
  import opened Streams
  import opened Text
  import opened Progress

  /** The real-byte counts after each chunk of a pass over `total` bytes. */
  function ChunkReports(total: nat): seq<nat> {
    if total == 0 then [] else ChunkReports((total - 1) / CHUNK * CHUNK) + [total]
  }

  /** A pass that stands behind `k` whole chunks and moves up to one chunk further reports once. */
  lemma NextReport(k: nat, done: nat, filled: nat)
    requires done == k * CHUNK && 0 < filled <= CHUNK
    ensures ChunkReports(done + filled) == ChunkReports(done) + [done + filled]
  {
    assert (done + filled - 1) / CHUNK * CHUNK == done;
  }

  /** One report per chunk, strictly growing, chunk-aligned except the last, which is the total. */
  lemma {:induction false} ReportsAscend(total: nat)
    ensures var d := ChunkReports(total);
            && |d| == (total + CHUNK - 1) / CHUNK
            && (total > 0 ==> d[|d| - 1] == total)
            && (forall i :: 0 <= i < |d| ==> 0 < d[i] <= total)
            && (forall i :: 0 <= i < |d| - 1 ==> d[i] == (i + 1) * CHUNK)
            && (forall i, j :: 0 <= i < j < |d| ==> d[i] < d[j])
  {
    if total > 0 {
      var whole := (total - 1) / CHUNK * CHUNK;
      ReportsAscend(whole);
      var d, before := ChunkReports(total), ChunkReports(whole);
      assert |before| == whole / CHUNK == (total - 1) / CHUNK;
      assert d == before + [total];
    }
  }

  function Counts(done: seq<nat>): seq<Message> {
    seq(|done|, i requires 0 <= i < |done| => Count(done[i]))
  }

  lemma CountsAppend(done: seq<nat>, n: nat)
    ensures Counts(done + [n]) == Counts(done) + [Count(n)]
  {
  }

  /** The history grows by the count that the next chunk reaches. */
  lemma NextCount(h: seq<Message>, k: nat, done: nat, reached: nat)
    requires done == k * CHUNK && done < reached <= done + CHUNK
    ensures h + Counts(ChunkReports(reached)) == h + Counts(ChunkReports(done)) + [Count(reached)]
  {
    NextReport(k, done, reached - done);
    CountsAppend(ChunkReports(done), reached);
  }

  /** Percentages of `total`, rounded down. */
  function PercentOf(done: nat, total: nat): nat
    requires total > 0
  {
    done * 100 / total
  }

  /** They are the greatest whole number of hundredths reached. */
  lemma PercentIsFloor(done: nat, total: nat)
    requires total > 0
    ensures PercentOf(done, total) * total <= done * 100 < (PercentOf(done, total) + 1) * total
  {
    var x, q := done * 100, done * 100 / total;
    assert x == q * total + x % total;
    assert (q + 1) * total == q * total + total;
  }

  function Percents(done: seq<nat>, total: nat): seq<Message>
    requires total > 0
  {
    seq(|done|, i requires 0 <= i < |done| => Verifying(PercentOf(done[i], total)))
  }

  lemma PercentsAppend(done: seq<nat>, n: nat, total: nat)
    requires total > 0
    ensures Percents(done + [n], total) == Percents(done, total) + [Verifying(PercentOf(n, total))]
  {
  }

  /** The history grows by the percentage that the next chunk reaches. */
  lemma NextPercent(h: seq<Message>, k: nat, done: nat, reached: nat, total: nat)
    requires done == k * CHUNK && done < reached <= done + CHUNK && total > 0
    ensures h + Percents(ChunkReports(reached), total)
         == h + Percents(ChunkReports(done), total) + [Verifying(PercentOf(reached, total))]
  {
    NextReport(k, done, reached - done);
    PercentsAppend(ChunkReports(done), reached, total);
  }

  lemma PercentGrows(a: nat, b: nat, total: nat)
    requires a <= b && total > 0
    ensures PercentOf(a, total) <= PercentOf(b, total)
  {
    var x, y := a * 100, b * 100;
    var p, q := x / total, y / total;
    assert x == p * total + x % total && y == q * total + y % total;
    if p > q {
      LargerQuotient(total, q, p);
    }
  }

  lemma WholeIsHundred(total: nat)
    requires total > 0
    ensures PercentOf(total, total) == 100
  {
    DivisionIsUnique(total * 100, total, 100, 0);
  }

  lemma PercentInRange(done: nat, total: nat)
    requires done <= total && total > 0
    ensures PercentOf(done, total) <= 100
  {
    PercentGrows(done, total, total);
    WholeIsHundred(total);
  }

  /** The percentages of a whole pass never fall and end at 100. */
  lemma WholePassPercents(total: nat)
    requires total > 0
    ensures var v := Percents(ChunkReports(total), total);
            && v != [] && v[|v| - 1] == Verifying(100)
            && forall i, j :: 0 <= i <= j < |v| ==> v[i].percent <= v[j].percent
  {
    var d := ChunkReports(total);
    ReportsAscend(total);
    WholeIsHundred(total);
    forall i, j | 0 <= i <= j < |d| ensures PercentOf(d[i], total) <= PercentOf(d[j], total) {
      PercentGrows(d[i], d[j], total);
    }
  }

  lemma OrderedJoins(a: seq<Message>, b: seq<Message>)
    requires Ordered(a) && Ordered(b)
    requires forall i, j :: 0 <= i < |a| && 0 <= j < |b| ==> NotAfter(a[i], b[j])
    ensures Ordered(a + b)
  {
    var h := a + b;
    forall i, j | 0 <= i <= j < |h| ensures NotAfter(h[i], h[j]) {
      if i >= |a| {
        assert NotAfter(b[i - |a|], b[j - |a|]);
      } else if j < |a| {
        assert NotAfter(a[i], a[j]);
      }
    }
  }

  predicate Ascending(done: seq<nat>, total: nat) {
    && (forall i :: 0 <= i < |done| ==> done[i] <= total)
    && (forall i, j :: 0 <= i <= j < |done| ==> done[i] <= done[j])
  }

  lemma CountsAreOrdered(total: nat)
    requires total <= U64_MAX
    ensures Ordered(Counts(ChunkReports(total)))
  {
    ReportsAscend(total);
  }

  lemma PercentsAreOrdered(done: seq<nat>, total: nat)
    requires total > 0 && Ascending(done, total)
    ensures Ordered(Percents(done, total))
  {
    var v := Percents(done, total);
    forall i | 0 <= i < |v| ensures Printable(v[i]) {
      PercentInRange(done[i], total);
    }
    forall i, j | 0 <= i <= j < |v| ensures NotAfter(v[i], v[j]) {
      PercentGrows(done[i], done[j], total);
    }
  }

  /** What a verify pass over `total` bytes can have published. */
  ghost predicate VerifyReports(h: seq<Message>, total: nat) {
    h == [] || (total > 0 && exists done: seq<nat> :: Ascending(done, total) && h == Percents(done, total))
  }

  /** The percentages of a verify pass that came to its end. */
  ghost predicate VerifiesTo(h: seq<Message>, total: nat) {
    VerifyReports(h, total) && (total > 0 ==> h != [] && h[|h| - 1] == Verifying(100))
  }

  /** All that a successful run publishes: the stage, the count of each chunk, the percentages of the
      verify pass if there is one, and the end. */
  ghost predicate FullRun(
    before: seq<Message>, after: seq<Message>, stage: seq<Message>, written: nat, verify: bool, begun: seq<Message>,
    total: nat, end: seq<Message>)
  {
    if verify
    then exists percents :: VerifiesTo(percents, total)
                            && after == before + stage + Counts(ChunkReports(written)) + (begun + percents) + end
    else after == before + stage + Counts(ChunkReports(written)) + end
  }

  lemma MarksVerify(marks: seq<nat>, total: nat)
    requires Ascending(marks, total)
    requires total > 0 ==> marks != [] && PercentOf(marks[|marks| - 1], total) == 100
    ensures VerifiesTo(if total == 0 then [] else Percents(marks, total), total)
  {
  }

  lemma VerifiedRun(
    before: seq<Message>, stage: seq<Message>, written: nat, begun: seq<Message>, percents: seq<Message>, total: nat,
    end: seq<Message>)
    requires VerifiesTo(percents, total)
    ensures FullRun(before, before + stage + Counts(ChunkReports(written)) + (begun + percents) + end, stage, written,
                    true, begun, total, end)
  {
  }

  lemma FullRunEnds(
    before: seq<Message>, after: seq<Message>, stage: seq<Message>, written: nat, verify: bool, begun: seq<Message>,
    total: nat, end: seq<Message>, more: seq<Message>)
    requires FullRun(before, after, stage, written, verify, begun, total, end)
    ensures FullRun(before, after + more, stage, written, verify, begun, total, end + more)
  {
    if verify {
      var percents :| VerifiesTo(percents, total)
                      && after == before + stage + Counts(ChunkReports(written)) + (begun + percents) + end;
      assert after + more == before + stage + Counts(ChunkReports(written)) + (begun + percents) + (end + more);
    } else {
      assert after + more == before + stage + Counts(ChunkReports(written)) + (end + more);
    }
  }

  /** Published percentages rise, and the last one is the one remembered. */
  ghost predicate PercentsRise(marks: seq<nat>, total: nat, last: nat)
    requires total > 0
  {
    && (forall i, j :: 0 <= i < j < |marks| ==> PercentOf(marks[i], total) < PercentOf(marks[j], total))
    && last == (if marks == [] then U32_MAX else PercentOf(marks[|marks| - 1], total))
  }

  lemma PercentsRiseOn(marks: seq<nat>, total: nat, last: nat, next: nat)
    requires total > 0 && PercentsRise(marks, total, last)
    requires Ascending(marks, next) && PercentOf(next, total) != last
    ensures PercentsRise(marks + [next], total, PercentOf(next, total))
  {
    var all := marks + [next];
    if marks != [] {
      PercentGrows(marks[|marks| - 1], next, total);
    }
    forall i, j | 0 <= i < j < |all| ensures PercentOf(all[i], total) < PercentOf(all[j], total) {
      if j == |marks| && i < j - 1 {
        assert PercentOf(marks[i], total) < PercentOf(marks[j - 1], total);
      }
    }
  }

  /** Publish the percentage reached unless it is the one published last; `marks` are the counts at
      which one was published since `history`. */
  method PublishPercent(
    progress: ProgressFile, done: nat, total: nat, lastPct: nat, ghost marks: seq<nat>, ghost history: seq<Message>)
    returns (pct: nat, ghost marks': seq<nat>)
    requires 0 < done <= total && Ascending(marks, done) && PercentsRise(marks, total, lastPct)
    requires progress.history == history + Percents(marks, total)
    modifies progress
    ensures progress.history == history + Percents(marks', total)
    ensures Ascending(marks', done) && PercentsRise(marks', total, pct)
    ensures pct == PercentOf(done, total) && marks' != []
    ensures pct * total <= done * 100 < (pct + 1) * total
  {
    PercentInRange(done, total);
    PercentIsFloor(done, total);
    pct, marks' := PercentOf(done, total), marks;
    if pct != lastPct {
      PercentsAppend(marks, done, total);
      PercentsRiseOn(marks, total, lastPct, done);
      progress.Publish(Verifying(pct));
      marks' := marks + [done];
    }
  }

  /** The whole of a run: behind what the file held at the start it counts up chunk by chunk, and then
      may verify and finish. */
  ghost predicate RunHistory(h: seq<Message>, start: seq<Message>, written: nat, verify: seq<Message>, end: seq<Message>)
  {
    h == start + Counts(ChunkReports(written)) + verify + end
  }

  /** The poller relies on this order, whatever the caller put in the file before. */
  lemma RunIsOrdered(
    h: seq<Message>, start: seq<Message>, written: nat, begun: seq<Message>, verify: seq<Message>, total: nat,
    end: seq<Message>)
    requires Preamble(start)
    requires written <= U64_MAX
    requires begun == [] || begun == [Verifying(0)]
    requires VerifyReports(verify, total) && (end == [] || end == [Done])
    requires RunHistory(h, start, written, begun + verify, end)
    ensures Ordered(h)
  {
    CountsAreOrdered(written);
    OrderedJoins(start, Counts(ChunkReports(written)));
    if verify != [] {
      var done: seq<nat> :| Ascending(done, total) && verify == Percents(done, total);
      PercentsAreOrdered(done, total);
    }
    OrderedJoins(begun, verify);
    OrderedJoins(start + Counts(ChunkReports(written)), begun + verify);
    OrderedJoins(start + Counts(ChunkReports(written)) + (begun + verify), end);
  }
}
