/** Reactor reports: a report (a list of levels) is safe when its levels
    change by 1 to 3 at every step, always in the same direction. The
    dampener also accepts a report that becomes safe once one level is
    dropped. */
module ReportSafety {
  import opened Wrappers
  import opened Collections

  /** The change from level `k` to level `k + 1`. */
  function Change(line: seq<int>, k: nat): int
    requires k + 1 < |line|
  {
    line[k + 1] - line[k]
  }

  /** The differences between neighbouring levels (`line[1:] - line[:-1]`). */
  function Diffs(line: seq<int>): (d: seq<int>)
    ensures |d| == if |line| < 2 then 0 else |line| - 1
    ensures forall k :: 0 <= k < |d| ==> d[k] == Change(line, k)
  {
    if |line| < 2 then [] else seq(|line| - 1, k requires 0 <= k < |line| - 1 => Change(line, k))
  }

  function Abs(x: int): nat
  {
    if x < 0 then -x else x
  }

  /** numpy's sign: -1, 0 or 1. */
  function Sign(x: int): int
  {
    if x < 0 then -1 else if x > 0 then 1 else 0
  }

  function AbsAll(s: seq<int>): (r: seq<int>)
    ensures |r| == |s| && forall k :: 0 <= k < |s| ==> r[k] == Abs(s[k])
  {
    seq(|s|, k requires 0 <= k < |s| => Abs(s[k]))
  }

  function SignAll(s: seq<int>): (r: seq<int>)
    ensures |r| == |s| && forall k :: 0 <= k < |s| ==> r[k] == Sign(s[k])
  {
    seq(|s|, k requires 0 <= k < |s| => Sign(s[k]))
  }

  /** Python's `max` of a non-empty list. */
  function Max(s: seq<int>): (m: int)
    requires |s| > 0
    ensures (forall k :: 0 <= k < |s| ==> s[k] <= m) && m in s
  {
    if |s| == 1 then s[0]
    else
      var rest := Max(s[1..]);
      assert rest in s;
      if s[0] >= rest then s[0] else rest
  }

  /** Python's `min` of a non-empty list. */
  function Min(s: seq<int>): (m: int)
    requires |s| > 0
    ensures (forall k :: 0 <= k < |s| ==> m <= s[k]) && m in s
  {
    if |s| == 1 then s[0]
    else
      var rest := Min(s[1..]);
      assert rest in s;
      if s[0] <= rest then s[0] else rest
  }

  /** At least two levels, and every change is 1 to 3 up, or every change
      is 1 to 3 down. */
  predicate Safe(line: seq<int>)
  {
    |line| >= 2 &&
    (   (forall k :: 0 <= k < |line| - 1 ==> 1 <= Change(line, k) <= 3)
     || (forall k :: 0 <= k < |line| - 1 ==> -3 <= Change(line, k) <= -1))
  }

  /** The same, stated on the differences. */
  predicate SafeSteps(d: seq<int>)
  {
    (forall k :: 0 <= k < |d| ==> 1 <= d[k] <= 3) || (forall k :: 0 <= k < |d| ==> -3 <= d[k] <= -1)
  }

  lemma SafeBySteps(line: seq<int>)
    requires |line| >= 2
    ensures Safe(line) <==> SafeSteps(Diffs(line))
  {
  }

  /** The largest step size is above 3 exactly when some step is. */
  lemma MaxAbsTest(d: seq<int>)
    requires |d| > 0
    ensures Max(AbsAll(d)) > 3 <==> exists k :: 0 <= k < |d| && Abs(d[k]) > 3
  {
    var a := AbsAll(d);
    if Max(a) > 3 {
      var k :| 0 <= k < |a| && a[k] == Max(a);
    }
  }

  /** The smallest step size is 0 exactly when some step is 0. */
  lemma MinAbsTest(d: seq<int>)
    requires |d| > 0
    ensures Min(AbsAll(d)) <= 0 <==> exists k :: 0 <= k < |d| && d[k] == 0
  {
    var a := AbsAll(d);
    if Min(a) <= 0 {
      var k :| 0 <= k < |a| && a[k] == Min(a);
    }
  }

  /** With no step of 0, the signs agree exactly when all steps go up or
      all go down. */
  lemma SignTest(d: seq<int>)
    requires |d| > 0 && forall k :: 0 <= k < |d| ==> d[k] != 0
    ensures Max(SignAll(d)) == Min(SignAll(d)) <==>
      (forall k :: 0 <= k < |d| ==> d[k] > 0) || (forall k :: 0 <= k < |d| ==> d[k] < 0)
  {
    var g := SignAll(d);
    if Max(g) == Min(g) {
      if g[0] == 1 {
        forall k | 0 <= k < |d| ensures d[k] > 0 {
          assert Min(g) <= g[k] <= Max(g);
        }
      } else {
        forall k | 0 <= k < |d| ensures d[k] < 0 {
          assert Min(g) <= g[k] <= Max(g);
        }
      }
    } else {
      var i :| 0 <= i < |g| && g[i] == Max(g);
      var j :| 0 <= j < |g| && g[j] == Min(g);
      assert Sign(d[i]) != Sign(d[j]);
    }
  }

  /** The three tests of is_safe_report decide whether the steps are safe. */
  lemma StepTests(d: seq<int>)
    requires |d| > 0
    ensures (Max(AbsAll(d)) <= 3 && Min(AbsAll(d)) > 0 && Max(SignAll(d)) == Min(SignAll(d))) <==> SafeSteps(d)
  {
    MaxAbsTest(d);
    MinAbsTest(d);
    if Max(AbsAll(d)) <= 3 && Min(AbsAll(d)) > 0 {
      SignTest(d);
    }
  }

  /** is_safe_report: reject a step larger than 3, then a step of 0, then
      steps of both signs. A report of fewer than two levels has no steps,
      and `max` of no steps raises. */
  function IsSafeReport(line: seq<int>): (r: Option<bool>)
    ensures r.None? <==> |line| < 2
    ensures r.Some? ==> (r.value <==> Safe(line))
  {
    if |line| < 2 then None
    else
      var lineDiff := Diffs(line);
      var diffSigns := SignAll(lineDiff);
      StepTests(lineDiff);
      SafeBySteps(line);
      if Max(AbsAll(lineDiff)) > 3 then Some(false)
      else if Min(AbsAll(lineDiff)) <= 0 then Some(false)
      else if Max(diffSigns) != Min(diffSigns) then Some(false)
      else Some(true)
  }

  /** Two equal neighbouring levels make a report unsafe. */
  lemma EqualNeighboursUnsafe(line: seq<int>, k: nat)
    requires k + 1 < |line| && line[k] == line[k + 1]
    ensures IsSafeReport(line) == Some(false)
  {
    assert Change(line, k) == 0;
  }

  /** A report going up read backwards goes down, and the other way round,
      by the same steps. */
  lemma SafeReversed(line: seq<int>)
    requires Safe(line)
    ensures Safe(Reverse(line))
  {
    var rev, n := Reverse(line), |line|;
    forall k | 0 <= k < n - 1
      ensures Change(rev, k) == -Change(line, n - 2 - k)
    {
      assert rev[k] == line[n - 1 - k] && rev[k + 1] == line[n - 2 - k];
    }
  }

  /** A report is safe exactly when its reverse is. */
  lemma ReverseKeepsSafety(line: seq<int>)
    ensures IsSafeReport(Reverse(line)) == IsSafeReport(line)
  {
    if Safe(line) {
      SafeReversed(line);
    }
    if Safe(Reverse(line)) {
      SafeReversed(Reverse(line));
      ReverseReverse(line);
    }
  }

  /** The report with the level at `k` dropped (`line[0:k] + line[k+1:]`). */
  function RemoveAt(line: seq<int>, k: nat): (r: seq<int>)
    requires k < |line|
    ensures |r| == |line| - 1
    ensures forall i :: 0 <= i < |r| ==> r[i] == (if i < k then line[i] else line[i + 1])
  {
    line[..k] + line[k + 1..]
  }

  /** The dampener's `for indx` loop from index `from` on: the first
      removal that leaves a safe report wins; a removal that leaves fewer
      than two levels raises. */
  function SafeAfterRemovalFrom(line: seq<int>, from: nat): Option<bool>
    requires from <= |line|
    decreases |line| - from
  {
    if from == |line| then Some(false)
    else match IsSafeReport(RemoveAt(line, from))
      case None => None
      case Some(true) => Some(true)
      case Some(false) => SafeAfterRemovalFrom(line, from + 1)
  }

  /** Whether the dampened pass counts a report. */
  function DampenedSafe(line: seq<int>): Option<bool>
  {
    match IsSafeReport(line)
    case None => None
    case Some(true) => Some(true)
    case Some(false) => SafeAfterRemovalFrom(line, 0)
  }

  /** The removal loop raises exactly when it has a removal left to make
      on a report of one or two levels, which leaves fewer than two. */
  lemma {:induction false} SafeAfterRemovalFromRaises(line: seq<int>, from: nat)
    requires from <= |line|
    ensures SafeAfterRemovalFrom(line, from).None? <==> from < |line| && |line| < 3
    decreases |line| - from
  {
    if from < |line| && |line| >= 3 {
      SafeAfterRemovalFromRaises(line, from + 1);
    }
  }

  /** Otherwise the removal loop succeeds exactly when dropping some level
      at `from` or later leaves a safe report. */
  lemma {:induction false} SafeAfterRemovalFromMeans(line: seq<int>, from: nat)
    requires from <= |line| && SafeAfterRemovalFrom(line, from).Some?
    ensures SafeAfterRemovalFrom(line, from).value <==> exists k :: from <= k < |line| && Safe(RemoveAt(line, k))
    decreases |line| - from
  {
    if from < |line| {
      var here := RemoveAt(line, from);
      if Safe(here) {
        assert IsSafeReport(here) == Some(true);
      } else {
        assert IsSafeReport(here) == Some(false);
        SafeAfterRemovalFromMeans(line, from + 1);
        if exists k :: from <= k < |line| && Safe(RemoveAt(line, k)) {
          var k :| from <= k < |line| && Safe(RemoveAt(line, k));
          assert k != from;
        }
      }
    }
  }

  /** The dampener counts a report exactly when it is safe or one removal
      makes it safe; it raises on a report of fewer than two levels, and on
      an unsafe report of two, whose removals leave a single level. */
  lemma DampenedSafeMeans(line: seq<int>)
    ensures DampenedSafe(line).None? <==> |line| < 2 || (|line| == 2 && !Safe(line))
    ensures DampenedSafe(line).Some? ==>
      (DampenedSafe(line).value <==> Safe(line) || exists k :: 0 <= k < |line| && Safe(RemoveAt(line, k)))
  {
    SafeAfterRemovalFromRaises(line, 0);
    if DampenedSafe(line).Some? && IsSafeReport(line) == Some(false) {
      SafeAfterRemovalFromMeans(line, 0);
    }
  }

  /** How many reports `judge` accepts, counted front to back; none when
      judging some report raises. */
  function CountAccepted(lines: seq<seq<int>>, judge: seq<int> -> Option<bool>): Option<nat>
  {
    if |lines| == 0 then Some(0)
    else match (CountAccepted(lines[..|lines| - 1], judge), judge(lines[|lines| - 1]))
      case (Some(n), Some(ok)) => Some(if ok then n + 1 else n)
      case _ => None
  }

  /** Once judging a report has raised, the count over any longer list
      raises too. */
  lemma {:induction false} CountAcceptedPrefixNone(lines: seq<seq<int>>, judge: seq<int> -> Option<bool>, i: nat)
    requires i <= |lines| && CountAccepted(lines[..i], judge).None?
    ensures CountAccepted(lines, judge).None?
    decreases |lines|
  {
    if i < |lines| {
      assert lines[..|lines| - 1][..i] == lines[..i];
      CountAcceptedPrefixNone(lines[..|lines| - 1], judge, i);
    } else {
      assert lines[..i] == lines;
    }
  }

  /** One more judged report adds one to the count when it is accepted. */
  lemma CountAcceptedStep(lines: seq<seq<int>>, judge: seq<int> -> Option<bool>, i: nat, n: nat, ok: bool)
    requires i < |lines| && CountAccepted(lines[..i], judge) == Some(n) && judge(lines[i]) == Some(ok)
    ensures CountAccepted(lines[..i + 1], judge) == Some(if ok then n + 1 else n)
  {
    assert lines[..i + 1][..i] == lines[..i];
  }

  /** A report whose judging raises makes the whole count raise. */
  lemma CountAcceptedRaises(lines: seq<seq<int>>, judge: seq<int> -> Option<bool>, i: nat)
    requires i < |lines| && judge(lines[i]).None?
    ensures CountAccepted(lines, judge).None?
  {
    assert lines[..i + 1][..i] == lines[..i];
    CountAcceptedPrefixNone(lines, judge, i + 1);
  }

  /** The first loop of the puzzle: count the safe reports. */
  method CountSafeReports(lines: seq<seq<int>>) returns (totalCorrect: Option<nat>)
    ensures totalCorrect == CountAccepted(lines, IsSafeReport)
  {
    var total := 0;
    for i := 0 to |lines|
      invariant CountAccepted(lines[..i], IsSafeReport) == Some(total)
    {
      var safe := IsSafeReport(lines[i]);
      if safe.None? {
        CountAcceptedRaises(lines, IsSafeReport, i);
        return None;
      }
      CountAcceptedStep(lines, IsSafeReport, i, total, safe.value);
      if safe.value {
        total := total + 1;
      }
    }
    assert lines[..|lines|] == lines;
    return Some(total);
  }

  /** The `for indx` loop of the dampener, run on an unsafe report. */
  method SafeAfterOneRemoval(line: seq<int>) returns (r: Option<bool>)
    ensures r == SafeAfterRemovalFrom(line, 0)
  {
    for indx := 0 to |line|
      invariant SafeAfterRemovalFrom(line, indx) == SafeAfterRemovalFrom(line, 0)
    {
      var safe := IsSafeReport(line[0..indx] + line[indx + 1..]);
      if safe.None? {
        return None;
      }
      if safe.value {
        return Some(true);
      }
    }
    return Some(false);
  }

  /** The second loop of the puzzle: count the reports the dampener
      accepts. */
  method CountDampenedReports(lines: seq<seq<int>>) returns (totalCorrect: Option<nat>)
    ensures totalCorrect == CountAccepted(lines, DampenedSafe)
  {
    var total := 0;
    for i := 0 to |lines|
      invariant CountAccepted(lines[..i], DampenedSafe) == Some(total)
    {
      var line := lines[i];
      var verdict := IsSafeReport(line);
      if verdict.Some? && !verdict.value {
        verdict := SafeAfterOneRemoval(line);
      }
      assert verdict == DampenedSafe(lines[i]);
      if verdict.None? {
        CountAcceptedRaises(lines, DampenedSafe, i);
        return None;
      }
      CountAcceptedStep(lines, DampenedSafe, i, total, verdict.value);
      if verdict.value {
        total := total + 1;
      }
    }
    assert lines[..|lines|] == lines;
    return Some(total);
  }

  /** A count never exceeds the number of reports. */
  lemma {:induction false} CountAcceptedBound(lines: seq<seq<int>>, judge: seq<int> -> Option<bool>)
    ensures CountAccepted(lines, judge).Some? ==> CountAccepted(lines, judge).value <= |lines|
  {
    if |lines| > 0 {
      CountAcceptedBound(lines[..|lines| - 1], judge);
    }
  }

  /** Every report the first loop counts, the dampened loop counts too,
      and the dampened loop raises wherever the first one does. */
  lemma {:induction false} DampenedCountsMore(lines: seq<seq<int>>)
    ensures CountAccepted(lines, DampenedSafe).Some? ==>
      CountAccepted(lines, IsSafeReport).Some? &&
      CountAccepted(lines, IsSafeReport).value <= CountAccepted(lines, DampenedSafe).value <= |lines|
  {
    CountAcceptedBound(lines, DampenedSafe);
    if |lines| > 0 {
      DampenedCountsMore(lines[..|lines| - 1]);
    }
  }
}
