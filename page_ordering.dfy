/**
 * Page-ordering rules (day05/day05.py): checking an update (a list of page
 * numbers) against pairwise precedence rules, repairing it in place by
 * swapping the pages of violated rules, and summing middle pages.
 */
module PageOrdering {
  import opened Wrappers

  /** A rule `before|after`: when both pages occur in an update, the first
      occurrence of `before` must precede the first occurrence of `after`. */
  datatype Rule = Rule(before: int, after: int)

  /** Python's `list.index`: the position of the first occurrence of `x`,
      or `None` where Python raises `ValueError`. */
  function IndexOf(s: seq<int>, x: int): (r: Option<nat>)
    ensures r.None? <==> x !in s
    ensures r.Some? ==> r.value < |s| && s[r.value] == x
  {
    if |s| == 0 then None
    else if s[0] == x then Some(0)
    else
      match IndexOf(s[1..], x)
      case None => None
      case Some(k) => Some(k + 1)
  }

  /** `IndexOf` finds the first occurrence: no earlier position holds `x`. */
  lemma {:induction false} IndexOfIsFirst(s: seq<int>, x: int)
    requires x in s
    ensures x !in s[..IndexOf(s, x).value]
  {
    if s[0] != x {
      IndexOfIsFirst(s[1..], x);
      assert s[..IndexOf(s, x).value] == [s[0]] + s[1..][..IndexOf(s[1..], x).value];
    }
  }

  /** Rule `r` is broken by `s`: both pages occur and the first `before`
      stands after the first `after`. A rule with a missing page is inert. */
  predicate Violated(s: seq<int>, r: Rule)
  {
    var i0, i1 := IndexOf(s, r.before), IndexOf(s, r.after);
    i0.Some? && i1.Some? && i0.value > i1.value
  }

  /** The update respects every rule. */
  predicate Ordered(s: seq<int>, rules: seq<Rule>)
  {
    forall k :: 0 <= k < |rules| ==> !Violated(s, rules[k])
  }

  /** Python's `entry in rule` on the rule's pair. */
  predicate Mentions(r: Rule, x: int)
  {
    x == r.before || x == r.after
  }

  /** update_is_correct: for every entry of the update, every rule that
      mentions the entry is checked through the two first-occurrence indices;
      the `ValueError` of a missing page is swallowed. */
  method UpdateIsCorrect(update: seq<int>, rules: seq<Rule>) returns (ok: bool)
    ensures ok <==> Ordered(update, rules)
    ensures |rules| == 0 || |update| == 0 ==> ok
  {
    var e := 0;
    while e < |update|
      invariant 0 <= e <= |update|
      invariant forall p, k :: 0 <= p < e && 0 <= k < |rules| && Mentions(rules[k], update[p]) ==>
                                 !Violated(update, rules[k])
    {
      var entry := update[e];
      var k := 0;
      while k < |rules|
        invariant 0 <= k <= |rules|
        invariant forall p, k' :: 0 <= p < e && 0 <= k' < |rules| && Mentions(rules[k'], update[p]) ==>
                                    !Violated(update, rules[k'])
        invariant forall k' :: 0 <= k' < k && Mentions(rules[k'], entry) ==> !Violated(update, rules[k'])
      {
        var rule := rules[k];
        if Mentions(rule, entry) {
          match (IndexOf(update, rule.before), IndexOf(update, rule.after))
          case (Some(i0), Some(i1)) =>
            if i0 > i1 {
              assert Violated(update, rule);
              return false;
            }
          case _ =>
        }
        k := k + 1;
      }
      e := e + 1;
    }
    forall k | 0 <= k < |rules| ensures !Violated(update, rules[k]) {
      if rules[k].before in update {
        var p := IndexOf(update, rules[k].before).value;
        assert Mentions(rules[k], update[p]);
      }
    }
    return true;
  }

  /** One step of the inner loop of correct_update: when `r` is violated,
      `before` is written where the first `after` was and `after` where the
      first `before` was. */
  function RepairStep(s: seq<int>, r: Rule): seq<int>
  {
    if Violated(s, r) then
      s[IndexOf(s, r.after).value := r.before][IndexOf(s, r.before).value := r.after]
    else s
  }

  /** A repair step only exchanges two pages. */
  lemma RepairStepPermutes(s: seq<int>, r: Rule)
    ensures |RepairStep(s, r)| == |s| && multiset(RepairStep(s, r)) == multiset(s)
  {
    if Violated(s, r) {
      var i0, i1 := IndexOf(s, r.before).value, IndexOf(s, r.after).value;
      assert RepairStep(s, r) == s[i1 := s[i0]][i0 := s[i1]];
    }
  }

  /** `x` found at `i` is found no later than `i`. */
  lemma {:induction false} IndexOfAtMost(s: seq<int>, x: int, i: nat)
    requires i < |s| && s[i] == x
    ensures IndexOf(s, x).Some? && IndexOf(s, x).value <= i
  {
    if s[0] != x {
      IndexOfAtMost(s[1..], x, i - 1);
    }
  }

  /** `x` absent from the first `i` entries is found no earlier than `i`. */
  lemma {:induction false} IndexOfBeyond(s: seq<int>, x: int, i: nat)
    requires x in s && i <= |s| && x !in s[..i]
    ensures IndexOf(s, x).Some? && IndexOf(s, x).value >= i
  {
    if i > 0 {
      assert s[0] == s[..i][0];
      assert s[1..][..i - 1] == s[..i][1..];
      IndexOfBeyond(s[1..], x, i - 1);
    }
  }

  /** After its repair step the rule holds. */
  lemma RepairStepFixesRule(s: seq<int>, r: Rule)
    ensures !Violated(RepairStep(s, r), r)
  {
    var t := RepairStep(s, r);
    if Violated(s, r) {
      var i0 := IndexOf(s, r.before).value;
      var i1 := IndexOf(s, r.after).value;
      IndexOfIsFirst(s, r.after);
      assert t[i1] == r.before && t[i0] == r.after;
      assert t[..i1 + 1] == s[..i1] + [r.before];
      IndexOfAtMost(t, r.before, i1);
      IndexOfBeyond(t, r.after, i1 + 1);
    }
  }

  /** One full pass of the inner `for rule in rules` loop, the rules applied
      in order, each to the list as left by the previous ones. */
  function RepairPass(s: seq<int>, rules: seq<Rule>): seq<int>
    decreases |rules|
  {
    if |rules| == 0 then s
    else RepairStep(RepairPass(s, rules[..|rules| - 1]), rules[|rules| - 1])
  }

  /** A pass is a sequence of exchanges, hence a permutation. */
  lemma {:induction false} RepairPassPermutes(s: seq<int>, rules: seq<Rule>)
    ensures |RepairPass(s, rules)| == |s| && multiset(RepairPass(s, rules)) == multiset(s)
    decreases |rules|
  {
    if |rules| > 0 {
      RepairPassPermutes(s, rules[..|rules| - 1]);
      RepairStepPermutes(RepairPass(s, rules[..|rules| - 1]), rules[|rules| - 1]);
    }
  }

  /** correct_update on values: passes are made while the update is not
      ordered; `None` when `passes` passes did not suffice (the source would
      keep looping, forever if the rules are cyclic). */
  function Repair(s: seq<int>, rules: seq<Rule>, passes: nat): Option<seq<int>>
    decreases passes
  {
    if Ordered(s, rules) then Some(s)
    else if passes == 0 then None
    else Repair(RepairPass(s, rules), rules, passes - 1)
  }

  /** A finished repair yields an ordered permutation of the update. */
  lemma {:induction false} RepairSound(s: seq<int>, rules: seq<Rule>, passes: nat)
    ensures Repair(s, rules, passes).Some? ==> Ordered(Repair(s, rules, passes).value, rules)
    ensures Repair(s, rules, passes).Some? ==>
      |Repair(s, rules, passes).value| == |s| &&
      multiset(Repair(s, rules, passes).value) == multiset(s)
    decreases passes
  {
    if !Ordered(s, rules) && passes > 0 {
      RepairPassPermutes(s, rules);
      RepairSound(RepairPass(s, rules), rules, passes - 1);
    }
  }

  /** An update that already respects the rules is returned unchanged, with
      no pass made, whatever the pass budget. */
  lemma RepairOfOrderedIsIdentity(s: seq<int>, rules: seq<Rule>, passes: nat)
    requires Ordered(s, rules)
    ensures Repair(s, rules, passes) == Some(s)
  {
  }

  /** One step of the `while not update_is_correct` loop: an update that
      is not ordered costs one pass, or fails when no pass is left. */
  lemma RepairUnroll(s: seq<int>, rules: seq<Rule>, passes: nat)
    requires !Ordered(s, rules)
    ensures passes == 0 ==> Repair(s, rules, passes).None?
    ensures passes > 0 ==> Repair(s, rules, passes) == Repair(RepairPass(s, rules), rules, passes - 1)
  {
  }

  /** A larger pass budget never changes a repair that already finished. */
  lemma {:induction false} RepairMonotone(s: seq<int>, rules: seq<Rule>, passes: nat, more: nat)
    requires passes <= more
    requires Repair(s, rules, passes).Some?
    ensures Repair(s, rules, more) == Repair(s, rules, passes)
    decreases passes
  {
    if !Ordered(s, rules) {
      RepairUnroll(s, rules, passes);
      RepairUnroll(s, rules, more);
      RepairMonotone(RepairPass(s, rules), rules, passes - 1, more - 1);
    }
  }

  /** One pass of correct_update (its `for rule in rules` loop): each
      violated rule has its two pages exchanged in place. */
  method RepairPassInPlace(update: array<int>, rules: seq<Rule>)
    modifies update
    ensures update[..] == RepairPass(old(update[..]), rules)
  {
    var i := 0;
    while i < |rules|
      invariant 0 <= i <= |rules|
      invariant update[..] == RepairPass(old(update[..]), rules[..i])
    {
      var rule := rules[i];
      var current := update[..];
      assert rules[..i + 1][..i] == rules[..i];
      if rule.before in current && rule.after in current {
        if IndexOf(current, rule.before).value > IndexOf(current, rule.after).value {
          var index1 := IndexOf(current, rule.before).value;
          var index2 := IndexOf(current, rule.after).value;
          update[index2] := rule.before;
          update[index1] := rule.after;
          assert update[..] == current[index2 := rule.before][index1 := rule.after];
        }
      }
      i := i + 1;
    }
    assert rules[..|rules|] == rules;
  }

  /** correct_update: repairs `update` in place and leaves the repaired list
      in the caller's array; `done` is false when the pass budget ran out. */
  method CorrectUpdate(update: array<int>, rules: seq<Rule>, passes: nat) returns (done: bool)
    modifies update
    ensures done <==> Repair(old(update[..]), rules, passes).Some?
    ensures done ==> update[..] == Repair(old(update[..]), rules, passes).value
    ensures multiset(update[..]) == multiset(old(update[..]))
  {
    var left := passes;
    var ok := UpdateIsCorrect(update[..], rules);
    while !ok
      invariant Repair(update[..], rules, left) == Repair(old(update[..]), rules, passes)
      invariant ok <==> Ordered(update[..], rules)
      invariant multiset(update[..]) == multiset(old(update[..]))
      decreases left
    {
      ghost var current := update[..];
      RepairUnroll(current, rules, left);
      if left == 0 {
        return false;
      }
      left := left - 1;
      RepairPassPermutes(current, rules);
      RepairPassInPlace(update, rules);
      ok := UpdateIsCorrect(update[..], rules);
    }
    RepairOfOrderedIsIdentity(update[..], rules, left);
    return true;
  }

  /** The middle page `update[floor(len / 2)]`. */
  function Middle(s: seq<int>): int
    requires |s| > 0
  {
    s[|s| / 2]
  }

  /** Sum of the middle pages of exactly the updates that are ordered. */
  function SumMiddleOrdered(updates: seq<seq<int>>, rules: seq<Rule>): int
    requires forall i :: 0 <= i < |updates| ==> |updates[i]| > 0
  {
    if |updates| == 0 then 0
    else
      var last := updates[|updates| - 1];
      SumMiddleOrdered(updates[..|updates| - 1], rules) + (if Ordered(last, rules) then Middle(last) else 0)
  }

  /** get_total_sum_middle_correct_updates. An empty update is always
      correct and indexing its middle raises, so every update must be
      non-empty. */
  method GetTotalSumMiddleCorrectUpdates(updates: seq<seq<int>>, rules: seq<Rule>) returns (total: int)
    requires forall i :: 0 <= i < |updates| ==> |updates[i]| > 0
    ensures total == SumMiddleOrdered(updates, rules)
  {
    total := 0;
    var i := 0;
    while i < |updates|
      invariant 0 <= i <= |updates|
      invariant total == SumMiddleOrdered(updates[..i], rules)
    {
      assert updates[..i + 1][..i] == updates[..i];
      var ok := UpdateIsCorrect(updates[i], rules);
      if ok {
        total := total + Middle(updates[i]);
      }
      i := i + 1;
    }
    assert updates[..|updates|] == updates;
  }

  /** What one update adds to the part-2 sum: nothing when it is already
      ordered, else the middle page of its repaired version; `None` when the
      repair ran out of passes. */
  function RepairedMiddle(u: seq<int>, rules: seq<Rule>, passes: nat): Option<int>
  {
    if Ordered(u, rules) then Some(0)
    else
      match Repair(u, rules, passes)
      case None => None
      case Some(fixed) =>
        RepairSound(u, rules, passes);
        Some(Middle(fixed))
  }

  /** The contribution of each update to the part-2 sum, in order. */
  function RepairedMiddles(us: seq<seq<int>>, rules: seq<Rule>, passes: nat): (r: seq<Option<int>>)
    ensures |r| == |us|
  {
    if |us| == 0 then []
    else RepairedMiddles(us[..|us| - 1], rules, passes) + [RepairedMiddle(us[|us| - 1], rules, passes)]
  }

  lemma {:induction false} RepairedMiddlesAt(us: seq<seq<int>>, rules: seq<Rule>, passes: nat, k: nat)
    requires k < |us|
    ensures RepairedMiddles(us, rules, passes)[k] == RepairedMiddle(us[k], rules, passes)
    decreases |us|
  {
    if k < |us| - 1 {
      RepairedMiddlesAt(us[..|us| - 1], rules, passes, k);
    }
  }

  /** Sum of a list of partial values; `None` as soon as one is missing. */
  function SumSome(ms: seq<Option<int>>, n: nat): Option<int>
    requires n <= |ms|
  {
    if n == 0 then Some(0)
    else
      match (SumSome(ms, n - 1), ms[n - 1])
      case (Some(sum), Some(m)) => Some(sum + m)
      case _ => None
  }

  /** Sum of the middle pages of the repaired versions of exactly the updates
      that are not ordered; `None` when some repair ran out of passes. */
  function SumMiddleRepaired(updates: seq<seq<int>>, rules: seq<Rule>, passes: nat): Option<int>
  {
    SumSome(RepairedMiddles(updates, rules, passes), |updates|)
  }

  /** The body of the loop of get_total_sum_middle_corrected_updates for one
      update: an incorrect update is repaired in place and the middle page of
      the repaired list is returned; a correct one adds nothing. */
  method CorrectStoredUpdate(update: array<int>, rules: seq<Rule>, passes: nat) returns (middle: Option<int>)
    modifies update
    ensures middle == RepairedMiddle(old(update[..]), rules, passes)
    ensures middle.Some? ==> Repair(old(update[..]), rules, passes) == Some(update[..])
  {
    var ok := UpdateIsCorrect(update[..], rules);
    if ok {
      return Some(0);
    }
    var done := CorrectUpdate(update, rules, passes);
    if !done {
      return None;
    }
    return Some(update[update.Length / 2]);
  }

  /** One iteration of get_total_sum_middle_corrected_updates, on the
      update at position `i` of `updates`: the list is put in an array,
      corrected in place, and both the middle page it contributes and the
      list the correction leaves are returned. */
  method CorrectUpdateAt(updates: seq<seq<int>>, i: nat, rules: seq<Rule>, passes: nat)
    returns (middle: Option<int>, fixed: seq<int>)
    requires i < |updates|
    ensures middle == RepairedMiddles(updates, rules, passes)[i]
    ensures middle.Some? ==> Repairs(updates, rules, passes)[i] == Some(fixed)
  {
    var update := new int[|updates[i]|](k requires 0 <= k < |updates[i]| => updates[i][k]);
    assert update[..] == updates[i];
    RepairedMiddlesAt(updates, rules, passes, i);
    RepairsAt(updates, rules, passes, i);
    middle := CorrectStoredUpdate(update, rules, passes);
    fixed := update[..];
  }

  /** get_total_sum_middle_corrected_updates: every incorrect update is
      repaired and the middle pages of the repaired lists are added up;
      `corrected` holds the lists as the repair leaves them. */
  method GetTotalSumMiddleCorrectedUpdates(updates: seq<seq<int>>, rules: seq<Rule>, passes: nat)
    returns (total: Option<int>, corrected: seq<seq<int>>)
    ensures CorrectedOutcome(updates, corrected, total, rules, passes)
  {
    ghost var middles := RepairedMiddles(updates, rules, passes);
    ghost var repaired := Repairs(updates, rules, passes);
    var sum := 0;
    corrected := [];
    for i := 0 to |updates|
      invariant |corrected| == i
      invariant SumSome(middles, i) == Some(sum)
      invariant forall k :: 0 <= k < i ==> repaired[k] == Some(corrected[k])
    {
      var middle, fixed := CorrectUpdateAt(updates, i, rules, passes);
      if middle.None? {
        SumSomeNone(middles, i, |updates|);
        return None, corrected;
      }
      sum := sum + middle.value;
      corrected := corrected + [fixed];
    }
    RepairedAllFromRepairs(updates, corrected, repaired, rules, passes);
    return Some(sum), corrected;
  }

  /** The outcome of repairing each update. */
  ghost function Repairs(us: seq<seq<int>>, rules: seq<Rule>, passes: nat): (r: seq<Option<seq<int>>>)
    ensures |r| == |us|
  {
    if |us| == 0 then [] else Repairs(us[..|us| - 1], rules, passes) + [Repair(us[|us| - 1], rules, passes)]
  }

  lemma {:induction false} RepairsAt(us: seq<seq<int>>, rules: seq<Rule>, passes: nat, k: nat)
    requires k < |us|
    ensures Repairs(us, rules, passes)[k] == Repair(us[k], rules, passes)
    decreases |us|
  {
    if k < |us| - 1 {
      RepairsAt(us[..|us| - 1], rules, passes, k);
    }
  }

  /** What get_total_sum_middle_corrected_updates leaves behind, given the
      updates `us` it was handed and the lists `fixed` it left in their place:
      `total` is the part-2 sum, and when it is present every list was
      replaced by its finished repair. */
  predicate CorrectedOutcome(us: seq<seq<int>>, fixed: seq<seq<int>>, total: Option<int>, rules: seq<Rule>, passes: nat)
  {
    total == SumMiddleRepaired(us, rules, passes) &&
    (total.Some? ==> RepairedAll(us, fixed, rules, passes))
  }

  lemma RepairedAllFromRepairs(us: seq<seq<int>>, fixed: seq<seq<int>>, repaired: seq<Option<seq<int>>>,
                               rules: seq<Rule>, passes: nat)
    requires repaired == Repairs(us, rules, passes) && |fixed| == |us|
    requires forall k :: 0 <= k < |us| ==> repaired[k] == Some(fixed[k])
    ensures RepairedAll(us, fixed, rules, passes)
  {
    forall k | 0 <= k < |us| ensures Repair(us[k], rules, passes) == Some(fixed[k]) {
      RepairsAt(us, rules, passes, k);
    }
  }

  /** One missing value makes the whole sum missing. */
  lemma {:induction false} SumSomeNone(ms: seq<Option<int>>, i: nat, n: nat)
    requires i < n <= |ms| && ms[i].None?
    ensures SumSome(ms, n).None?
  {
    if i < n - 1 {
      SumSomeNone(ms, i, n - 1);
    }
  }

  /** The sum of a prefix does not look beyond it. */
  lemma {:induction false} SumSomePrefix(ms: seq<Option<int>>, more: seq<Option<int>>, n: nat)
    requires n <= |ms|
    ensures SumSome(ms + more, n) == SumSome(ms, n)
  {
    if n > 0 {
      SumSomePrefix(ms, more, n - 1);
      assert (ms + more)[n - 1] == ms[n - 1];
    }
  }

  /** `fixed[k]` is the finished repair of `us[k]`, for every `k`. */
  predicate RepairedAll(us: seq<seq<int>>, fixed: seq<seq<int>>, rules: seq<Rule>, passes: nat)
  {
    |us| == |fixed| && forall k :: 0 <= k < |us| ==> Repair(us[k], rules, passes) == Some(fixed[k])
  }

  lemma RepairedAllPermutes(us: seq<seq<int>>, fixed: seq<seq<int>>, rules: seq<Rule>, passes: nat)
    requires RepairedAll(us, fixed, rules, passes)
    ensures forall k :: 0 <= k < |us| ==> multiset(fixed[k]) == multiset(us[k])
  {
    forall k | 0 <= k < |us| ensures multiset(fixed[k]) == multiset(us[k]) {
      RepairSound(us[k], rules, passes);
    }
  }

  /** The part-2 sum over a non-empty list is the sum over all but the last
      update plus the last update's contribution. */
  lemma SumMiddleRepairedLast(us: seq<seq<int>>, rules: seq<Rule>, passes: nat)
    requires |us| > 0
    ensures var n := |us| - 1;
      SumMiddleRepaired(us, rules, passes).Some? <==>
        SumMiddleRepaired(us[..n], rules, passes).Some? && RepairedMiddle(us[n], rules, passes).Some?
    ensures var n := |us| - 1;
      SumMiddleRepaired(us, rules, passes).Some? ==>
        SumMiddleRepaired(us, rules, passes).value ==
        SumMiddleRepaired(us[..n], rules, passes).value + RepairedMiddle(us[n], rules, passes).value
  {
    var n := |us| - 1;
    SumSomePrefix(RepairedMiddles(us[..n], rules, passes), [RepairedMiddle(us[n], rules, passes)], n);
  }

  /** What a single finished repair contributes: the repaired list is
      non-empty and ordered, and its middle page is what part 1 counts for
      the original plus what part 2 counts for it. */
  lemma RepairedContribution(u: seq<int>, fixed: seq<int>, rules: seq<Rule>, passes: nat)
    requires |u| > 0 && Repair(u, rules, passes) == Some(fixed)
    ensures |fixed| > 0 && Ordered(fixed, rules)
    ensures RepairedMiddle(u, rules, passes).Some?
    ensures Middle(fixed) == (if Ordered(u, rules) then Middle(u) else 0) + RepairedMiddle(u, rules, passes).value
  {
    RepairSound(u, rules, passes);
  }

  /** After part 2 has repaired the updates, every one of them is ordered,
      so part 1 run on the repaired lists adds up every middle page: the
      first sum on the repaired lists is part 1 plus part 2 on the originals. */
  lemma {:induction false} PartsAfterRepair(us: seq<seq<int>>, fixed: seq<seq<int>>, rules: seq<Rule>, passes: nat)
    requires forall i :: 0 <= i < |us| ==> |us[i]| > 0
    requires RepairedAll(us, fixed, rules, passes)
    ensures forall i :: 0 <= i < |fixed| ==> |fixed[i]| > 0 && Ordered(fixed[i], rules)
    ensures SumMiddleRepaired(us, rules, passes).Some?
    ensures SumMiddleOrdered(fixed, rules)
         == SumMiddleOrdered(us, rules) + SumMiddleRepaired(us, rules, passes).value
    decreases |us|
  {
    forall i | 0 <= i < |fixed| ensures |fixed[i]| > 0 && Ordered(fixed[i], rules) {
      RepairedContribution(us[i], fixed[i], rules, passes);
    }
    if |us| > 0 {
      var n := |us| - 1;
      assert RepairedAll(us[..n], fixed[..n], rules, passes);
      PartsAfterRepair(us[..n], fixed[..n], rules, passes);
      RepairedContribution(us[n], fixed[n], rules, passes);
      SumMiddleRepairedLast(us, rules, passes);
    }
  }
}
