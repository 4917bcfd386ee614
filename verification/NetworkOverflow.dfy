/**
 The networked counters in builds that check for overflow, where an addition beyond 32 bits panics: when
 none does, whatever the interleaving, and that the counts are then exact sums.
 */
module NetworkOverflow {
  import opened Common
  import opened NetworkSpec

  /** How far `x` lies above zero, or below it. */
  function Part(x: int, up: bool): nat {
    if up && x > 0 then x else if !up && x < 0 then -x else 0
  }

  function Signed(x: int, up: bool): int {
    if up then x else -x
  }

  function PartSum(deltas: seq<int>, up: bool): nat {
    if deltas == [] then 0 else PartSum(deltas[..|deltas| - 1], up) + Part(deltas[|deltas| - 1], up)
  }

  function PartUnsent(tasks: seq<Task>, fromA: bool, up: bool): nat {
    if tasks == [] then 0
    else
      var t := tasks[|tasks| - 1];
      PartUnsent(tasks[..|tasks| - 1], fromA, up) + if t.fromA == fromA then Part(t.delta, up) else 0
  }

  /** The sum of the positive increments among the first `k` actions, or of the negative ones without their sign. */
  function PartTotal(actions: seq<Action>, k: nat, up: bool): nat
    requires k <= |actions|
  {
    if k == 0 then 0 else PartTotal(actions, k - 1, up) + Part(Added(actions[k - 1]), up)
  }

  predicate Fits32(x: int) {
    -0x8000_0000 <= x < 0x8000_0000
  }

  function CountOf(n: Net, onA: bool): int {
    if onA then n.countA else n.countB
  }

  function QueueFor(n: Net, onA: bool): seq<int> {
    if onA then n.aToB else n.bToA
  }

  /** Adding the queue one by one stays within 32 bits. */
  ghost predicate AddsFit(count: int, queue: seq<int>) {
    forall m :: 0 <= m <= |queue| ==> Fits32(count + Sum(queue[..m]))
  }

  lemma WrapFits(x: int)
    requires Fits32(x)
    ensures Wrap(x) == x
  {
  }

  /** The additions of `increment` and `sync` stay within 32 bits, so a debug build does not panic in them. */
  ghost predicate NoOverflow(n: Net, a: Action) {
    match a
    case Increment(onA, d) => Fits32(CountOf(n, onA) + d)
    case RunTask(_) => true
    case Sync(onA) => AddsFit(CountOf(n, onA), QueueFor(n, onA))
  }

  ghost predicate NoneOverflows(states: seq<Net>, actions: seq<Action>)
    requires |states| == |actions| + 1
  {
    forall k :: 0 <= k < |actions| ==> NoOverflow(states[k], actions[k])
  }

  /** A count and everything still on its way to it, in one direction, are within `limit`. */
  ghost predicate Within(count: int, tasks: seq<Task>, fromA: bool, queue: seq<int>, up: bool, limit: nat) {
    Signed(count, up) + PartUnsent(tasks, fromA, up) + PartSum(queue, up) <= limit
  }

  ghost predicate BothWithin(n: Net, up: bool, limit: nat) {
    Within(n.countA, n.tasks, false, n.aToB, up, limit) && Within(n.countB, n.tasks, true, n.bToA, up, limit)
  }

  lemma {:induction false} PartUnsentConcat(s: seq<Task>, t: seq<Task>, fromA: bool, up: bool)
    ensures PartUnsent(s + t, fromA, up) == PartUnsent(s, fromA, up) + PartUnsent(t, fromA, up)
  {
    if t == [] {
      assert s + t == s;
    } else {
      var n := |t| - 1;
      assert (s + t)[..|s + t| - 1] == s + t[..n];
      PartUnsentConcat(s, t[..n], fromA, up);
    }
  }

  lemma PartUnsentRemoved(tasks: seq<Task>, i: nat, fromA: bool, up: bool)
    requires i < |tasks|
    ensures PartUnsent(tasks, fromA, up)
            == PartUnsent(Removed(tasks, i), fromA, up) + if tasks[i].fromA == fromA then Part(tasks[i].delta, up) else 0
  {
    assert tasks == tasks[..i] + [tasks[i]] + tasks[i + 1..];
    PartUnsentConcat(tasks[..i] + [tasks[i]], tasks[i + 1..], fromA, up);
    PartUnsentConcat(tasks[..i], [tasks[i]], fromA, up);
    PartUnsentConcat(tasks[..i], tasks[i + 1..], fromA, up);
    assert [tasks[i]][..0] == [];
  }

  lemma PartSumAdds(deltas: seq<int>, d: int, up: bool)
    ensures PartSum(deltas + [d], up) == PartSum(deltas, up) + Part(d, up)
  {
    assert (deltas + [d])[..|deltas|] == deltas;
  }

  /** No partial sum of a queue goes further than the queue's part in that direction. */
  lemma {:induction false} PrefixWithinPart(deltas: seq<int>, m: nat, up: bool)
    requires m <= |deltas|
    ensures Signed(Sum(deltas[..m]), up) <= PartSum(deltas, up)
  {
    if deltas != [] {
      var n := |deltas| - 1;
      if m <= n {
        assert deltas[..n][..m] == deltas[..m];
        PrefixWithinPart(deltas[..n], m, up);
      } else {
        assert deltas[..m] == deltas && deltas[..n][..n] == deltas[..n];
        PrefixWithinPart(deltas[..n], n, up);
      }
    }
  }

  /** While the counts fit, adding a batch is exact. */
  lemma {:induction false} AddAllExact(count: int, deltas: seq<int>)
    requires AddsFit(count, deltas)
    ensures AddAll(count, deltas) == count + Sum(deltas)
  {
    if deltas != [] {
      var n := |deltas| - 1;
      forall m | 0 <= m <= n
        ensures Fits32(count + Sum(deltas[..n][..m]))
      {
        assert deltas[..n][..m] == deltas[..m];
      }
      AddAllExact(count, deltas[..n]);
      assert deltas[..|deltas|] == deltas;
      WrapFits(count + Sum(deltas));
    }
  }

  lemma WithinFits(n: Net, a: Action, p: nat, q: nat)
    requires BothWithin(n, true, p) && BothWithin(n, false, q)
    requires p + Part(Added(a), true) < 0x8000_0000 && q + Part(Added(a), false) <= 0x8000_0000
    ensures NoOverflow(n, a)
  {
    if a.Sync? {
      var queue := QueueFor(n, a.onA);
      forall m | 0 <= m <= |queue|
        ensures Fits32(CountOf(n, a.onA) + Sum(queue[..m]))
      {
        PrefixWithinPart(queue, m, true);
        PrefixWithinPart(queue, m, false);
      }
    }
  }

  /** An increment that does not overflow. */
  function Counted(n: Net, onA: bool, d: int): Net {
    if onA then n.(countA := n.countA + d, tasks := n.tasks + [Task(true, d)])
    else n.(countB := n.countB + d, tasks := n.tasks + [Task(false, d)])
  }

  lemma IncrementCounts(n: Net, onA: bool, d: int)
    requires Fits32(CountOf(n, onA) + d)
    ensures Step(n, Increment(onA, d)) == Counted(n, onA, d)
  {
    WrapFits(CountOf(n, onA) + d);
  }

  lemma PartUnsentAdds(tasks: seq<Task>, t: Task, fromA: bool, up: bool)
    ensures PartUnsent(tasks + [t], fromA, up) == PartUnsent(tasks, fromA, up) + if t.fromA == fromA then Part(t.delta, up) else 0
  {
    assert (tasks + [t])[..|tasks|] == tasks;
  }

  lemma UnsentAdds(tasks: seq<Task>, t: Task, fromA: bool)
    ensures Unsent(tasks + [t], fromA) == Unsent(tasks, fromA) + if t.fromA == fromA then t.delta else 0
  {
    assert (tasks + [t])[..|tasks|] == tasks;
  }

  lemma CountedWithin(n: Net, onA: bool, d: int, up: bool, limit: nat)
    requires BothWithin(n, up, limit)
    ensures BothWithin(Counted(n, onA, d), up, limit + Part(d, up))
  {
    PartUnsentAdds(n.tasks, Task(onA, d), true, up);
    PartUnsentAdds(n.tasks, Task(onA, d), false, up);
  }

  lemma RunTaskWithin(n: Net, i: nat, up: bool, limit: nat)
    requires i < |n.tasks| && BothWithin(n, up, limit)
    ensures BothWithin(Step(n, RunTask(i)), up, limit)
  {
    PartUnsentRemoved(n.tasks, i, true, up);
    PartUnsentRemoved(n.tasks, i, false, up);
    PartSumAdds(n.aToB, n.tasks[i].delta, up);
    PartSumAdds(n.bToA, n.tasks[i].delta, up);
  }

  lemma SyncWithin(n: Net, onA: bool, up: bool, limit: nat)
    requires AddsFit(CountOf(n, onA), QueueFor(n, onA)) && BothWithin(n, up, limit)
    ensures BothWithin(Step(n, Sync(onA)), up, limit)
  {
    var count, queue := CountOf(n, onA), QueueFor(n, onA);
    AddAllExact(count, queue);
    PrefixWithinPart(queue, |queue|, up);
    assert queue[..|queue|] == queue;
  }

  lemma StepWithin(n: Net, a: Action, up: bool, limit: nat)
    requires Enabled(n, a) && NoOverflow(n, a) && BothWithin(n, up, limit)
    ensures BothWithin(Step(n, a), up, limit + Part(Added(a), up))
  {
    match a
    case Increment(onA, d) =>
      IncrementCounts(n, onA, d);
      CountedWithin(n, onA, d, up, limit);
    case RunTask(i) => RunTaskWithin(n, i, up, limit);
    case Sync(onA) => SyncWithin(n, onA, up, limit);
  }

  lemma {:induction false} PartTotalGrows(actions: seq<Action>, j: nat, k: nat, up: bool)
    requires j <= k <= |actions|
    ensures PartTotal(actions, j, up) <= PartTotal(actions, k, up)
  {
    if j < k {
      PartTotalGrows(actions, j, k - 1, up);
    }
  }

  /** The positive and the negative increments of a run each total what 32 bits can hold. */
  ghost predicate Moderate(actions: seq<Action>) {
    PartTotal(actions, |actions|, true) < 0x8000_0000 && PartTotal(actions, |actions|, false) <= 0x8000_0000
  }

  /** No count has moved further than the increments so far could take it. */
  ghost predicate Bounded(n: Net, actions: seq<Action>, k: nat)
    requires k <= |actions|
  {
    BothWithin(n, true, PartTotal(actions, k, true)) && BothWithin(n, false, PartTotal(actions, k, false))
  }

  lemma BoundedFits(n: Net, actions: seq<Action>, k: nat)
    requires k < |actions| && Moderate(actions) && Bounded(n, actions, k)
    ensures NoOverflow(n, actions[k])
  {
    PartTotalGrows(actions, k + 1, |actions|, true);
    PartTotalGrows(actions, k + 1, |actions|, false);
    WithinFits(n, actions[k], PartTotal(actions, k, true), PartTotal(actions, k, false));
  }

  lemma BoundedStep(n: Net, actions: seq<Action>, k: nat)
    requires k < |actions| && Moderate(actions) && Bounded(n, actions, k) && Enabled(n, actions[k])
    ensures Bounded(Step(n, actions[k]), actions, k + 1)
  {
    BoundedFits(n, actions, k);
    StepWithin(n, actions[k], true, PartTotal(actions, k, true));
    StepWithin(n, actions[k], false, PartTotal(actions, k, false));
  }

  lemma {:induction false} RunBounded(states: seq<Net>, actions: seq<Action>, k: nat)
    requires IsRun(states, actions) && k <= |actions| && Moderate(actions)
    ensures Bounded(states[k], actions, k)
  {
    if k > 0 {
      RunBounded(states, actions, k - 1);
      assert StepsTo(states[k - 1], actions[k - 1], states[k]);
      BoundedStep(states[k - 1], actions, k - 1);
    }
  }

  /** In a moderate run no addition overflows, whatever the interleaving, and the accounts are exact, not modulo 2^32. */
  lemma ModerateRunIsExact(states: seq<Net>, actions: seq<Action>, k: nat)
    requires IsRun(states, actions) && k <= |actions| && Moderate(actions)
    ensures NoneOverflows(states, actions)
    ensures states[k].countA + Unsent(states[k].tasks, false) + Sum(states[k].aToB) == Total(actions, k)
    ensures states[k].countB + Unsent(states[k].tasks, true) + Sum(states[k].bToA) == Total(actions, k)
    ensures Quiet(states[k]) ==> states[k].countA == states[k].countB == Total(actions, k)
  {
    forall j | 0 <= j < |actions|
      ensures NoOverflow(states[j], actions[j])
    {
      RunBounded(states, actions, j);
      BoundedFits(states[j], actions, j);
    }
    ExactlyConserved(states, actions, k);
  }

  lemma {:induction false} ExactlyConserved(states: seq<Net>, actions: seq<Action>, k: nat)
    requires IsRun(states, actions) && k <= |actions| && NoneOverflows(states, actions)
    ensures ExactAccounts(states[k], Total(actions, k))
  {
    if k > 0 {
      ExactlyConserved(states, actions, k - 1);
      assert StepsTo(states[k - 1], actions[k - 1], states[k]);
      StepIsExact(states[k - 1], actions[k - 1], Total(actions, k - 1));
    }
  }

  ghost predicate ExactAccounts(n: Net, total: int) {
    && n.countA + Unsent(n.tasks, false) + Sum(n.aToB) == total
    && n.countB + Unsent(n.tasks, true) + Sum(n.bToA) == total
  }

  lemma CountedIsExact(n: Net, onA: bool, d: int, total: int)
    requires ExactAccounts(n, total)
    ensures ExactAccounts(Counted(n, onA, d), total + d)
  {
    UnsentAdds(n.tasks, Task(onA, d), true);
    UnsentAdds(n.tasks, Task(onA, d), false);
  }

  lemma RunTaskIsExact(n: Net, i: nat, total: int)
    requires i < |n.tasks| && ExactAccounts(n, total)
    ensures ExactAccounts(Step(n, RunTask(i)), total)
  {
    var d := n.tasks[i].delta;
    UnsentRemoved(n.tasks, i, true);
    UnsentRemoved(n.tasks, i, false);
    SumConcat(n.aToB, [d]);
    SumConcat(n.bToA, [d]);
    assert [d][..0] == [];
  }

  lemma SyncIsExact(n: Net, onA: bool, total: int)
    requires AddsFit(CountOf(n, onA), QueueFor(n, onA)) && ExactAccounts(n, total)
    ensures ExactAccounts(Step(n, Sync(onA)), total)
  {
    AddAllExact(CountOf(n, onA), QueueFor(n, onA));
  }

  lemma StepIsExact(n: Net, a: Action, total: int)
    requires Enabled(n, a) && NoOverflow(n, a) && ExactAccounts(n, total)
    ensures ExactAccounts(Step(n, a), total + Added(a))
  {
    match a
    case Increment(onA, d) =>
      IncrementCounts(n, onA, d);
      CountedIsExact(n, onA, d, total);
    case RunTask(i) => RunTaskIsExact(n, i, total);
    case Sync(onA) => SyncIsExact(n, onA, total);
  }

  ghost predicate Deltas32(actions: seq<Action>) {
    forall k :: 0 <= k < |actions| ==> Fits32(Added(actions[k]))
  }

  ghost predicate TotalsAtMost(actions: seq<Action>, p: nat, q: nat) {
    PartTotal(actions, |actions|, true) <= p && PartTotal(actions, |actions|, false) <= q
  }

  /** Two increments of one peer, the second of which overflows. */
  lemma TwoIncrementsOverflow(d: int, d': int, states: seq<Net>, actions: seq<Action>)
    requires Fits32(d) && Fits32(d') && !Fits32(d + d')
    requires actions == [Increment(true, d), Increment(true, d')]
    requires states == [Initial(), Step(Initial(), actions[0]), Step(Step(Initial(), actions[0]), actions[1])]
    ensures IsRun(states, actions) && Deltas32(actions) && !NoneOverflows(states, actions)
    ensures forall up :: PartTotal(actions, 2, up) == Part(d, up) + Part(d', up)
  {
    assert states[1].countA == d;
    assert !NoOverflow(states[1], actions[1]);
    forall up
      ensures PartTotal(actions, 2, up) == Part(d, up) + Part(d', up)
    {
      assert PartTotal(actions, 1, up) == Part(d, up);
    }
  }

  /**
   Bounds on the totals of the positive and of the negative increments rule out an overflow in every
   interleaving exactly when 32 bits can hold both bounds.
   */
  lemma NoOverflowExactlyWithin32(p: nat, q: nat)
    ensures (forall states, actions :: IsRun(states, actions) && Deltas32(actions) && TotalsAtMost(actions, p, q)
                                       ==> NoneOverflows(states, actions))
            <==> p < 0x8000_0000 && q <= 0x8000_0000
  {
    if p < 0x8000_0000 && q <= 0x8000_0000 {
      forall states, actions | IsRun(states, actions) && Deltas32(actions) && TotalsAtMost(actions, p, q)
        ensures NoneOverflows(states, actions)
      {
        ModerateRunIsExact(states, actions, 0);
      }
    } else {
      var d, d' := if p >= 0x8000_0000 then 0x7fff_ffff else -0x8000_0000, if p >= 0x8000_0000 then 1 else -1;
      var actions := [Increment(true, d), Increment(true, d')];
      var first := Step(Initial(), actions[0]);
      var states := [Initial(), first, Step(first, actions[1])];
      TwoIncrementsOverflow(d, d', states, actions);
      assert TotalsAtMost(actions, p, q);
    }
  }
}
