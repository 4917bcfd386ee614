/** Two counters exchanging increments over a mock network, as `testing.rs` tests them: every interleaving. */
module NetworkSpec {
  import opened Common

  /** A send spawned in the background by a peer and not yet run. */
  datatype Task = Task(fromA: bool, delta: int)

  /** The queues are named as in the source: `aToB` is what peer A receives, `bToA` what peer B receives. */
  datatype Net = Net(
    countA: int,
    countB: int,
    tasks: seq<Task>,
    ordering: seq<int>,
    aToB: seq<int>,
    bToA: seq<int>)

  datatype Action = Increment(onA: bool, delta: int) | RunTask(index: nat) | Sync(onA: bool)

  // ---------------------------------------------------------------- 32-bit arithmetic

  const TWO_32: int := 0x1_0000_0000

  /** Two's complement wrap-around of an unbounded integer to 32 bits. */
  function Wrap(x: int): (r: int)
    ensures -0x8000_0000 <= r < 0x8000_0000
  {
    (x + 0x8000_0000) % TWO_32 - 0x8000_0000
  }

  /** `a` and `b` are the same 32-bit integer. */
  ghost predicate Same(a: int, b: int) {
    (a - b) % TWO_32 == 0
  }

  lemma WrapIsSame(x: int)
    ensures Same(Wrap(x), x)
  {
  }

  lemma SameWraps(a: int, b: int)
    ensures Same(a, b) <==> Wrap(a) == Wrap(b)
  {
  }

  lemma SameAdds(a: int, b: int, c: int)
    requires Same(a, b)
    ensures Same(a + c, b + c)
  {
  }

  lemma SameTransitive(a: int, b: int, c: int)
    requires Same(a, b) && Same(b, c)
    ensures Same(a, c)
  {
  }

  // ---------------------------------------------------------------- steps

  /** Adding a batch of deltas one by one, wrapping each time. */
  function AddAll(count: int, deltas: seq<int>): int {
    if deltas == [] then count else Wrap(AddAll(count, deltas[..|deltas| - 1]) + deltas[|deltas| - 1])
  }

  /** `send`: peer A's messages go to `bToA`, peer B's to `aToB`. */
  function Send(n: Net, t: Task): Net {
    if t.fromA then n.(ordering := n.ordering + [t.delta], bToA := n.bToA + [t.delta])
    else n.(ordering := n.ordering + [t.delta], aToB := n.aToB + [t.delta])
  }

  function Removed(tasks: seq<Task>, index: nat): seq<Task>
    requires index < |tasks|
  {
    tasks[..index] + tasks[index + 1..]
  }

  ghost predicate Enabled(n: Net, a: Action) {
    a.RunTask? ==> a.index < |n.tasks|
  }

  function Step(n: Net, a: Action): Net
    requires a.RunTask? ==> a.index < |n.tasks|
  {
    match a
    case Increment(true, d) => n.(countA := Wrap(n.countA + d), tasks := n.tasks + [Task(true, d)])
    case Increment(false, d) => n.(countB := Wrap(n.countB + d), tasks := n.tasks + [Task(false, d)])
    case RunTask(i) => Send(n.(tasks := Removed(n.tasks, i)), n.tasks[i])
    case Sync(true) => n.(countA := AddAll(n.countA, n.aToB), aToB := [])
    case Sync(false) => n.(countB := AddAll(n.countB, n.bToA), bToA := [])
  }

  // ---------------------------------------------------------------- conservation

  /** The deltas spawned by one peer and not yet sent. */
  function Unsent(tasks: seq<Task>, fromA: bool): int {
    if tasks == [] then 0
    else
      var t := tasks[|tasks| - 1];
      Unsent(tasks[..|tasks| - 1], fromA) + if t.fromA == fromA then t.delta else 0
  }

  lemma {:induction false} UnsentConcat(s: seq<Task>, t: seq<Task>, fromA: bool)
    ensures Unsent(s + t, fromA) == Unsent(s, fromA) + Unsent(t, fromA)
  {
    if t == [] {
      assert s + t == s;
    } else {
      var n := |t| - 1;
      assert (s + t)[..|s + t| - 1] == s + t[..n];
      UnsentConcat(s, t[..n], fromA);
    }
  }

  lemma UnsentRemoved(tasks: seq<Task>, i: nat, fromA: bool)
    requires i < |tasks|
    ensures Unsent(tasks, fromA) == Unsent(Removed(tasks, i), fromA) + if tasks[i].fromA == fromA then tasks[i].delta else 0
  {
    assert tasks == tasks[..i] + [tasks[i]] + tasks[i + 1..];
    UnsentConcat(tasks[..i] + [tasks[i]], tasks[i + 1..], fromA);
    UnsentConcat(tasks[..i], [tasks[i]], fromA);
    UnsentConcat(tasks[..i], tasks[i + 1..], fromA);
    assert [tasks[i]][..0] == [];
  }

  lemma {:induction false} AddAllIsSum(count: int, deltas: seq<int>)
    ensures Same(AddAll(count, deltas), count + Sum(deltas))
  {
    if deltas != [] {
      var n := |deltas| - 1;
      AddAllIsSum(count, deltas[..n]);
      SameAdds(AddAll(count, deltas[..n]), count + Sum(deltas[..n]), deltas[n]);
      WrapIsSame(AddAll(count, deltas[..n]) + deltas[n]);
      SameTransitive(AddAll(count, deltas), AddAll(count, deltas[..n]) + deltas[n], count + Sum(deltas));
    }
  }

  /** What peer A has counted, what B has yet to send, and what waits for A make up all increments so far. */
  ghost predicate Conserved(n: Net, total: int) {
    && Same(n.countA + Unsent(n.tasks, false) + Sum(n.aToB), total)
    && Same(n.countB + Unsent(n.tasks, true) + Sum(n.bToA), total)
  }

  ghost predicate Counts32(n: Net) {
    n.countA == Wrap(n.countA) && n.countB == Wrap(n.countB)
  }

  function Added(a: Action): int {
    if a.Increment? then a.delta else 0
  }

  lemma IncrementConserves(n: Net, onA: bool, d: int, total: int)
    requires Conserved(n, total)
    ensures Conserved(Step(n, Increment(onA, d)), total + d)
  {
    var t := Task(onA, d);
    UnsentConcat(n.tasks, [t], true);
    UnsentConcat(n.tasks, [t], false);
    assert [t][..0] == [];
    var own, other := if onA then n.countA else n.countB, if onA then n.countB else n.countA;
    var ownRest := if onA then Unsent(n.tasks, false) + Sum(n.aToB) else Unsent(n.tasks, true) + Sum(n.bToA);
    WrapIsSame(own + d);
    SameAdds(Wrap(own + d), own + d, ownRest);
    SameAdds(n.countA + Unsent(n.tasks, false) + Sum(n.aToB), total, d);
    SameAdds(n.countB + Unsent(n.tasks, true) + Sum(n.bToA), total, d);
    SameTransitive(Wrap(own + d) + ownRest, own + ownRest + d, total + d);
  }

  lemma RunTaskConserves(n: Net, i: nat, total: int)
    requires i < |n.tasks| && Conserved(n, total)
    ensures Conserved(Step(n, RunTask(i)), total)
  {
    var t := n.tasks[i];
    UnsentRemoved(n.tasks, i, true);
    UnsentRemoved(n.tasks, i, false);
    SumConcat(n.aToB, [t.delta]);
    SumConcat(n.bToA, [t.delta]);
    assert [t.delta][..0] == [];
  }

  lemma SyncConserves(n: Net, onA: bool, total: int)
    requires Conserved(n, total)
    ensures Conserved(Step(n, Sync(onA)), total)
  {
    var count, queue := if onA then n.countA else n.countB, if onA then n.aToB else n.bToA;
    var unsent := Unsent(n.tasks, !onA);
    AddAllIsSum(count, queue);
    SameAdds(AddAll(count, queue), count + Sum(queue), unsent);
    SameTransitive(AddAll(count, queue) + unsent, count + unsent + Sum(queue), total);
  }

  lemma StepConserves(n: Net, a: Action, total: int)
    requires Enabled(n, a) && Conserved(n, total)
    ensures Conserved(Step(n, a), total + Added(a))
  {
    match a
    case Increment(onA, d) => IncrementConserves(n, onA, d, total);
    case RunTask(i) => RunTaskConserves(n, i, total);
    case Sync(onA) => SyncConserves(n, onA, total);
  }

  lemma {:induction false} AddAllIs32(count: int, deltas: seq<int>)
    requires count == Wrap(count)
    ensures AddAll(count, deltas) == Wrap(AddAll(count, deltas))
  {
    if deltas != [] {
      WrapTwice(AddAll(count, deltas[..|deltas| - 1]) + deltas[|deltas| - 1]);
    }
  }

  lemma WrapTwice(x: int)
    ensures Wrap(Wrap(x)) == Wrap(x)
  {
  }

  lemma StepKeeps32(n: Net, a: Action)
    requires Enabled(n, a) && Counts32(n)
    ensures Counts32(Step(n, a))
  {
    match a
    case Increment(onA, d) => WrapTwice((if onA then n.countA else n.countB) + d);
    case RunTask(_) =>
    case Sync(onA) => AddAllIs32(if onA then n.countA else n.countB, if onA then n.aToB else n.bToA);
  }

  // ---------------------------------------------------------------- whole runs

  function Initial(): Net {
    Net(0, 0, [], [], [], [])
  }

  /** A run in which every task index named is that of a task then waiting. */
  ghost predicate IsRun(states: seq<Net>, actions: seq<Action>) {
    && |states| == |actions| + 1 && states[0] == Initial()
    && forall k :: 0 <= k < |actions| ==> StepsTo(states[k], actions[k], states[k + 1])
  }

  ghost predicate StepsTo(n: Net, a: Action, n': Net) {
    Enabled(n, a) && n' == Step(n, a)
  }

  /** The sum of all increments among the first `k` actions. */
  function Total(actions: seq<Action>, k: nat): int
    requires k <= |actions|
  {
    if k == 0 then 0 else Total(actions, k - 1) + Added(actions[k - 1])
  }

  /** In every interleaving each peer's count, with what is still on its way to it, is the sum of all increments. */
  lemma {:induction false} RunConserves(states: seq<Net>, actions: seq<Action>, k: nat)
    requires IsRun(states, actions) && k <= |actions|
    ensures Conserved(states[k], Total(actions, k)) && Counts32(states[k])
  {
    if k > 0 {
      RunConserves(states, actions, k - 1);
      var n, a := states[k - 1], actions[k - 1];
      assert StepsTo(n, a, states[k]);
      StepConserves(n, a, Total(actions, k - 1));
      StepKeeps32(n, a);
    }
  }

  ghost predicate Quiet(n: Net) {
    n.tasks == [] && n.aToB == [] && n.bToA == []
  }

  lemma QuietCounts(n: Net, total: int)
    requires Quiet(n) && Conserved(n, total) && Counts32(n)
    ensures n.countA == n.countB == Wrap(total)
  {
    SameWraps(n.countA, total);
    SameWraps(n.countB, total);
  }

  /** With nothing unsent and nothing queued, both counters hold the 32-bit sum of all increments. */
  lemma QuietMeansEqual(states: seq<Net>, actions: seq<Action>, k: nat)
    requires IsRun(states, actions) && k <= |actions| && Quiet(states[k])
    ensures states[k].countA == states[k].countB == Wrap(Total(actions, k))
  {
    RunConserves(states, actions, k);
    QuietCounts(states[k], Total(actions, k));
  }

  /** Once all sends have run, a sync of each peer, in either order, makes the counters agree. */
  lemma SyncsConverge(states: seq<Net>, actions: seq<Action>, onA: bool, once: Net, twice: Net)
    requires IsRun(states, actions) && states[|actions|].tasks == []
    requires once == Step(states[|actions|], Sync(onA)) && twice == Step(once, Sync(!onA))
    ensures twice.countA == twice.countB == Wrap(Total(actions, |actions|))
  {
    var total := Total(actions, |actions|);
    RunConserves(states, actions, |actions|);
    SyncConserves(states[|actions|], onA, total);
    StepKeeps32(states[|actions|], Sync(onA));
    SyncConserves(once, !onA, total);
    StepKeeps32(once, Sync(!onA));
    QuietCounts(twice, total);
  }

  /** Running tasks, in any order, drains them: each one run leaves one fewer. */
  lemma {:induction false} TasksDrain(n: Net, picks: seq<nat>)
    requires |picks| == |n.tasks| && forall i :: 0 <= i < |picks| ==> picks[i] < |n.tasks| - i
    ensures Drained(n, picks).tasks == []
    ensures |Drained(n, picks).ordering| == |n.ordering| + |n.tasks|
    decreases |picks|
  {
    if picks != [] {
      var n' := Step(n, RunTask(picks[0]));
      assert forall i :: 0 <= i < |picks[1..]| ==> picks[1..][i] == picks[i + 1];
      TasksDrain(n', picks[1..]);
    }
  }

  /** Runs the tasks at the picked positions in turn, as a scheduler running until parked does. */
  function Drained(n: Net, picks: seq<nat>): Net
    requires |picks| == |n.tasks| && forall i :: 0 <= i < |picks| ==> picks[i] < |n.tasks| - i
    decreases |picks|
  {
    if picks == [] then n else Drained(Step(n, RunTask(picks[0])), picks[1..])
  }

  /** Deltas in a list of tasks, as a bag. */
  function Deltas(tasks: seq<Task>): multiset<int> {
    if tasks == [] then multiset{} else Deltas(tasks[..|tasks| - 1]) + multiset{tasks[|tasks| - 1].delta}
  }

  lemma {:induction false} DeltasConcat(s: seq<Task>, t: seq<Task>)
    ensures Deltas(s + t) == Deltas(s) + Deltas(t)
  {
    if t == [] {
      assert s + t == s;
    } else {
      var n := |t| - 1;
      assert (s + t)[..|s + t| - 1] == s + t[..n];
      DeltasConcat(s, t[..n]);
    }
  }

  function Increments(actions: seq<Action>, k: nat): multiset<int>
    requires k <= |actions|
  {
    if k == 0 then multiset{}
    else Increments(actions, k - 1) + if actions[k - 1].Increment? then multiset{actions[k - 1].delta} else multiset{}
  }

  /** The deltas logged by the network and those still to be sent. */
  function Known(n: Net): multiset<int> {
    multiset(n.ordering) + Deltas(n.tasks)
  }

  lemma DeltasOfOne(t: Task)
    ensures Deltas([t]) == multiset{t.delta}
  {
    assert [t][..0] == [];
  }

  lemma DeltasAround(before: seq<Task>, t: Task, rest: seq<Task>)
    ensures Deltas(before + [t] + rest) == Deltas(before + rest) + multiset{t.delta}
  {
    DeltasOfOne(t);
    DeltasConcat(before + [t], rest);
    DeltasConcat(before, [t]);
    DeltasConcat(before, rest);
  }

  lemma RunTaskKnown(n: Net, i: nat)
    requires i < |n.tasks|
    ensures Known(Step(n, RunTask(i))) == Known(n)
  {
    var before, t, rest := n.tasks[..i], n.tasks[i], n.tasks[i + 1..];
    assert n.tasks == before + [t] + rest;
    DeltasAround(before, t, rest);
    assert multiset(n.ordering + [t.delta]) == multiset(n.ordering) + multiset{t.delta};
  }

  lemma IncrementKnown(n: Net, onA: bool, d: int)
    ensures Known(Step(n, Increment(onA, d))) == Known(n) + multiset{d}
  {
    DeltasConcat(n.tasks, [Task(onA, d)]);
    DeltasOfOne(Task(onA, d));
  }

  /** The network's log is a reordering: logged and still unsent deltas are exactly the increments made. */
  lemma {:induction false} LogIsReordering(states: seq<Net>, actions: seq<Action>, k: nat)
    requires IsRun(states, actions) && k <= |actions|
    ensures Known(states[k]) == Increments(actions, k)
  {
    if k > 0 {
      LogIsReordering(states, actions, k - 1);
      var n, a := states[k - 1], actions[k - 1];
      assert StepsTo(n, a, states[k]);
      StepKnown(n, a);
    }
  }

  lemma StepKnown(n: Net, a: Action)
    requires Enabled(n, a)
    ensures Known(Step(n, a)) == Known(n) + if a.Increment? then multiset{a.delta} else multiset{}
  {
    match a
    case Increment(onA, d) => IncrementKnown(n, onA, d);
    case RunTask(i) => RunTaskKnown(n, i);
    case Sync(_) =>
  }
}
