/** The order of messages between the networked counters: each peer receives what the other sent, first sent first. */
module NetworkOrder {
  import opened NetworkSpec

  /** The delta a step sends, if it sends one. */
  ghost function SentBy(n: Net, a: Action): seq<int>
    requires Enabled(n, a)
  {
    if a.RunTask? then [n.tasks[a.index].delta] else []
  }

  /** Everything sent in the first `k` steps, in order. */
  ghost function Sent(states: seq<Net>, actions: seq<Action>, k: nat): seq<int>
    requires IsRun(states, actions) && k <= |actions|
  {
    if k == 0 then []
    else
      assert StepsTo(states[k - 1], actions[k - 1], states[k]);
      Sent(states, actions, k - 1) + SentBy(states[k - 1], actions[k - 1])
  }

  /** What the other peer has sent since peer A (or B) last synced, in order. */
  ghost function Unreceived(states: seq<Net>, actions: seq<Action>, k: nat, forA: bool): seq<int>
    requires IsRun(states, actions) && k <= |actions|
  {
    if k == 0 then []
    else
      assert StepsTo(states[k - 1], actions[k - 1], states[k]);
      var n, a := states[k - 1], actions[k - 1];
      if a == Sync(forA) then []
      else if a.RunTask? && n.tasks[a.index].fromA != forA then
        Unreceived(states, actions, k - 1, forA) + [n.tasks[a.index].delta]
      else Unreceived(states, actions, k - 1, forA)
  }

  /** In every interleaving the log lists the deltas as sent, and a queue holds just those sent since the last sync, in order. */
  lemma {:induction false} MessagesKeepOrder(states: seq<Net>, actions: seq<Action>, k: nat)
    requires IsRun(states, actions) && k <= |actions|
    ensures states[k].ordering == Sent(states, actions, k)
    ensures states[k].aToB == Unreceived(states, actions, k, true)
    ensures states[k].bToA == Unreceived(states, actions, k, false)
  {
    if k > 0 {
      MessagesKeepOrder(states, actions, k - 1);
      assert StepsTo(states[k - 1], actions[k - 1], states[k]);
    }
  }
}
