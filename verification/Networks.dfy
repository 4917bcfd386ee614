/** The networked counter of `testing.rs` as objects sharing one network and one background executor. */
module Networks {
  import opened NetworkSpec

  /** The shared state behind the mutex of `MockNetwork`. */
  class MockNetwork {
    var ordering: seq<int>
    var aToB: seq<int>
    var bToA: seq<int>

    constructor ()
      ensures ordering == [] && aToB == [] && bToA == []
    {
      ordering, aToB, bToA := [], [], [];
    }
  }

  datatype NetworkClient = NetworkClient(network: MockNetwork, isA: bool) {
    method Send(value: int)
      modifies network
      ensures network.ordering == old(network.ordering) + [value]
      ensures network.bToA == if isA then old(network.bToA) + [value] else old(network.bToA)
      ensures network.aToB == if isA then old(network.aToB) else old(network.aToB) + [value]
    {
      network.ordering := network.ordering + [value];
      if isA {
        network.bToA := network.bToA + [value];
      } else {
        network.aToB := network.aToB + [value];
      }
    }

    method ReceiveAll() returns (values: seq<int>)
      modifies network
      ensures values == if isA then old(network.aToB) else old(network.bToA)
      ensures network.aToB == if isA then [] else old(network.aToB)
      ensures network.bToA == if isA then old(network.bToA) else []
      ensures network.ordering == old(network.ordering)
    {
      if isA {
        values := network.aToB;
        network.aToB := [];
      } else {
        values := network.bToA;
        network.bToA := [];
      }
    }
  }

  /** Detached background tasks waiting to be picked. */
  class Executor {
    var tasks: seq<Task>

    constructor ()
      ensures tasks == []
    {
      tasks := [];
    }

    method Spawn(t: Task)
      modifies this
      ensures tasks == old(tasks) + [t]
    {
      tasks := tasks + [t];
    }
  }

  class NetworkedCounter {
    var count: int
    const client: NetworkClient

    constructor (c: NetworkClient)
      ensures count == 0 && client == c
    {
      count, client := 0, c;
    }

    /** Counts at once; the broadcast is left to the background. */
    method Increment(delta: int, background: Executor)
      modifies this, background
      ensures count == Wrap(old(count) + delta)
      ensures background.tasks == old(background.tasks) + [Task(client.isA, delta)]
    {
      count := Wrap(count + delta);
      background.Spawn(Task(client.isA, delta));
    }

    method Sync()
      modifies this, client.network
      ensures count == AddAll(old(count), if client.isA then old(client.network.aToB) else old(client.network.bToA))
      ensures client.network.aToB == if client.isA then [] else old(client.network.aToB)
      ensures client.network.bToA == if client.isA then old(client.network.bToA) else []
      ensures client.network.ordering == old(client.network.ordering)
    {
      var deltas := client.ReceiveAll();
      ghost var before := count;
      for i := 0 to |deltas|
        modifies this
        invariant count == AddAll(before, deltas[..i])
      {
        assert deltas[..i + 1][..i] == deltas[..i];
        count := Wrap(count + deltas[i]);
      }
      assert deltas[..|deltas|] == deltas;
    }
  }

  /** Two peers on one network, driven one action at a time in any order. */
  class Peers {
    const network: MockNetwork
    const background: Executor
    const a: NetworkedCounter
    const b: NetworkedCounter

    ghost predicate Valid() {
      a != b && a.client == NetworkClient(network, true) && b.client == NetworkClient(network, false)
    }

    ghost function State(): Net
      reads network, background, a, b
    {
      Net(a.count, b.count, background.tasks, network.ordering, network.aToB, network.bToA)
    }

    constructor ()
      ensures Valid() && State() == Initial()
      ensures fresh(network) && fresh(background) && fresh(a) && fresh(b)
    {
      var n := new MockNetwork();
      var e := new Executor();
      var peerA := new NetworkedCounter(NetworkClient(n, true));
      var peerB := new NetworkedCounter(NetworkClient(n, false));
      network, background, a, b := n, e, peerA, peerB;
    }

    method Increment(onA: bool, delta: int)
      requires Valid()
      modifies a, b, background
      ensures State() == Step(old(State()), NetworkSpec.Increment(onA, delta))
    {
      if onA {
        a.Increment(delta, background);
      } else {
        b.Increment(delta, background);
      }
    }

    /** The executor runs the waiting task at `index`. */
    method RunTask(index: nat)
      requires Valid() && index < |background.tasks|
      modifies background, network
      ensures State() == Step(old(State()), NetworkSpec.RunTask(index))
    {
      var task := background.tasks[index];
      background.tasks := background.tasks[..index] + background.tasks[index + 1..];
      if task.fromA {
        a.client.Send(task.delta);
      } else {
        b.client.Send(task.delta);
      }
    }

    method Sync(onA: bool)
      requires Valid()
      modifies a, b, network
      ensures State() == Step(old(State()), NetworkSpec.Sync(onA))
    {
      if onA {
        a.Sync();
      } else {
        b.Sync();
      }
    }

    /** Runs every waiting task, in whatever order they are picked, then syncs both peers: the counters agree. */
    method Settle(ghost total: int)
      requires Valid() && Conserved(State(), total) && Counts32(State())
      modifies a, b, background, network
      ensures background.tasks == [] && a.count == b.count == Wrap(total)
    {
      while background.tasks != []
        invariant Valid() && Conserved(State(), total) && Counts32(State())
        decreases |background.tasks|
      {
        var index: nat :| index < |background.tasks|;
        StepConserves(State(), NetworkSpec.RunTask(index), total);
        StepKeeps32(State(), NetworkSpec.RunTask(index));
        RunTask(index);
      }
      StepConserves(State(), NetworkSpec.Sync(true), total);
      StepKeeps32(State(), NetworkSpec.Sync(true));
      Sync(true);
      StepConserves(State(), NetworkSpec.Sync(false), total);
      StepKeeps32(State(), NetworkSpec.Sync(false));
      Sync(false);
      QuietCounts(State(), total);
    }
  }
}
