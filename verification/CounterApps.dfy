/** The counter of the demo application as an object, with the window that runs its frame callbacks. */
module CounterApps {
  import opened Common
  import opened HoldRepeat

  /** The callbacks queued for the next frame, each known by the generation it was chained under. */
  class Window {
    var nextFrameCallbacks: seq<nat>

    constructor ()
      ensures nextFrameCallbacks == []
    {
      nextFrameCallbacks := [];
    }

    method OnNextFrame(generation: nat)
      modifies this
      ensures nextFrameCallbacks == old(nextFrameCallbacks) + [generation]
    {
      nextFrameCallbacks := nextFrameCallbacks + [generation];
    }
  }

  class CounterApp {
    var count: int
    var holdRepeatDirection: Option<Direction>
    var holdRepeatStarted: Option<nat>
    var holdRepeatGeneration: nat
    const window: Window

    /** Everything that has happened so far. */
    ghost var history: seq<Event>

    function State(): AppState
      reads this, window
    {
      AppState(count, holdRepeatDirection, holdRepeatStarted, holdRepeatGeneration, window.nextFrameCallbacks)
    }

    /** The counter is where the run of its history leads. */
    ghost predicate Valid()
      reads this, window
    {
      State() == Run(history)
    }

    /** So far fewer than 2^64 presses and releases have come between two frames. */
    ghost predicate WithinCycle()
      reads this
    {
      BumpsWithin(history, GENERATIONS - 1)
    }

    constructor (w: Window)
      requires w.nextFrameCallbacks == []
      ensures Valid() && history == [] && State() == Initial() && window == w
    {
      count, holdRepeatDirection, holdRepeatStarted, holdRepeatGeneration := 0, None, None, 0;
      window := w;
      history := [];
    }

    method StepCount(d: Direction)
      modifies this`count
      ensures State() == old(State()).(count := Stepped(old(count), d))
    {
      match d
      case Inc => count := if count >= I32_MAX then I32_MAX else count + 1;
      case Dec => count := if count <= I32_MIN then I32_MIN else count - 1;
    }

    /** The handler of a release, and the first thing a press does. */
    method StopHoldRepeat()
      requires Valid()
      modifies this
      ensures Valid() && history == old(history) + [Release]
      ensures State() == Stop(old(State()))
    {
      Appended(history, Release);
      holdRepeatDirection := None;
      holdRepeatStarted := None;
      holdRepeatGeneration := (holdRepeatGeneration + 1) % GENERATIONS;
      history := history + [Release];
    }

    method ChainHoldFrame(generation: nat)
      modifies window
      ensures State() == old(State()).(pending := old(State()).pending + [generation])
    {
      window.OnNextFrame(generation);
    }

    method BeginHold(d: Direction, now: nat)
      requires Valid()
      modifies this, window
      ensures Valid() && history == old(history) + [Press(d, now)]
      ensures State() == Begin(old(State()), d, now)
    {
      Appended(history, Press(d, now));
      ghost var before := history;
      StopHoldRepeat();
      holdRepeatDirection := Some(d);
      holdRepeatStarted := Some(now);
      var generation := holdRepeatGeneration;
      StepCount(d);
      ChainHoldFrame(generation);
      history := before + [Press(d, now)];
    }

    /** The closure chained by `ChainHoldFrame`, when its frame comes. */
    method FrameCallback(generation: nat, now: nat)
      modifies this`count, window
      ensures State() == RunCallback(old(State()), generation, now)
    {
      if holdRepeatGeneration != generation {
        return;
      }
      if holdRepeatDirection.None? {
        return;
      }
      if holdRepeatStarted.Some? {
        if DelayPassed(holdRepeatStarted.value, now) {
          StepCount(holdRepeatDirection.value);
        }
      }
      ChainHoldFrame(generation);
    }

    /**
     The window's frame: the queue is taken and its callbacks run in order. At most one of them steps the
     counter unless the generations have wrapped around since the last frame.
     */
    method OnFrame(now: nat)
      requires Valid()
      modifies this, window
      ensures Valid() && history == old(history) + [Frame(now)]
      ensures State() == RunFrame(old(State()), now)
      ensures old(WithinCycle()) ==>
                || count == old(count)
                || (old(holdRepeatDirection).Some? && count == Stepped(old(count), old(holdRepeatDirection).value))
    {
      Appended(history, Frame(now));
      if WithinCycle() {
        FrameStepsAtMostOnce(history, now);
      }
      RunQueue(now);
      history := history + [Frame(now)];
    }

    method RunQueue(now: nat)
      modifies this`count, window
      ensures State() == RunFrame(old(State()), now)
    {
      var callbacks := window.nextFrameCallbacks;
      window.nextFrameCallbacks := [];
      ghost var taken := State();
      for i := 0 to |callbacks|
        invariant State() == RunCallbacks(taken, callbacks[..i], now)
      {
        assert callbacks[..i + 1][..i] == callbacks[..i];
        FrameCallback(callbacks[i], now);
      }
      assert callbacks[..|callbacks|] == callbacks;
    }
  }
}
