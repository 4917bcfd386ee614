/** The hold-to-repeat protocol of the counter demo: frame callbacks that chain themselves under a generation. */
module HoldRepeat {
  import opened Common

  datatype Direction = Inc | Dec

  const HOLD_REPEAT_DELAY_MS: nat := 320
  const I32_MAX: int := 0x7fff_ffff
  const I32_MIN: int := -0x8000_0000

  /** Generations are 64-bit and wrap around. */
  const GENERATIONS: nat := 0x1_0000_0000_0000_0000

  /**
   The counter together with the window's callbacks for the next frame, each known by the generation it
   was chained under.
   */
  datatype AppState = AppState(
    count: int,
    direction: Option<Direction>,
    started: Option<nat>,
    generation: nat,
    pending: seq<nat>)

  /** What can happen; times are in milliseconds. */
  datatype Event = Press(direction: Direction, now: nat) | Release | Frame(now: nat)

  /** `saturating_add(1)` and `saturating_sub(1)` on 32 bits. */
  function Stepped(count: int, d: Direction): int {
    match d
    case Inc => if count >= I32_MAX then I32_MAX else count + 1
    case Dec => if count <= I32_MIN then I32_MIN else count - 1
  }

  function Stop(st: AppState): AppState {
    st.(direction := None, started := None, generation := (st.generation + 1) % GENERATIONS)
  }

  function Begin(st: AppState, d: Direction, now: nat): AppState {
    var stopped := Stop(st);
    stopped.(direction := Some(d), started := Some(now), count := Stepped(st.count, d),
             pending := st.pending + [stopped.generation])
  }

  /** `started.elapsed()`: an instant in the future has elapsed by nothing. */
  predicate DelayPassed(started: nat, now: nat) {
    now >= started && now - started >= HOLD_REPEAT_DELAY_MS
  }

  /** The body of one frame callback chained under `generation`. */
  function RunCallback(st: AppState, generation: nat, now: nat): AppState {
    if st.generation != generation || st.direction.None? then st
    else
      var count := if st.started.Some? && DelayPassed(st.started.value, now) then Stepped(st.count, st.direction.value)
                   else st.count;
      st.(count := count, pending := st.pending + [generation])
  }

  function RunCallbacks(st: AppState, callbacks: seq<nat>, now: nat): AppState {
    if callbacks == [] then st
    else RunCallback(RunCallbacks(st, callbacks[..|callbacks| - 1], now), callbacks[|callbacks| - 1], now)
  }

  /** A frame takes the callbacks queued so far and runs them in order; those they chain wait for the next frame. */
  function RunFrame(st: AppState, now: nat): AppState {
    RunCallbacks(st.(pending := []), st.pending, now)
  }

  function Step(st: AppState, e: Event): AppState {
    match e
    case Press(d, now) => Begin(st, d, now)
    case Release => Stop(st)
    case Frame(now) => RunFrame(st, now)
  }

  function Initial(): AppState {
    AppState(0, None, None, 0, [])
  }

  function Front(events: seq<Event>): (r: seq<Event>)
    requires events != []
    ensures |r| == |events| - 1
  {
    events[..|events| - 1]
  }

  function Run(events: seq<Event>): AppState {
    if events == [] then Initial() else Step(Run(Front(events)), events[|events| - 1])
  }

  // ---------------------------------------------------------------- how old the callbacks are

  /** How many generations ago each pending callback was chained, and how many have begun since the last frame. */
  datatype Ages = Ages(ages: seq<nat>, bumps: nat)

  function Aged(ages: seq<nat>): (r: seq<nat>)
    ensures |r| == |ages| && forall i :: 0 <= i < |r| ==> r[i] == ages[i] + 1
  {
    seq(|ages|, i requires 0 <= i < |ages| => ages[i] + 1)
  }

  /** Press and release end the current generation; a frame leaves only the callback of a hold still active. */
  function AgeStep(a: Ages, st: AppState, e: Event): Ages {
    match e
    case Press(_, _) => Ages(Aged(a.ages) + [0], a.bumps + 1)
    case Release => Ages(Aged(a.ages), a.bumps + 1)
    case Frame(_) => Ages(if st.direction.Some? then [0] else [], 0)
  }

  function AgesAfter(events: seq<Event>): Ages {
    if events == [] then Ages([], 0)
    else AgeStep(AgesAfter(Front(events)), Run(Front(events)), events[|events| - 1])
  }

  /** The generation `age` generations before `generation`. */
  ghost predicate IsAge(generation: nat, pending: nat, age: nat) {
    pending < GENERATIONS && (pending + age) % GENERATIONS == generation
  }

  ghost predicate Tracked(st: AppState, a: Ages) {
    && st.generation < GENERATIONS
    && I32_MIN <= st.count <= I32_MAX
    && (st.direction.Some? <==> st.started.Some?)
    && |a.ages| == |st.pending|
    && (forall i :: 0 <= i < |a.ages| ==> IsAge(st.generation, st.pending[i], a.ages[i]) && a.ages[i] <= a.bumps)
    && (forall i, j :: 0 <= i < j < |a.ages| ==> a.ages[i] > a.ages[j])
    && (st.direction.Some? ==> a.ages != [] && a.ages[|a.ages| - 1] == 0)
    && (st.direction.None? ==> forall i :: 0 <= i < |a.ages| ==> a.ages[i] >= 1)
  }

  /** The pending callbacks that would act on the next frame. */
  function Matching(st: AppState): nat {
    Count(st.pending, st.generation)
  }

  function Count(s: seq<nat>, x: nat): nat {
    if s == [] then 0 else Count(s[..|s| - 1], x) + if s[|s| - 1] == x then 1 else 0
  }

  /** Exactly one callback acts while a hold is active and none otherwise. */
  ghost predicate OneActs(st: AppState) {
    Matching(st) == if st.direction.Some? then 1 else 0
  }

  lemma {:induction false} CountAbsent(s: seq<nat>, x: nat)
    requires x !in s
    ensures Count(s, x) == 0
  {
    if s != [] {
      CountAbsent(s[..|s| - 1], x);
    }
  }

  /** A callback younger than a full cycle of generations matches only if it is of the current one. */
  lemma YoungMatchesOnlyIfCurrent(generation: nat, pending: nat, age: nat)
    requires IsAge(generation, pending, age) && age < GENERATIONS
    ensures pending == generation <==> age == 0
  {
  }

  lemma TrackedGivesOne(st: AppState, a: Ages)
    requires Tracked(st, a) && a.bumps < GENERATIONS
    ensures OneActs(st)
    ensures st.direction.Some? ==> st.pending != [] && st.generation !in st.pending[..|st.pending| - 1]
                                   && st.pending[|st.pending| - 1] == st.generation
    ensures st.direction.None? ==> st.generation !in st.pending
  {
    forall i | 0 <= i < |st.pending|
      ensures st.pending[i] == st.generation <==> a.ages[i] == 0
    {
      assert IsAge(st.generation, st.pending[i], a.ages[i]);
      YoungMatchesOnlyIfCurrent(st.generation, st.pending[i], a.ages[i]);
    }
    if st.direction.Some? {
      var n := |st.pending| - 1;
      CountAbsent(st.pending[..n], st.generation);
    } else {
      CountAbsent(st.pending, st.generation);
    }
  }

  /** Callbacks of other generations do nothing. */
  lemma {:induction false} StaleCallbacksIdle(st: AppState, callbacks: seq<nat>, now: nat)
    requires st.generation !in callbacks
    ensures RunCallbacks(st, callbacks, now) == st
  {
    if callbacks != [] {
      StaleCallbacksIdle(st, callbacks[..|callbacks| - 1], now);
    }
  }

  /** What a frame does in a tracked state: at most one step, and one callback chained again. */
  lemma FrameActsOnce(st: AppState, a: Ages, now: nat)
    requires Tracked(st, a) && a.bumps < GENERATIONS
    ensures RunFrame(st, now)
            == if st.direction.None? then st.(pending := [])
               else st.(pending := [st.generation],
                        count := if DelayPassed(st.started.value, now) then Stepped(st.count, st.direction.value) else st.count)
  {
    TrackedGivesOne(st, a);
    var taken := st.(pending := []);
    if st.direction.Some? {
      StaleCallbacksIdle(taken, st.pending[..|st.pending| - 1], now);
    } else {
      StaleCallbacksIdle(taken, st.pending, now);
    }
  }

  lemma AgeGrows(generation: nat, pending: nat, age: nat)
    requires IsAge(generation, pending, age)
    ensures IsAge((generation + 1) % GENERATIONS, pending, age + 1)
  {
  }

  lemma StopKeepsTracked(st: AppState, a: Ages)
    requires Tracked(st, a)
    ensures Tracked(Stop(st), Ages(Aged(a.ages), a.bumps + 1))
  {
    var st', aged := Stop(st), Aged(a.ages);
    forall i | 0 <= i < |aged|
      ensures IsAge(st'.generation, st'.pending[i], aged[i]) && aged[i] <= a.bumps + 1
    {
      assert IsAge(st.generation, st.pending[i], a.ages[i]);
      AgeGrows(st.generation, st.pending[i], a.ages[i]);
    }
  }

  lemma BeginKeepsTracked(st: AppState, a: Ages, d: Direction, now: nat)
    requires Tracked(st, a)
    ensures Tracked(Begin(st, d, now), Ages(Aged(a.ages) + [0], a.bumps + 1))
  {
    StopKeepsTracked(st, a);
    var stopped, st' := Stop(st), Begin(st, d, now);
    var aged := Aged(a.ages);
    forall i | 0 <= i < |aged|
      ensures IsAge(st'.generation, st'.pending[i], aged[i]) && aged[i] <= a.bumps + 1
    {
      assert IsAge(stopped.generation, stopped.pending[i], aged[i]);
    }
  }

  lemma FrameKeepsTracked(st: AppState, a: Ages, now: nat)
    requires Tracked(st, a) && a.bumps < GENERATIONS
    ensures Tracked(RunFrame(st, now), AgeStep(a, st, Frame(now)))
  {
    FrameActsOnce(st, a, now);
  }

  lemma StepKeepsTracked(st: AppState, a: Ages, e: Event)
    requires Tracked(st, a) && a.bumps < GENERATIONS
    ensures Tracked(Step(st, e), AgeStep(a, st, e))
  {
    match e
    case Press(d, now) => BeginKeepsTracked(st, a, d, now);
    case Release => StopKeepsTracked(st, a);
    case Frame(now) => FrameKeepsTracked(st, a, now);
  }

  // ---------------------------------------------------------------- whole runs

  /** At most `n` presses and releases happen between one frame and the next, throughout the run. */
  ghost predicate BumpsWithin(events: seq<Event>, n: nat) {
    AgesAfter(events).bumps <= n && (events != [] ==> BumpsWithin(Front(events), n))
  }

  lemma Appended(events: seq<Event>, e: Event)
    ensures Front(events + [e]) == events
    ensures Run(events + [e]) == Step(Run(events), e)
    ensures AgesAfter(events + [e]) == AgeStep(AgesAfter(events), Run(events), e)
    ensures forall n :: BumpsWithin(events + [e], n) <==> BumpsWithin(events, n) && AgesAfter(events + [e]).bumps <= n
  {
    assert (events + [e])[..|events|] == events;
  }

  lemma {:induction false} WithinMore(events: seq<Event>, m: nat, n: nat)
    requires BumpsWithin(events, m) && m <= n
    ensures BumpsWithin(events, n)
    decreases |events|
  {
    if events != [] {
      WithinMore(Front(events), m, n);
    }
  }

  lemma {:induction false} RunIsTracked(events: seq<Event>)
    requires BumpsWithin(events, GENERATIONS - 1)
    ensures Tracked(Run(events), AgesAfter(events))
    decreases |events|
  {
    if events != [] {
      RunIsTracked(Front(events));
      StepKeepsTracked(Run(Front(events)), AgesAfter(Front(events)), events[|events| - 1]);
    }
  }

  /** Over every run, exactly one callback acts while a hold is active, and the count stays a 32-bit integer. */
  lemma HoldIsSafe(events: seq<Event>)
    requires BumpsWithin(events, GENERATIONS - 1)
    ensures OneActs(Run(events)) && I32_MIN <= Run(events).count <= I32_MAX
  {
    RunIsTracked(events);
    TrackedGivesOne(Run(events), AgesAfter(events));
  }

  /** Each frame changes the count by at most one step, in the direction held, and not at all when nothing is held. */
  lemma FrameStepsAtMostOnce(events: seq<Event>, now: nat)
    requires BumpsWithin(events, GENERATIONS - 1)
    ensures var before, after := Run(events), RunFrame(Run(events), now);
      && (before.direction.None? ==> after.count == before.count && after.pending == [])
      && (before.direction.Some? ==> after.count == before.count || after.count == Stepped(before.count, before.direction.value))
      && after.direction == before.direction
  {
    RunIsTracked(events);
    FrameActsOnce(Run(events), AgesAfter(events), now);
  }

  // ---------------------------------------------------------------- after a release

  function RunFrom(st: AppState, more: seq<Event>): AppState {
    if more == [] then st else Step(RunFrom(st, Front(more)), more[|more| - 1])
  }

  lemma {:induction false} RunInTwo(events: seq<Event>, more: seq<Event>)
    ensures Run(events + more) == RunFrom(Run(events), more)
    decreases |more|
  {
    if more == [] {
      assert events + more == events;
    } else {
      assert events + more == events + Front(more) + [more[|more| - 1]];
      Appended(events + Front(more), more[|more| - 1]);
      RunInTwo(events, Front(more));
    }
  }

  predicate HasFrame(events: seq<Event>) {
    exists i :: 0 <= i < |events| && events[i].Frame?
  }

  predicate HasPress(events: seq<Event>) {
    exists i :: 0 <= i < |events| && events[i].Press?
  }

  /** `st` with callbacks chained earlier still queued before its own. */
  function WithStale(st: AppState, stale: seq<nat>): AppState {
    st.(pending := stale + st.pending)
  }

  /** The state a release would leave if it also withdrew every callback chained so far. */
  function Withdrawn(events: seq<Event>): AppState {
    Run(events + [Release]).(pending := [])
  }

  lemma {:induction false} CallbacksInTwo(st: AppState, first: seq<nat>, second: seq<nat>, now: nat)
    ensures RunCallbacks(st, first + second, now) == RunCallbacks(RunCallbacks(st, first, now), second, now)
  {
    if second == [] {
      assert first + second == first;
    } else {
      var n := |second| - 1;
      assert (first + second)[..|first + second| - 1] == first + second[..n];
      CallbacksInTwo(st, first, second[..n], now);
    }
  }

  /** A frame that finds only other generations' callbacks before its own runs as if they were not there. */
  lemma FrameDropsStale(st: AppState, stale: seq<nat>, now: nat)
    requires st.generation !in stale
    ensures RunFrame(WithStale(st, stale), now) == RunFrame(st, now)
  {
    var taken := st.(pending := []);
    CallbacksInTwo(taken, stale, st.pending, now);
    StaleCallbacksIdle(taken, stale, now);
  }

  /** Until the next frame the callbacks chained before the release stay at the front of the queue, and are old. */
  lemma {:induction false} StaleAges(events: seq<Event>, more: seq<Event>)
    requires BumpsWithin(events + [Release] + more, GENERATIONS - 1) && !HasFrame(more)
    ensures var stale, after := Run(events).pending, events + [Release] + more;
      && |stale| <= |AgesAfter(after).ages| && stale <= Run(after).pending
      && forall i :: 0 <= i < |stale| ==> AgesAfter(after).ages[i] >= 1
    decreases |more|
  {
    if more == [] {
      assert events + [Release] + more == events + [Release];
      Appended(events, Release);
      RunIsTracked(events);
    } else {
      var before, e := events + [Release] + Front(more), more[|more| - 1];
      assert events + [Release] + more == before + [e];
      Appended(before, e);
      StaleAges(events, Front(more));
    }
  }

  lemma StaleNeverMatches(events: seq<Event>, more: seq<Event>)
    requires BumpsWithin(events + [Release] + more, GENERATIONS - 1) && !HasFrame(more)
    ensures Run(events + [Release] + more).generation !in Run(events).pending
  {
    var stale, after := Run(events).pending, events + [Release] + more;
    StaleAges(events, more);
    RunIsTracked(after);
    var st, a := Run(after), AgesAfter(after);
    forall i | 0 <= i < |stale|
      ensures stale[i] != st.generation
    {
      assert stale[i] == st.pending[i];
      assert IsAge(st.generation, st.pending[i], a.ages[i]);
      YoungMatchesOnlyIfCurrent(st.generation, st.pending[i], a.ages[i]);
    }
  }

  /** What is left, after `more`, of the callbacks chained before the release. */
  function Stale(events: seq<Event>, more: seq<Event>): seq<nat> {
    if HasFrame(more) then [] else Run(events).pending
  }

  /**
   Whatever happens after a release, through any presses, releases and frames, everything is as if the
   callbacks chained before it had been withdrawn: until the next frame they only wait, matching no
   generation, and that frame drops them.
   */
  lemma {:induction false} NothingActsAfterRelease(events: seq<Event>, more: seq<Event>)
    requires BumpsWithin(events + [Release] + more, GENERATIONS - 1)
    ensures Run(events + [Release] + more).generation !in Stale(events, more)
    ensures Run(events + [Release] + more) == WithStale(RunFrom(Withdrawn(events), more), Stale(events, more))
    decreases |more|
  {
    if !HasFrame(more) {
      StaleNeverMatches(events, more);
    }
    if more == [] {
      assert events + [Release] + more == events + [Release];
      Appended(events, Release);
    } else {
      var before, e := events + [Release] + Front(more), more[|more| - 1];
      assert events + [Release] + more == before + [e];
      Appended(before, e);
      NothingActsAfterRelease(events, Front(more));
      StepWithStale(RunFrom(Withdrawn(events), Front(more)), Stale(events, Front(more)), e);
      StaleStep(events, more);
    }
  }

  lemma StaleStep(events: seq<Event>, more: seq<Event>)
    requires more != []
    ensures Stale(events, more) == if more[|more| - 1].Frame? then [] else Stale(events, Front(more))
  {
  }

  lemma StepWithStale(st: AppState, stale: seq<nat>, e: Event)
    requires st.generation !in stale
    ensures Step(WithStale(st, stale), e) == WithStale(Step(st, e), if e.Frame? then [] else stale)
  {
    match e
    case Press(_, _) =>
    case Release =>
    case Frame(now) => FrameDropsStale(st, stale, now);
  }

  lemma {:induction false} NoHoldNoStep(st: AppState, callbacks: seq<nat>, now: nat)
    requires st.direction.None?
    ensures RunCallbacks(st, callbacks, now) == st
  {
    if callbacks != [] {
      NoHoldNoStep(st, callbacks[..|callbacks| - 1], now);
    }
  }

  lemma {:induction false} IdleKeepsCount(st: AppState, more: seq<Event>)
    requires st.direction.None? && !HasPress(more)
    ensures RunFrom(st, more).count == st.count && RunFrom(st, more).direction.None?
    decreases |more|
  {
    if more != [] {
      IdleKeepsCount(st, Front(more));
      var before, e := RunFrom(st, Front(more)), more[|more| - 1];
      assert !e.Press?;
      if e.Frame? {
        NoHoldNoStep(before.(pending := []), before.pending, e.now);
      }
    }
  }

  /** From a release to the next press the count stands still, over any frames and even past a wrap-around. */
  lemma CountStandsAfterRelease(events: seq<Event>, more: seq<Event>)
    requires !HasPress(more)
    ensures Run(events + [Release] + more).count == Run(events).count
  {
    Appended(events, Release);
    RunInTwo(events + [Release], more);
    IdleKeepsCount(Run(events + [Release]), more);
  }

  // ---------------------------------------------------------------- one whole hold

  function RunFrames(st: AppState, times: seq<nat>): AppState {
    if times == [] then st else RunFrame(RunFrames(st, times[..|times| - 1]), times[|times| - 1])
  }

  /** The number of frames that come at least 320 milliseconds after `started`. */
  function FramesPast(started: nat, times: seq<nat>): nat {
    if times == [] then 0
    else FramesPast(started, times[..|times| - 1]) + if times[|times| - 1] >= started + 320 then 1 else 0
  }

  lemma {:induction false} AllEarlyOrAllLate(started: nat, times: seq<nat>)
    ensures (forall i :: 0 <= i < |times| ==> times[i] < started + 320) ==> FramesPast(started, times) == 0
    ensures (forall i :: 0 <= i < |times| ==> times[i] >= started + 320) ==> FramesPast(started, times) == |times|
  {
    if times != [] {
      AllEarlyOrAllLate(started, times[..|times| - 1]);
    }
  }

  /** `n` steps from `count`, held at the ends of the 32-bit range. */
  function Moved(count: int, d: Direction, n: nat): int {
    match d
    case Inc => if count + n >= I32_MAX then I32_MAX else count + n
    case Dec => if count - n <= I32_MIN then I32_MIN else count - n
  }

  /** A hold moves the count once at the press and once for each frame past the delay, saturating. */
  lemma HoldCount(events: seq<Event>, d: Direction, now: nat, times: seq<nat>)
    requires BumpsWithin(events + [Press(d, now)], GENERATIONS - 1)
    ensures RunFrames(Run(events + [Press(d, now)]), times).count
            == Moved(Run(events).count, d, 1 + FramesPast(now, times))
  {
    Appended(events, Press(d, now));
    RunIsTracked(events);
    RunIsTracked(events + [Press(d, now)]);
    var a := HoldFrames(Run(events + [Press(d, now)]), AgesAfter(events + [Press(d, now)]), d, now, times);
  }

  /** Frames that come before 320 milliseconds have passed since the press change nothing. */
  lemma NoStepBeforeDelay(events: seq<Event>, d: Direction, now: nat, times: seq<nat>)
    requires BumpsWithin(events + [Press(d, now)], GENERATIONS - 1)
    requires forall i :: 0 <= i < |times| ==> times[i] < now + 320
    ensures RunFrames(Run(events + [Press(d, now)]), times).count == Run(events + [Press(d, now)]).count
  {
    HoldCount(events, d, now, times);
    AllEarlyOrAllLate(now, times);
    PressCounts(events, d, now, []);
  }

  lemma PressCounts(events: seq<Event>, d: Direction, now: nat, none: seq<nat>)
    requires BumpsWithin(events + [Press(d, now)], GENERATIONS - 1) && none == []
    ensures Run(events + [Press(d, now)]).count == Moved(Run(events).count, d, 1)
  {
    HoldCount(events, d, now, none);
  }

  /** From then on every frame is a step. */
  lemma EveryFrameStepsAfterDelay(events: seq<Event>, d: Direction, now: nat, times: seq<nat>)
    requires BumpsWithin(events + [Press(d, now)], GENERATIONS - 1)
    requires forall i :: 0 <= i < |times| ==> times[i] >= now + 320
    ensures RunFrames(Run(events + [Press(d, now)]), times).count == Moved(Run(events).count, d, 1 + |times|)
  {
    HoldCount(events, d, now, times);
    AllEarlyOrAllLate(now, times);
  }

  lemma {:induction false} HoldFrames(st: AppState, a: Ages, d: Direction, now: nat, times: seq<nat>) returns (a': Ages)
    requires Tracked(st, a) && a.bumps < GENERATIONS && st.direction == Some(d) && st.started == Some(now)
    ensures var after := RunFrames(st, times);
      && Tracked(after, a') && a'.bumps < GENERATIONS
      && after.direction == Some(d) && after.started == Some(now)
      && after.count == Moved(st.count, d, FramesPast(now, times))
  {
    if times == [] {
      a' := a;
    } else {
      var n := |times| - 1;
      var a1 := HoldFrames(st, a, d, now, times[..n]);
      var before := RunFrames(st, times[..n]);
      FrameActsOnce(before, a1, times[n]);
      StepKeepsTracked(before, a1, Frame(times[n]));
      a' := AgeStep(a1, before, Frame(times[n]));
    }
  }

  // ---------------------------------------------------------------- clicks

  function PressesOf(events: seq<Event>, d: Direction): nat {
    if events == [] then 0
    else PressesOf(Front(events), d) + if events[|events| - 1].Press? && events[|events| - 1].direction == d then 1 else 0
  }

  /** Until frames come the count is the presses up less the presses down, from zero. */
  lemma {:induction false} ClicksCount(events: seq<Event>)
    requires !HasFrame(events) && |events| < I32_MAX
    ensures Run(events).count == PressesOf(events, Inc) - PressesOf(events, Dec)
    ensures PressesOf(events, Inc) + PressesOf(events, Dec) <= |events|
    decreases |events|
  {
    if events != [] {
      ClicksCount(Front(events));
      assert !events[|events| - 1].Frame?;
    }
  }

  // ---------------------------------------------------------------- why the bound is needed

  /** A hold that has seen one frame, then `n` releases. */
  function HeldThenReleased(n: nat): seq<Event> {
    if n == 0 then [] + [Press(Inc, 0)] + [Frame(0)] else HeldThenReleased(n - 1) + [Release]
  }

  lemma NextGeneration(n: nat)
    ensures (n % GENERATIONS + 1) % GENERATIONS == (n + 1) % GENERATIONS
  {
  }

  /** `n` generations after the first hold's, with only that hold's callback pending. */
  ghost predicate Waiting(events: seq<Event>, n: nat) {
    && Run(events).generation == (1 + n) % GENERATIONS
    && Run(events).pending == [1]
    && AgesAfter(events).bumps == n
    && BumpsWithin(events, n + 1)
  }

  lemma ReleaseWaits(events: seq<Event>, n: nat)
    requires Waiting(events, n)
    ensures Waiting(events + [Release], n + 1)
  {
    NextGeneration(1 + n);
    Appended(events, Release);
    WithinMore(events, n + 1, n + 2);
  }

  lemma {:induction false} AfterReleases(n: nat)
    ensures Waiting(HeldThenReleased(n), n)
  {
    if n == 0 {
      FirstHold([], [] + [Press(Inc, 0)]);
    } else {
      AfterReleases(n - 1);
      ReleaseWaits(HeldThenReleased(n - 1), n - 1);
    }
  }

  lemma FirstHold(none: seq<Event>, pressed: seq<Event>)
    requires none == [] && pressed == none + [Press(Inc, 0)]
    ensures Waiting(pressed + [Frame(0)], 0)
  {
    Appended(none, Press(Inc, 0));
    assert Run(none) == Initial() && AgesAfter(none) == Ages([], 0);
    Appended(pressed, Frame(0));
    assert AgesAfter(pressed).bumps == 1 && BumpsWithin(pressed, 1);
    RunIsTracked(pressed);
    FrameActsOnce(Run(pressed), AgesAfter(pressed), 0);
  }

  lemma TwoMatch(st: AppState)
    requires st.pending == [1] + [1] && st.generation == 1
    ensures Matching(st) == 2
  {
    assert st.pending[..1] == [1] && [1][..0] == [];
    assert Count([1], 1) == 1;
  }

  /** After a full cycle of generations within one frame a stale callback acts again: two callbacks match. */
  lemma WrapAroundBreaks(before: seq<Event>)
    requires Waiting(before, GENERATIONS - 1)
    ensures BumpsWithin(before + [Press(Inc, 0)], GENERATIONS)
    ensures Matching(Run(before + [Press(Inc, 0)])) == 2
  {
    Appended(before, Press(Inc, 0));
    PressAfterCycle(Run(before));
  }

  lemma PressAfterCycle(st: AppState)
    requires st.generation == 0 && st.pending == [1]
    ensures Matching(Begin(st, Inc, 0)) == 2
  {
    TwoMatch(Begin(st, Inc, 0));
  }

  /** The protocol is safe under a bound on presses and releases per frame exactly when the bound is below 2^64. */
  lemma SafeExactlyBelowWrapAround(n: nat)
    ensures (forall events :: BumpsWithin(events, n) ==> OneActs(Run(events))) <==> n < GENERATIONS
  {
    if n < GENERATIONS {
      forall events | BumpsWithin(events, n)
        ensures OneActs(Run(events))
      {
        WithinMore(events, n, GENERATIONS - 1);
        HoldIsSafe(events);
      }
    } else {
      AfterReleases(GENERATIONS - 1);
      WrapAroundBreaks(HeldThenReleased(GENERATIONS - 1));
      var events := HeldThenReleased(GENERATIONS - 1) + [Press(Inc, 0)];
      WithinMore(events, GENERATIONS, n);
    }
  }
}
