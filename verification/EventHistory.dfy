/** What the variables of the event loop are, in terms of the steps that were taken. */
module EventHistory {
  import opened EventLoop

  /** A record of the steps since the start, and of some since the last frame. */
  datatype History = History(
    weights: seq<real>,   // what the events weigh that returned since the last frame
    returned: nat,        // events that returned
    threw: nat,           // events that threw
    blocked: nat,         // events that blocked when they were dispatched
    resumed: nat,         // blocked events that returned or threw
    dispatched: seq<Item>,// what was dispatched
    put: seq<Item>,       // what others scheduled, and the empty items that returned events have put into the queue
    forced: nat)          // empty items among them that returned events have put there

  /** In this step an event returns, throws, or blocks. */
  predicate IsReturn(s: State, step: Step) {
    || (step.Dispatch? && s.at == Dispatching(Event) && step.ending.Returns?)
    || (step.Resume? && step.ending.Returns?)
  }

  predicate IsThrow(s: State, step: Step) {
    || (step.Dispatch? && s.at == Dispatching(Event) && step.ending.Throws?)
    || (step.Resume? && step.ending.Throws?)
  }

  predicate IsBlock(s: State, step: Step) {
    step.Dispatch? && s.at == Dispatching(Event) && step.ending.Blocks?
  }

  /** In this step an event that has returned puts its empty item into the queue: at once if there is room. */
  predicate IsForced(s: State, step: Step) {
    !s.closed && (step.Push? || (IsReturn(s, step) && |s.queue| < s.capacity))
  }

  ghost function Recorded(h: History, s: State, step: Step): History
    requires Enabled(s, step)
  {
    History(
      if Next(s, step).frames != s.frames then []
      else if IsReturn(s, step) then h.weights + [step.ending.weight] else h.weights,
      h.returned + if IsReturn(s, step) then 1 else 0,
      h.threw + if IsThrow(s, step) then 1 else 0,
      h.blocked + if IsBlock(s, step) then 1 else 0,
      h.resumed + if step.Resume? then 1 else 0,
      if step.TryPop? || step.Pop? then Arrived(h.dispatched, Next(s, step)) else h.dispatched,
      if step.Schedule? then h.put + [step.item] else if IsForced(s, step) then h.put + [Nothing] else h.put,
      h.forced + if IsForced(s, step) then 1 else 0)
  }

  function Arrived(dispatched: seq<Item>, s: State): seq<Item> {
    if s.at.Dispatching? then dispatched + [s.at.item] else dispatched
  }

  ghost function HistoryOf(s: State, steps: seq<Step>, h: History): History
    requires CanTake(s, steps)
    decreases |steps|
  {
    if steps == [] then h else HistoryOf(Next(s, steps[0]), steps[1..], Recorded(h, s, steps[0]))
  }

  /** The loop starts by dispatching an empty item. */
  const START: History := History([], 0, 0, 0, 0, [Nothing], [Nothing], 0)

  /** What the events count, each at least a thousandth of a frame. */
  function Total(weights: seq<real>): real {
    if weights == [] then 0.0
    else Total(weights[..|weights| - 1]) + Larger(weights[|weights| - 1], MIN_WEIGHT)
  }

  function Larger(a: real, b: real): real {
    if a > b then a else b
  }

  /** The weight is what the events since the last frame weigh, and one more before the first frame. */
  ghost predicate Weighs(h: History, s: State) {
    && s.weight == Total(h.weights) + (if s.frames == 0 then 1.0 else 0.0)
    && s.counter == s.unrendered == |h.weights|
  }

  /** Every event that was dispatched has returned or thrown, is blocked, or is about to run. */
  ghost predicate Accounts(h: History, s: State) {
    && s.blocked == h.blocked - h.resumed
    && EventsIn(h.dispatched) == h.returned + h.threw + s.blocked + (if s.at == Dispatching(Event) then 1 else 0)
  }

  /** What was put into the queue is dispatched in this order. */
  ghost predicate Queues(h: History, s: State) {
    h.put == h.dispatched + s.queue && |s.queue| <= s.capacity
  }

  /** While the queue is open, every event that has returned forces one more run. */
  ghost predicate Forces(h: History, s: State) {
    !s.closed ==> h.returned == h.forced + s.pushing
  }

  ghost predicate Explains(h: History, s: State) {
    Weighs(h, s) && Accounts(h, s) && Queues(h, s) && Forces(h, s)
  }

  lemma TotalOfMore(weights: seq<real>, w: real)
    ensures Total(weights + [w]) == Total(weights) + Larger(w, MIN_WEIGHT)
  {
    assert (weights + [w])[..|weights|] == weights;
  }

  lemma EventsInMore(items: seq<Item>, item: Item)
    ensures EventsIn(items + [item]) == EventsIn(items) + if item.Event? then 1 else 0
  {
    if items == [] {
      assert items + [item] == [item];
    } else {
      assert (items + [item])[1..] == items[1..] + [item];
    }
  }

  lemma TotalOfNone()
    ensures Total([]) == 0.0
  {
  }

  lemma StepWeighs(h: History, s: State, step: Step)
    requires Weighs(h, s) && Enabled(s, step)
    ensures Weighs(Recorded(h, s, step), Next(s, step))
  {
    hide Total, IsThrow, IsBlock, IsForced, Arrived;
    TotalOfNone();
    if IsReturn(s, step) {
      TotalOfMore(h.weights, step.ending.weight);
    }
  }

  lemma StepAccounts(h: History, s: State, step: Step)
    requires Accounts(h, s) && Enabled(s, step)
    ensures Accounts(Recorded(h, s, step), Next(s, step))
  {
    hide EventsIn, IsForced;
    if (step.TryPop? || step.Pop?) && s.queue != [] {
      EventsInMore(h.dispatched, s.queue[0]);
    }
  }

  lemma StepQueues(h: History, s: State, step: Step)
    requires Queues(h, s) && Enabled(s, step)
    ensures Queues(Recorded(h, s, step), Next(s, step))
  {
    hide IsThrow, IsBlock;
  }

  lemma StepForces(h: History, s: State, step: Step)
    requires Forces(h, s) && Enabled(s, step)
    ensures Forces(Recorded(h, s, step), Next(s, step))
  {
    hide IsThrow, IsBlock, Arrived;
  }

  lemma StepIsExplained(h: History, s: State, step: Step)
    requires Explains(h, s) && Enabled(s, step)
    ensures Explains(Recorded(h, s, step), Next(s, step))
  {
    hide Weighs, Accounts, Queues, Forces, Enabled, Next, Recorded;
    StepWeighs(h, s, step);
    StepAccounts(h, s, step);
    StepQueues(h, s, step);
    StepForces(h, s, step);
  }

  lemma {:induction false} RunIsExplained(s: State, steps: seq<Step>, h: History)
    requires Explains(h, s) && CanTake(s, steps)
    ensures Explains(HistoryOf(s, steps, h), After(s, steps))
    decreases |steps|
  {
    hide Explains, Enabled, Next, Recorded;
    if steps != [] {
      StepIsExplained(h, s, steps[0]);
      RunIsExplained(Next(s, steps[0]), steps[1..], Recorded(h, s, steps[0]));
    }
  }

  ghost function Since(capacity: nat, steps: seq<Step>): History
    requires CanTake(Initial(capacity), steps)
  {
    HistoryOf(Initial(capacity), steps, START)
  }

  lemma StartIsExplained(capacity: nat)
    ensures Explains(START, Initial(capacity))
  {
    assert EventsIn([Nothing]) == 0;
  }

  lemma RunsAreExplained(capacity: nat, steps: seq<Step>)
    requires CanTake(Initial(capacity), steps)
    ensures Explains(Since(capacity, steps), After(Initial(capacity), steps))
  {
    hide Explains, CanTake, After, Initial;
    StartIsExplained(capacity);
    RunIsExplained(Initial(capacity), steps, START);
  }

  // ----- when a frame is rendered

  lemma {:induction false} TotalIsAtLeast(weights: seq<real>, i: nat)
    requires i < |weights|
    ensures Total(weights) >= weights[i] && Total(weights) >= MIN_WEIGHT * (|weights| as real)
  {
    var rest := weights[..|weights| - 1];
    if rest != [] {
      TotalIsAtLeast(rest, if i < |rest| then i else 0);
    }
  }

  /**
   In every run a frame is rendered exactly when the loop weighs the events and those that returned since
   the last frame, each of at least the smallest weight, weigh at least 1 together, or there was no frame
   yet; or when the queue is empty and some event has returned since the last frame.
   */
  lemma RendersExactly(capacity: nat, steps: seq<Step>, step: Step)
    requires CanTake(Initial(capacity), steps) && Enabled(After(Initial(capacity), steps), step)
    ensures var s := After(Initial(capacity), steps);
            var weights := Since(capacity, steps).weights;
            Next(s, step).frames != s.frames
            <==> || (step.Weigh? && (Total(weights) >= 1.0 || s.frames == 0))
                 || (step.OnEmpty? && weights != [])
  {
    hide CanTake, After, Initial, Total, HistoryOf;
    RunsAreExplained(capacity, steps);
    var weights := Since(capacity, steps).weights;
    if weights == [] {
      TotalOfNone();
    } else {
      TotalIsAtLeast(weights, 0);
    }
  }

  /** An event of weight 1 or more that returned since the last frame is rendered at the next weighing. */
  lemma HeavyEventIsRendered(capacity: nat, steps: seq<Step>, i: nat)
    requires CanTake(Initial(capacity), steps) && After(Initial(capacity), steps).at.Weighing?
    requires i < |Since(capacity, steps).weights| && Since(capacity, steps).weights[i] >= 1.0
    ensures Next(After(Initial(capacity), steps), Weigh).unrendered == 0
  {
    RunsAreExplained(capacity, steps);
    TotalIsAtLeast(Since(capacity, steps).weights, i);
  }

  lemma {:induction false} TotalOfLight(weights: seq<real>)
    requires forall i :: 0 <= i < |weights| ==> weights[i] <= MIN_WEIGHT
    ensures Total(weights) == MIN_WEIGHT * (|weights| as real)
  {
    if weights != [] {
      TotalOfLight(weights[..|weights| - 1]);
    }
  }

  /** Events without weight, or with negative weight, are rendered 1000 at a time. */
  lemma LightEventsAreRenderedAt1000(capacity: nat, steps: seq<Step>)
    requires CanTake(Initial(capacity), steps) && After(Initial(capacity), steps).at.Weighing?
    requires After(Initial(capacity), steps).frames > 0
    requires var weights := Since(capacity, steps).weights;
             forall i :: 0 <= i < |weights| ==> weights[i] <= MIN_WEIGHT
    ensures var s := After(Initial(capacity), steps);
            Next(s, Weigh).frames != s.frames <==> |Since(capacity, steps).weights| >= 1000
  {
    hide CanTake, After, Initial, Total, HistoryOf;
    RunsAreExplained(capacity, steps);
    TotalOfLight(Since(capacity, steps).weights);
  }

  /** An event that throws is over, and nothing else: it counts for no frame and forces no run. */
  lemma ThrowingOnlyEnds(s: State, step: Step)
    requires Enabled(s, step) && IsThrow(s, step)
    ensures Next(s, step) == if step.Resume? then s.(blocked := s.blocked - 1) else s.(at := Weighing)
  {
    hide Total;
  }
}
