/**
 The event loop of the user interface thread as a state machine. Events run on fibers of their own, some
 of which block and finish later; other threads schedule events and close the queue at any time.
 */
module EventLoop {
  /** What is popped from the queue: an event, or nothing but another run of the loop. */
  datatype Item = Event | Nothing

  datatype Position =
    | Dispatching(item: Item) // top of the inner loop
    | Weighing                // before the frame is rendered, if enough weight was handled
    | Trying                  // before try_pop
    | Emptied                 // the queue was empty
    | Popping                 // in pop, asleep while there is nothing to pop
    | Ended

  /** How an event ends: its function returns, blocks or throws. */
  datatype Ending = Returns(weight: real) | Blocks | Throws

  datatype State = State(
    at: Position,
    queue: seq<Item>,
    capacity: nat,
    closed: bool,
    counter: nat,
    weight: real,
    blocked: nat,         // events that blocked and have not finished yet
    pushing: nat,         // finished events that wait for room in the queue
    unrendered: nat,      // events finished since the last frame, for reference
    frames: nat)          // frames rendered, for reference

  datatype Step =
    | Dispatch(ending: Ending)
    | Weigh
    | TryPop
    | OnEmpty
    | Pop
    | Resume(ending: Ending)
    | Push
    | Schedule(item: Item)
    | Close

  /** The constant 0.001f, which is slightly more than a thousandth. */
  const MIN_WEIGHT: real := 0.001000000047497451305389404296875

  function Initial(capacity: nat): State {
    State(Dispatching(Nothing), [], capacity, false, 0, 1.0, 0, 0, 0, 0)
  }

  predicate Enabled(s: State, step: Step) {
    match step
    case Dispatch(_) => s.at.Dispatching?
    case Weigh => s.at.Weighing?
    case TryPop => s.at.Trying?
    case OnEmpty => s.at.Emptied?
    case Pop => s.at.Popping? && (s.queue != [] || s.closed)
    case Resume(ending) => s.blocked > 0 && !ending.Blocks?
    case Push => s.pushing > 0 && (s.closed || |s.queue| < s.capacity)
    case Schedule(_) => !s.closed && |s.queue| < s.capacity
    case Close => true
  }

  function Next(s: State, step: Step): State
    requires Enabled(s, step)
  {
    match step
    case Dispatch(ending) =>
      if s.at.item.Nothing? then s.(at := Weighing)
      else if ending.Blocks? then s.(at := Weighing, blocked := s.blocked + 1)
      else Finished(s.(at := Weighing), ending)
    case Weigh => if s.weight >= 1.0 then Rendered(s.(at := Trying)) else s.(at := Trying)
    case TryPop =>
      if s.queue != [] then s.(at := Dispatching(s.queue[0]), queue := s.queue[1..])
      else if s.closed then s.(at := Ended)
      else s.(at := Emptied)
    case OnEmpty => if s.counter > 0 then Rendered(s.(at := Popping)) else s.(at := Popping)
    case Pop =>
      if s.queue != [] then s.(at := Dispatching(s.queue[0]), queue := s.queue[1..])
      else s.(at := Ended)
    case Resume(ending) => Finished(s.(blocked := s.blocked - 1), ending)
    case Push => if s.closed then s.(pushing := s.pushing - 1)
                 else s.(pushing := s.pushing - 1, queue := s.queue + [Nothing])
    case Schedule(item) => s.(queue := s.queue + [item])
    case Close => s.(closed := true)
  }

  /** The end of an event that did not block: it counts if it did not throw, and then forces another run of the loop. */
  function Finished(s: State, ending: Ending): State {
    match ending
    case Returns(w) =>
      var t := s.(counter := s.counter + 1, weight := s.weight + if w > MIN_WEIGHT then w else MIN_WEIGHT,
                  unrendered := s.unrendered + 1);
      if t.closed then t
      else if |t.queue| < t.capacity then t.(queue := t.queue + [Nothing])
      else t.(pushing := t.pushing + 1)
    case _ => s
  }

  function Rendered(s: State): State {
    s.(counter := 0, weight := 0.0, unrendered := 0, frames := s.frames + 1)
  }

  // ----- runs

  /** The steps can be taken one after the other. */
  ghost predicate CanTake(s: State, steps: seq<Step>)
    decreases |steps|
  {
    steps != [] ==> Enabled(s, steps[0]) && CanTake(Next(s, steps[0]), steps[1..])
  }

  ghost function After(s: State, steps: seq<Step>): State
    requires CanTake(s, steps)
    decreases |steps|
  {
    if steps == [] then s else After(Next(s, steps[0]), steps[1..])
  }

  ghost predicate Inv(s: State) {
    && s.counter == s.unrendered && s.capacity > 0
    && s.weight >= 0.001 * (s.counter as real)
    && (s.at.Popping? && s.counter > 0 && !s.closed ==> s.queue != [] || s.pushing > 0)
    && (s.at.Ended? ==> s.closed)
  }

  lemma StepKeepsInv(s: State, step: Step)
    requires Inv(s) && Enabled(s, step)
    ensures Inv(Next(s, step))
  {
  }

  lemma {:induction false} TakeKeepsInv(s: State, steps: seq<Step>)
    requires Inv(s) && CanTake(s, steps)
    ensures Inv(After(s, steps))
    decreases |steps|
  {
    hide Inv, Enabled, Next;
    if steps != [] {
      StepKeepsInv(s, steps[0]);
      TakeKeepsInv(Next(s, steps[0]), steps[1..]);
    }
  }

  lemma InitialIsInv(capacity: nat)
    requires capacity > 0
    ensures Inv(Initial(capacity))
  {
  }

  lemma RunKeepsInv(capacity: nat, steps: seq<Step>)
    requires capacity > 0 && CanTake(Initial(capacity), steps)
    ensures Inv(After(Initial(capacity), steps))
  {
    hide Inv, CanTake, After, Initial;
    InitialIsInv(capacity);
    TakeKeepsInv(Initial(capacity), steps);
  }

  /** Nothing is left to do but to wait for other threads: the loop is asleep and no fiber can push. */
  predicate Idle(s: State) {
    s.at.Popping? && !Enabled(s, Pop) && !Enabled(s, Push)
  }

  /** Before the loop idles, every event that has finished has been rendered. */
  lemma IdleMeansRendered(capacity: nat, steps: seq<Step>)
    requires capacity > 0 && CanTake(Initial(capacity), steps) && Idle(After(Initial(capacity), steps))
    ensures After(Initial(capacity), steps).unrendered == 0
  {
    RunKeepsInv(capacity, steps);
  }

  // ----- how many events finish between two frames

  /** No event blocks. */
  ghost predicate NonBlocking(steps: seq<Step>) {
    forall i :: 0 <= i < |steps| && steps[i].Dispatch? ==> !steps[i].ending.Blocks?
  }

  ghost predicate Bounded(s: State) {
    s.blocked == 0 && s.counter <= 1000 && (!s.at.Weighing? ==> s.counter < 1000)
  }

  /** Each event weighs at least a thousandth of a frame. */
  lemma WeighLimits(s: State)
    requires Inv(s) && s.at.Weighing?
    ensures Next(s, Weigh).counter < 1000
  {
  }

  lemma StaysBounded(s: State, step: Step)
    requires Inv(s) && Bounded(s) && Enabled(s, step) && (step.Dispatch? ==> !step.ending.Blocks?)
    ensures Bounded(Next(s, step))
  {
    if step.Weigh? {
      WeighLimits(s);
    }
  }

  lemma {:induction false} NonBlockingIsBounded(s: State, steps: seq<Step>)
    requires Inv(s) && Bounded(s) && CanTake(s, steps) && NonBlocking(steps)
    ensures Bounded(After(s, steps))
    decreases |steps|
  {
    if steps != [] {
      assert NonBlocking(steps[1..]);
      hide Inv, Enabled, Next, Bounded;
      StaysBounded(s, steps[0]);
      StepKeepsInv(s, steps[0]);
      NonBlockingIsBounded(Next(s, steps[0]), steps[1..]);
    }
  }

  /** If no event blocks, at most 1000 events finish between two frames. */
  lemma AtMost1000BetweenFrames(capacity: nat, steps: seq<Step>)
    requires capacity > 0 && CanTake(Initial(capacity), steps) && NonBlocking(steps)
    ensures After(Initial(capacity), steps).unrendered <= 1000
  {
    NonBlockingIsBounded(Initial(capacity), steps);
    RunKeepsInv(capacity, steps);
  }

  /** Even if events block, fewer than 1000 are left unrendered whenever the loop has weighed them. */
  lemma FewerThan1000OnceWeighed(capacity: nat, steps: seq<Step>)
    requires capacity > 0 && CanTake(Initial(capacity), steps) && After(Initial(capacity), steps).at.Weighing?
    ensures Next(After(Initial(capacity), steps), Weigh).unrendered < 1000
  {
    RunKeepsInv(capacity, steps);
    StepKeepsInv(After(Initial(capacity), steps), Weigh);
    WeighLimits(After(Initial(capacity), steps));
  }

  // ----- closing

  /** How many events are queued or about to be dispatched. */
  function Events(s: State): nat {
    EventsIn(s.queue) + if s.at == Dispatching(Event) then 1 else 0
  }

  function EventsIn(items: seq<Item>): nat {
    if items == [] then 0 else (if items[0].Event? then 1 else 0) + EventsIn(items[1..])
  }

  /**
   When the queue is closed in this state, a frame for all finished events still comes: no event is left
   that could finish later, and either there is nothing to render, or the loop has just found the queue
   empty, or enough weight was handled and the loop gets to weigh it again.
   */
  predicate LastFrameIsSure(s: State) {
    && s.blocked == 0 && Events(s) == 0
    && (|| s.counter == 0
        || s.at.Emptied?
        || (s.weight >= 1.0 && (s.at.Dispatching? || s.at.Weighing? || s.queue != [])))
  }

  /** What LastFrameIsSure becomes while the loop runs down. */
  ghost predicate RunsDown(s: State) {
    s.closed && s.counter == s.unrendered && LastFrameIsSure(s) && (s.at.Ended? ==> s.counter == 0)
  }

  lemma {:induction false} StepRunsDown(s: State, step: Step)
    requires RunsDown(s) && Enabled(s, step)
    ensures RunsDown(Next(s, step))
  {
  }

  lemma {:induction false} TakeRunsDown(s: State, steps: seq<Step>)
    requires RunsDown(s) && CanTake(s, steps)
    ensures RunsDown(After(s, steps))
    decreases |steps|
  {
    hide RunsDown, Enabled, Next;
    if steps != [] {
      StepRunsDown(s, steps[0]);
      TakeRunsDown(Next(s, steps[0]), steps[1..]);
    }
  }

  /** Before the last step of the loop on a closed queue. */
  ghost predicate Last(s: State) {
    s.closed && s.queue == [] && (s.at.Trying? || s.at.Popping?)
  }

  function Rank(at: Position): nat {
    match at
    case Dispatching(_) => 3
    case Weighing => 2
    case Trying => 1
    case Emptied => 1
    case Popping => 0
    case Ended => 0
  }

  /** The next step of the loop itself, in which every event blocks. */
  function OwnStep(s: State): Step {
    match s.at
    case Dispatching(_) => Dispatch(Blocks)
    case Weighing => Weigh
    case Trying => TryPop
    case Emptied => OnEmpty
    case _ => Pop
  }

  lemma {:induction false} OwnStepRunsDown(s: State)
    requires s.closed && !s.at.Ended? && !Last(s)
    ensures Enabled(s, OwnStep(s))
    ensures var t := Next(s, OwnStep(s));
            && t.closed && !t.at.Ended? && t.blocked + Events(t) == s.blocked + Events(s)
            && 4 * |t.queue| + Rank(t.at) < 4 * |s.queue| + Rank(s.at)
            && (s.weight < 1.0 && !s.at.Emptied? ==>
                  t.weight < 1.0 && !t.at.Emptied? && t.unrendered == s.unrendered)
  {
  }

  /** The loop can run down without finishing an event, and without rendering if there is not enough weight. */
  lemma {:induction false} RunDown(s: State) returns (steps: seq<Step>)
    requires s.closed && !s.at.Ended?
    ensures CanTake(s, steps)
    ensures var t := After(s, steps);
            && Last(t) && t.blocked == s.blocked + Events(s)
            && (Last(s) ==> t == s)
            && (s.weight < 1.0 && !s.at.Emptied? ==> t.unrendered == s.unrendered)
    decreases 4 * |s.queue| + Rank(s.at)
  {
    if Last(s) {
      steps := [];
    } else {
      OwnStepRunsDown(s);
      var rest := RunDown(Next(s, OwnStep(s)));
      hide Enabled, Next, Events, OwnStep, Last;
      steps := [OwnStep(s)] + rest;
      assert steps[1..] == rest;
    }
  }

  lemma {:induction false} TakeMore(s: State, steps: seq<Step>, step: Step)
    requires CanTake(s, steps) && Enabled(After(s, steps), step)
    ensures CanTake(s, steps + [step]) && After(s, steps + [step]) == Next(After(s, steps), step)
    decreases |steps|
  {
    hide Enabled, Next;
    if steps == [] {
      assert steps + [step] == [step];
    } else {
      assert (steps + [step])[1..] == steps[1..] + [step];
      TakeMore(Next(s, steps[0]), steps[1..], step);
    }
  }

  /** Otherwise some run ends with events that were never rendered. */
  lemma {:induction false} LastFrameIsSkipped(s: State) returns (steps: seq<Step>)
    requires s.closed && !s.at.Ended? && s.counter == s.unrendered && !LastFrameIsSure(s)
    ensures CanTake(s, steps) && After(s, steps).at.Ended? && After(s, steps).unrendered > 0
  {
    steps := RunDown(s);
    var t := After(s, steps);
    hide CanTake, After;
    if t.blocked > 0 {
      TakeMore(s, steps, Resume(Returns(0.0)));
      steps := steps + [Resume(Returns(0.0))];
      t := After(s, steps);
    }
    var step := if t.at.Trying? then TryPop else Pop;
    TakeMore(s, steps, step);
    steps := steps + [step];
  }

  /**
   When the queue is closed in a state that the loop can reach, all finished events have been rendered
   whenever the loop ends, whatever happens until then, exactly if LastFrameIsSure holds there.
   */
  lemma ClosingRendersExactly(capacity: nat, steps: seq<Step>)
    requires capacity > 0 && CanTake(Initial(capacity), steps)
    requires !After(Initial(capacity), steps).closed
    ensures var s := After(Initial(capacity), steps);
            LastFrameIsSure(s)
            <==> forall more :: CanTake(Next(s, Close), more) && After(Next(s, Close), more).at.Ended? ==>
                   After(Next(s, Close), more).unrendered == 0
  {
    var s := After(Initial(capacity), steps);
    RunKeepsInv(capacity, steps);
    var c := Next(s, Close);
    assert LastFrameIsSure(c) <==> LastFrameIsSure(s);
    hide CanTake, After;
    if LastFrameIsSure(s) {
      forall more | CanTake(c, more) && After(c, more).at.Ended? ensures After(c, more).unrendered == 0 {
        TakeRunsDown(c, more);
      }
    } else {
      var more := LastFrameIsSkipped(c);
      assert CanTake(c, more);
    }
  }

  lemma Prepend(s: State, step: Step, rest: seq<Step>)
    requires Enabled(s, step) && CanTake(Next(s, step), rest)
    ensures CanTake(s, [step] + rest) && After(s, [step] + rest) == After(Next(s, step), rest)
  {
    hide Enabled, Next;
    assert ([step] + rest)[1..] == rest;
  }

  /** Also an event that has finished before the queue is closed can be one that no run renders. */
  lemma FinishedEventsCanBeSkipped() returns (steps: seq<Step>)
    ensures CanTake(Initial(1), steps)
    ensures After(Initial(1), steps) == State(Trying, [Nothing], 1, false, 1, MIN_WEIGHT, 0, 0, 1, 1)
    ensures !LastFrameIsSure(After(Initial(1), steps))
  {
    var s0 := Initial(1);
    var s1 := State(Dispatching(Nothing), [Event], 1, false, 0, 1.0, 0, 0, 0, 0);
    var s2 := State(Weighing, [Event], 1, false, 0, 1.0, 0, 0, 0, 0);
    var s3 := State(Trying, [Event], 1, false, 0, 0.0, 0, 0, 0, 1);
    var s4 := State(Dispatching(Event), [], 1, false, 0, 0.0, 0, 0, 0, 1);
    var s5 := State(Weighing, [Nothing], 1, false, 1, MIN_WEIGHT, 0, 0, 1, 1);
    var s6 := State(Trying, [Nothing], 1, false, 1, MIN_WEIGHT, 0, 0, 1, 1);
    assert Next(s0, Schedule(Event)) == s1 && Next(s1, Dispatch(Blocks)) == s2 && Next(s2, Weigh) == s3;
    assert Next(s3, TryPop) == s4 && Next(s4, Dispatch(Returns(0.0))) == s5 && Next(s5, Weigh) == s6;
    assert CanTake(s6, []) && After(s6, []) == s6;
    hide CanTake, After;
    Prepend(s5, Weigh, []);
    Prepend(s4, Dispatch(Returns(0.0)), [Weigh] + []);
    Prepend(s3, TryPop, [Dispatch(Returns(0.0))] + ([Weigh] + []));
    Prepend(s2, Weigh, [TryPop] + ([Dispatch(Returns(0.0))] + ([Weigh] + [])));
    Prepend(s1, Dispatch(Blocks), [Weigh] + ([TryPop] + ([Dispatch(Returns(0.0))] + ([Weigh] + []))));
    steps := [Dispatch(Blocks)] + ([Weigh] + ([TryPop] + ([Dispatch(Returns(0.0))] + ([Weigh] + []))));
    Prepend(s0, Schedule(Event), steps);
    steps := [Schedule(Event)] + steps;
  }
}
