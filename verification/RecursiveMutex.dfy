/**
 RecursiveMutex: a recursive mutex that also records its holder and a counter, in variables that any
 thread can read at any time. Each access to the mutex or to one of the variables is one step.
 */
module RecursiveMutex {
  import opened Wrappers

  type Thread = nat

  /** Where a thread is inside its own call; what remains to be done. */
  datatype Position =
    | Outside
    | StoreHolder    // lock, try_lock: the mutex is acquired
    | Increment      // lock, try_lock: the holder is stored
    | ClearHolder    // unlock: the counter is decremented to 0
    | Release        // unlock: only the mutex remains to be released

  datatype State = State(
    owner: Option<Thread>,            // of the std::recursive_mutex
    depth: nat,                       // how often its owner has acquired it
    holder: Option<Thread>,           // m_holder
    counter: nat,                     // m_counter
    at: map<Thread, Position>,        // of all threads
    held: map<Thread, nat>)           // acquisitions less releases of each thread, by finished calls, for reference
  {
    predicate WellFormed() {
      at.Keys == held.Keys && (owner.Some? ==> owner.value in at)
    }
  }

  datatype Step = Acquire(t: Thread) | Fail(t: Thread) | SetHolder(t: Thread) | Count(t: Thread)
                | Uncount(t: Thread) | UnsetHolder(t: Thread) | Unlock(t: Thread)

  function Initial(threads: set<Thread>): State {
    State(None, 0, None, 0, map t | t in threads :: Outside, map t | t in threads :: 0)
  }

  /** The std::recursive_mutex blocks while another thread owns it, and try_lock may fail at any time. */
  predicate Enabled(s: State, step: Step)
    requires s.WellFormed()
  {
    && step.t in s.at
    && match step
       case Acquire(t) => s.at[t].Outside? && (s.owner == None || s.owner == Some(t))
       case Fail(t) => s.at[t].Outside?
       case SetHolder(t) => s.at[t].StoreHolder?
       case Count(t) => s.at[t].Increment?
       case Uncount(t) => s.at[t].Outside? && s.held[t] > 0
       case UnsetHolder(t) => s.at[t].ClearHolder?
       case Unlock(t) => s.at[t].Release?
  }

  function Next(s: State, step: Step): (r: State)
    requires s.WellFormed() && Enabled(s, step)
    ensures r.WellFormed() && r.at.Keys == s.at.Keys
  {
    var t := step.t;
    match step
    case Acquire(_) => s.(owner := Some(t), depth := s.depth + 1, at := s.at[t := StoreHolder])
    case Fail(_) => s
    case SetHolder(_) => s.(holder := Some(t), at := s.at[t := Increment])
    case Count(_) => s.(counter := s.counter + 1, at := s.at[t := Outside], held := s.held[t := s.held[t] + 1])
    case Uncount(_) =>
      // unsigned, so that a counter of 0 would wrap around; CounterIsPositive shows that it is not 0
      var n := if s.counter > 0 then s.counter - 1 else 0xffff_ffff_ffff_ffff;
      s.(counter := n, at := s.at[t := if n == 0 then ClearHolder else Release])
    case UnsetHolder(_) => s.(holder := None, at := s.at[t := Release])
    case Unlock(_) =>
      var n := if s.depth > 0 then s.depth - 1 else 0;
      s.(depth := n, owner := if n == 0 then None else s.owner, at := s.at[t := Outside],
         held := s.held[t := if s.held[t] > 0 then s.held[t] - 1 else 0])
  }

  ghost predicate Run(states: seq<State>, steps: seq<Step>) {
    && |states| == |steps| + 1 && (exists threads :: states[0] == Initial(threads))
    && (forall i :: 0 <= i < |states| ==> states[i].WellFormed())
    && forall i :: 0 <= i < |steps| ==> Enabled(states[i], steps[i]) && states[i + 1] == Next(states[i], steps[i])
  }

  /** A thread that does not own the mutex has nothing to do with it. */
  ghost predicate Uninvolved(s: State, t: Thread)
    requires t in s.at && t in s.held
  {
    s.at[t].Outside? && s.held[t] == 0 && s.holder != Some(t)
  }

  /** What the variables are, by where the owner of the mutex is. */
  ghost predicate OwnedBy(s: State, t: Thread)
    requires t in s.at && t in s.held
  {
    var n := s.held[t];
    match s.at[t]
    case Outside => n > 0 && s.depth == n && s.counter == n && s.holder == Some(t)
    case StoreHolder => s.depth == n + 1 && s.counter == n && s.holder == if n > 0 then Some(t) else None
    case Increment => s.depth == n + 1 && s.counter == n && s.holder == Some(t)
    case ClearHolder => n == 1 && s.depth == 1 && s.counter == 0 && s.holder == Some(t)
    case Release => n > 0 && s.depth == n && s.counter == n - 1 && s.holder == if n > 1 then Some(t) else None
  }

  ghost predicate Inv(s: State) {
    && s.WellFormed()
    && (forall t :: t in s.at && s.owner != Some(t) ==> Uninvolved(s, t))
    && match s.owner
       case Some(t) => OwnedBy(s, t)
       case None => s.depth == 0 && s.counter == 0 && s.holder == None
  }

  lemma StepKeepsInv(s: State, step: Step)
    requires Inv(s) && Enabled(s, step)
    ensures Inv(Next(s, step))
  {
    hide OwnedBy, Uninvolved;
    var r := Next(s, step);
    forall t | t in r.at && r.owner != Some(t) ensures Uninvolved(r, t) {
      StepKeepsUninvolved(s, step, t);
    }
    if r.owner.Some? {
      StepKeepsOwned(s, step);
    } else {
      StepLeavesFree(s, step);
    }
  }

  lemma StepKeepsUninvolved(s: State, step: Step, t: Thread)
    requires Inv(s) && Enabled(s, step) && t in s.at && Next(s, step).owner != Some(t)
    ensures Uninvolved(Next(s, step), t)
  {
    if s.owner != Some(t) {
      assert Uninvolved(s, t);
    }
  }

  lemma StepKeepsOwned(s: State, step: Step)
    requires Inv(s) && Enabled(s, step) && Next(s, step).owner.Some?
    ensures OwnedBy(Next(s, step), Next(s, step).owner.value)
  {
    if s.owner != Some(step.t) {
      assert Uninvolved(s, step.t);
    }
  }

  lemma StepLeavesFree(s: State, step: Step)
    requires Inv(s) && Enabled(s, step) && Next(s, step).owner == None
    ensures var r := Next(s, step); r.depth == 0 && r.counter == 0 && r.holder == None
  {
    if s.owner != Some(step.t) {
      assert Uninvolved(s, step.t);
    }
  }

  lemma {:induction false} RunKeepsInv(states: seq<State>, steps: seq<Step>, i: nat)
    requires Run(states, steps) && i < |states|
    ensures Inv(states[i])
  {
    if i > 0 {
      RunKeepsInv(states, steps, i - 1);
      StepKeepsInv(states[i - 1], steps[i - 1]);
    }
  }

  /**
   A thread outside its own calls is recorded as the holder exactly when it has acquired the mutex more
   often than released it, and then the counter is the difference.
   */
  lemma HolderAndCounterAreExact(states: seq<State>, steps: seq<Step>, i: nat, t: Thread)
    requires Run(states, steps) && i < |states| && t in states[i].at && states[i].at[t].Outside?
    ensures states[i].holder == Some(t) <==> states[i].held[t] > 0
    ensures states[i].held[t] > 0 ==> states[i].counter == states[i].held[t] == states[i].depth
  {
    RunKeepsInv(states, steps, i);
  }

  /** At most one thread holds the mutex or is about to. */
  lemma HoldersExcludeEachOther(states: seq<State>, steps: seq<Step>, i: nat, t: Thread, u: Thread)
    requires Run(states, steps) && i < |states| && t in states[i].at && u in states[i].at
    requires !Uninvolved(states[i], t) && !Uninvolved(states[i], u)
    ensures t == u
  {
    RunKeepsInv(states, steps, i);
  }

  /** The assertion of unlock: the counter of a holder is positive when it is decremented. */
  lemma CounterIsPositive(states: seq<State>, steps: seq<Step>, i: nat)
    requires Run(states, steps) && i < |steps| && steps[i].Uncount?
    ensures states[i].counter > 0 && states[i + 1].counter == states[i].counter - 1
  {
    RunKeepsInv(states, steps, i);
  }

  // ----- nobody is stuck

  /** What a thread inside a call does next; outside, it acquires the mutex. */
  function Continue(s: State, t: Thread): Step
    requires t in s.at
  {
    match s.at[t]
    case Outside => Acquire(t)
    case StoreHolder => SetHolder(t)
    case Increment => Count(t)
    case ClearHolder => UnsetHolder(t)
    case Release => Unlock(t)
  }

  /** How many steps a thread is away from the end of its call. */
  function ToGo(s: State, t: Thread): nat
    requires t in s.at
  {
    match s.at[t]
    case Outside => 0
    case StoreHolder => 2
    case Increment => 1
    case ClearHolder => 2
    case Release => 1
  }

  /**
   In every run, a thread inside a call can always go on, and is one step nearer to its end then. A thread
   outside its calls can acquire the mutex exactly if no other thread holds it or is inside a call that
   does, and release it exactly if it has acquired it more often than released it; only a thread that has
   nothing to do with the mutex ever waits.
   */
  lemma OnlyOthersWait(states: seq<State>, steps: seq<Step>, i: nat, t: Thread)
    requires Run(states, steps) && i < |states| && t in states[i].at
    ensures var s := states[i];
            && (!s.at[t].Outside? ==>
                  Enabled(s, Continue(s, t)) && ToGo(Next(s, Continue(s, t)), t) == ToGo(s, t) - 1)
            && (s.at[t].Outside? ==>
                  && (Enabled(s, Acquire(t)) <==> forall u :: u in s.at && u != t ==> Uninvolved(s, u))
                  && (Enabled(s, Uncount(t)) <==> s.holder == Some(t)))
  {
    RunKeepsInv(states, steps, i);
    var s := states[i];
    if s.owner.Some? {
      assert OwnedBy(s, s.owner.value);
    }
  }
}
