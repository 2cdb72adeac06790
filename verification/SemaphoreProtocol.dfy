/** The semaphore under concurrency: a notify increments under the lock and then wakes one waiter, as two
    steps; a wait tests, sleeps and tests again. */
module SemaphoreProtocol {
  import opened Wakeups

  /** Where a thread stands; `timed` waits may give up. */
  datatype Thread =
    | Idle
    | Notifying                    // has incremented, its `notify_one` is pending
    | Asleep(timed: bool)
    | Woken(timed: bool)           // about to test the value again
    | Expired                      // its timeout has passed, about to test the value a last time

  datatype State = State(value: nat, threads: map<nat, Thread>)

  datatype Step =
    | Increment(t: nat)
    | NotifyNone(t: nat)
    | NotifyOne(t: nat, woken: nat)
    | StartWait(t: nat, timed: bool)
    | SpuriousWake(t: nat)
    | Expire(t: nat)
    | Retest(t: nat)
    | LastTest(t: nat)

  predicate IsAsleep(s: State, t: nat) {
    t in s.threads && s.threads[t].Asleep?
  }

  function Move(s: State, t: nat, thread: Thread): State {
    s.(threads := s.threads[t := thread])
  }

  /** The value is positive: take a token, and the wait is over. */
  function Take(s: State, t: nat): State
    requires s.value > 0
  {
    Move(s, t, Idle).(value := s.value - 1)
  }

  ghost predicate Next(s: State, step: Step, s': State) {
    step.t in s.threads &&
    var thread := s.threads[step.t];
    match step
    case Increment(t) =>
      thread.Idle? && s' == Move(s, t, Notifying).(value := s.value + 1)
    case NotifyNone(t) =>
      thread.Notifying? && (forall u :: !IsAsleep(s, u)) && s' == Move(s, t, Idle)
    case NotifyOne(t, woken) =>
      thread.Notifying? && IsAsleep(s, woken)
      && s' == Move(Move(s, t, Idle), woken, Woken(s.threads[woken].timed))
    case StartWait(t, timed) =>
      thread.Idle? && s' == if s.value > 0 then Take(s, t) else Move(s, t, Asleep(timed))
    case SpuriousWake(t) =>
      thread.Asleep? && s' == Move(s, t, Woken(thread.timed))
    case Expire(t) =>
      thread == Asleep(true) && s' == Move(s, t, Expired)
    case Retest(t) =>
      thread.Woken? && s' == if s.value > 0 then Take(s, t) else Move(s, t, Asleep(thread.timed))
    case LastTest(t) =>
      thread.Expired? && s' == if s.value > 0 then Take(s, t) else Move(s, t, Idle)
  }

  ghost predicate IsRun(initial: nat, states: seq<State>, steps: seq<Step>) {
    && |states| == |steps| + 1
    && states[0].value == initial
    && (forall t :: t in states[0].threads ==> states[0].threads[t].Idle?)
    && forall i :: 0 <= i < |steps| ==> Next(states[i], steps[i], states[i + 1])
  }

  /** Pending notifications and threads already awake. */
  predicate Due(thread: Thread) {
    thread.Notifying? || thread.Woken? || thread.Expired?
  }

  function DueThreads(s: State): set<nat> {
    set t | t in s.threads && Due(s.threads[t])
  }

  ghost predicate NoStrandedWait(s: State) {
    (exists t :: IsAsleep(s, t)) ==> s.value <= |DueThreads(s)|
  }

  lemma SameThreads(s: State, s': State)
    requires s'.threads == s.threads
    ensures DueThreads(s') == DueThreads(s)
    ensures forall t :: IsAsleep(s', t) <==> IsAsleep(s, t)
  {}

  lemma TakeKeepsNoStrandedWait(s: State, t: nat)
    requires s.value > 0 && t in s.threads && !s.threads[t].Asleep? && NoStrandedWait(s)
    ensures NoStrandedWait(Take(s, t))
  {
    OneDiffers(DueThreads(s), DueThreads(Move(s, t, Idle)), t);
    SameThreads(Move(s, t, Idle), Take(s, t));
    assert forall u :: IsAsleep(Move(s, t, Idle), u) ==> IsAsleep(s, u);
  }

  lemma IncrementKeepsNoStrandedWait(s: State, t: nat)
    requires t in s.threads && s.threads[t].Idle? && NoStrandedWait(s)
    ensures NoStrandedWait(Move(s, t, Notifying).(value := s.value + 1))
  {
    OneDiffers(DueThreads(s), DueThreads(Move(s, t, Notifying)), t);
    SameThreads(Move(s, t, Notifying), Move(s, t, Notifying).(value := s.value + 1));
    assert forall u :: IsAsleep(Move(s, t, Notifying), u) ==> IsAsleep(s, u);
  }

  lemma NotifyOneKeepsNoStrandedWait(s: State, t: nat, woken: nat)
    requires t in s.threads && s.threads[t].Notifying? && IsAsleep(s, woken) && NoStrandedWait(s)
    ensures NoStrandedWait(Move(Move(s, t, Idle), woken, Woken(s.threads[woken].timed)))
  {
    OneDiffers(DueThreads(s), DueThreads(Move(s, t, Idle)), t);
    var idle := Move(s, t, Idle);
    OneDiffers(DueThreads(idle), DueThreads(Move(idle, woken, Woken(s.threads[woken].timed))), woken);
  }

  lemma StepKeepsNoStrandedWait(s: State, step: Step, s': State)
    requires Next(s, step, s') && NoStrandedWait(s)
    ensures NoStrandedWait(s')
  {
    var t := step.t;
    assert s.threads[t].Asleep? ==> IsAsleep(s, t);
    match step
    case Increment(_) => IncrementKeepsNoStrandedWait(s, t);
    case NotifyNone(_) => assert forall u :: IsAsleep(s', u) ==> IsAsleep(s, u);
    case NotifyOne(_, woken) => NotifyOneKeepsNoStrandedWait(s, t, woken);
    case StartWait(_, _) =>
      if s.value > 0 { TakeKeepsNoStrandedWait(s, t); }
    case SpuriousWake(_) => OneDiffers(DueThreads(s), DueThreads(Move(s, t, Woken(s.threads[t].timed))), t);
    case Expire(_) => OneDiffers(DueThreads(s), DueThreads(Move(s, t, Expired)), t);
    case Retest(_) =>
      if s.value > 0 { TakeKeepsNoStrandedWait(s, t); }
    case LastTest(_) =>
      if s.value > 0 { TakeKeepsNoStrandedWait(s, t); }
  }

  lemma {:induction false} RunInvariant(initial: nat, states: seq<State>, steps: seq<Step>, i: nat)
    requires IsRun(initial, states, steps) && i < |states|
    ensures NoStrandedWait(states[i])
  {
    if i > 0 {
      RunInvariant(initial, states, steps, i - 1);
      StepKeepsNoStrandedWait(states[i - 1], steps[i - 1], states[i]);
    }
  }

  /** In every interleaving: while a wait sleeps, the value is covered by pending notifications and waiters
      already awake; so with none of them due a wait sleeps only on a value of zero. */
  lemma NoWaitSleepsBesideTokens(initial: nat, states: seq<State>, steps: seq<Step>, i: nat, t: nat)
    requires IsRun(initial, states, steps) && i < |states| && IsAsleep(states[i], t)
    ensures states[i].value <= |DueThreads(states[i])|
    ensures (forall u :: u in states[i].threads ==> !Due(states[i].threads[u])) ==> states[i].value == 0
  {
    RunInvariant(initial, states, steps, i);
    if forall u :: u in states[i].threads ==> !Due(states[i].threads[u]) {
      assert DueThreads(states[i]) == {};
    }
  }

  /** A step changes no thread but its own and the sleeper it wakes. A notify ends the call it belongs to. */
  lemma StepIsLocal(s: State, step: Step, s': State)
    requires Next(s, step, s')
    ensures s'.threads.Keys == s.threads.Keys
    ensures forall u :: u in s.threads && u != step.t ==>
              s'.threads[u] == if IsAsleep(s, u) && step.NotifyOne? && u == step.woken
                               then Woken(s.threads[u].timed) else s.threads[u]
    ensures step.NotifyNone? || step.NotifyOne? ==> s'.threads[step.t].Idle?
  {}

  // ---------- What every wait comes to ----------

  /** Thread `t` is in the wait it began with step `b`, up to the state before step `e`. */
  ghost predicate InWait(states: seq<State>, steps: seq<Step>, b: nat, e: nat) {
    && b <= e < |states| && b < |steps| && steps[b].StartWait?
    && forall k :: b < k <= e ==> steps[b].t in states[k].threads && !states[k].threads[steps[b].t].Idle?
  }

  /** Its timeout has passed in the meantime. */
  predicate TimedOut(steps: seq<Step>, t: nat, b: nat, e: nat)
    requires e <= |steps|
  {
    exists j :: b < j < e && steps[j] == Step.Expire(t)
  }

  /** A wait that has begun and not ended sleeps, or is awake and about to test again; only a timed one gives
      up, after its timeout. */
  lemma {:induction false} WaitGoesOn(initial: nat, states: seq<State>, steps: seq<Step>, b: nat, e: nat)
    requires IsRun(initial, states, steps) && InWait(states, steps, b, e) && b < e
    ensures var thread := states[e].threads[steps[b].t];
            || thread == Asleep(steps[b].timed) || thread == Woken(steps[b].timed)
            || (thread.Expired? && steps[b].timed && TimedOut(steps, steps[b].t, b, e))
    decreases e
  {
    assert Next(states[e - 1], steps[e - 1], states[e]);
    if b < e - 1 {
      WaitGoesOn(initial, states, steps, b, e - 1);
      assert states[e - 1].threads[steps[b].t].Expired? ==> TimedOut(steps, steps[b].t, b, e);
    }
  }

  /** How every wait ends, in every interleaving: by taking one token, or else it was timed, its timeout has
      passed and there is no token. Before its end none of its own steps takes a token. */
  lemma WaitOutcome(initial: nat, states: seq<State>, steps: seq<Step>, b: nat, e: nat)
    requires IsRun(initial, states, steps) && InWait(states, steps, b, e) && e < |steps|
    requires steps[b].t in states[e + 1].threads && states[e + 1].threads[steps[b].t].Idle?
    ensures steps[e].t == steps[b].t
    ensures if states[e].value > 0 then states[e + 1].value == states[e].value - 1
            else states[e + 1].value == 0 && steps[b].timed && TimedOut(steps, steps[b].t, b, e)
    ensures forall k :: b <= k < e && steps[k].t == steps[b].t ==> states[k + 1].value == states[k].value
  {
    assert Next(states[e], steps[e], states[e + 1]);
    if b < e { WaitGoesOn(initial, states, steps, b, e); }
    forall k | b <= k < e && steps[k].t == steps[b].t ensures states[k + 1].value == states[k].value {
      assert Next(states[k], steps[k], states[k + 1]);
      if b < k { WaitGoesOn(initial, states, steps, b, k); }
    }
  }

  function Increments(steps: seq<Step>): nat {
    if steps == [] then 0 else
      Increments(steps[..|steps| - 1]) + if steps[|steps| - 1].Increment? then 1 else 0
  }

  /** The waits of thread `t` that have begun. */
  function Begun(steps: seq<Step>, t: nat): nat {
    if steps == [] then 0 else
      var last := steps[|steps| - 1];
      Begun(steps[..|steps| - 1], t) + if last.StartWait? && last.t == t then 1 else 0
  }

  function Decrease(s: State, s': State): nat {
    if s'.value < s.value then s.value - s'.value else 0
  }

  /** The tokens thread `t` has taken, read off the value. */
  function Taken(states: seq<State>, steps: seq<Step>, t: nat, n: nat): nat
    requires n <= |steps| && n < |states|
  {
    if n == 0 then 0 else
      Taken(states, steps, t, n - 1) + if steps[n - 1].t == t then Decrease(states[n - 1], states[n]) else 0
  }

  /** The waits of thread `t` that have been given up for want of a token. */
  function GivenUp(states: seq<State>, steps: seq<Step>, t: nat, n: nat): nat
    requires n <= |steps| && n < |states|
  {
    if n == 0 then 0 else
      GivenUp(states, steps, t, n - 1) + if steps[n - 1] == LastTest(t) && states[n - 1].value == 0 then 1 else 0
  }

  predicate Waits(s: State, t: nat) {
    t in s.threads && (s.threads[t].Asleep? || s.threads[t].Woken? || s.threads[t].Expired?)
  }

  /** Every wait that a thread has begun has taken exactly one token, has been given up, or still goes on. */
  lemma {:induction false} WaitsAccountedFor(initial: nat, states: seq<State>, steps: seq<Step>, i: nat, t: nat)
    requires IsRun(initial, states, steps) && i < |states|
    ensures Begun(steps[..i], t)
         == Taken(states, steps, t, i) + GivenUp(states, steps, t, i) + if Waits(states[i], t) then 1 else 0
  {
    if i > 0 {
      WaitsAccountedFor(initial, states, steps, i - 1, t);
      assert Next(states[i - 1], steps[i - 1], states[i]);
      assert steps[..i][..i - 1] == steps[..i - 1];
    }
  }

  /** The tokens all threads have taken, read off the value. */
  function TakenByAll(states: seq<State>, n: nat): nat
    requires n < |states|
  {
    if n == 0 then 0 else TakenByAll(states, n - 1) + Decrease(states[n - 1], states[n])
  }

  /** Every token was there initially or comes from a notify, and is left or has been taken. */
  lemma {:induction false} TokensConserved(initial: nat, states: seq<State>, steps: seq<Step>, i: nat)
    requires IsRun(initial, states, steps) && i < |states|
    ensures initial + Increments(steps[..i]) == states[i].value + TakenByAll(states, i)
  {
    if i > 0 {
      TokensConserved(initial, states, steps, i - 1);
      assert Next(states[i - 1], steps[i - 1], states[i]);
      assert steps[..i][..i - 1] == steps[..i - 1];
    }
  }

  /** A thread in a call can take its next step, unless it sleeps without a timeout. */
  lemma ThreadsCanMove(s: State, t: nat) returns (step: Step, s': State)
    requires t in s.threads && !s.threads[t].Idle? && (s.threads[t].Asleep? ==> s.threads[t].timed)
    ensures step.t == t && Next(s, step, s')
  {
    match s.threads[t]
    case Notifying =>
      if u :| IsAsleep(s, u) {
        step, s' := NotifyOne(t, u), Move(Move(s, t, Idle), u, Woken(s.threads[u].timed));
      } else {
        step, s' := NotifyNone(t), Move(s, t, Idle);
      }
    case Asleep(_) => step, s' := Step.Expire(t), Move(s, t, Expired);
    case Woken(timed) => step, s' := Retest(t), if s.value > 0 then Take(s, t) else Move(s, t, Asleep(timed));
    case Expired => step, s' := LastTest(t), if s.value > 0 then Take(s, t) else Move(s, t, Idle);
  }
}
