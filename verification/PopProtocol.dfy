/** The packet queue under concurrency: pushes, a close and blocking, timed or non-blocking pops, each
    broken into its critical section and its condition variable operations. */
module PopProtocol {
  import opened PacketOrder
  import opened Wakeups

  datatype Pop = Blocking | Timed | Immediate

  /** Where a thread stands. */
  datatype Thread<P> =
    | Idle
    | Pushed                       // has enqueued, its `notify_one` is pending
    | Closing                      // has cleared `running_`, its `notify_all` is pending
    | Asleep(pop: Pop)             // waits on the condition variable
    | Woken(pop: Pop)              // notified (or woken spuriously), about to test the predicate again
    | Expired                      // its timeout has passed, about to test the predicate a last time

  /** The container holds packets with the number of their push; it compares their tickets only. */
  datatype State<!P(==)> = State(
    queue: multiset<Item<P>>,
    pushes: nat,
    running: bool,
    threads: map<nat, Thread<P>>,
    delivered: seq<Item<P>>)       // history of what pops have returned

  /** A pop that tests the queue names the packet that `top` would give it. */
  datatype Step<P> =
    | Push(t: nat, packet: P, priority: Int32)
    | NotifyNone(t: nat)
    | NotifyOne(t: nat, woken: nat)
    | Close(t: nat)
    | NotifyAll(t: nat)
    | StartPop(t: nat, pop: Pop, top: Item<P>)
    | SpuriousWake(t: nat)
    | Expire(t: nat)
    | Retest(t: nat, top: Item<P>)
    | LastTest(t: nat, top: Item<P>)

  predicate IsAsleep<P>(s: State<P>, t: nat) {
    t in s.threads && s.threads[t].Asleep?
  }

  /** The wait predicate of both `pop` overloads. */
  predicate Ready<P>(s: State<P>) {
    !s.running || s.queue != multiset{}
  }

  /** No packet in the container has a ticket and priority above those of `top`. */
  ghost predicate IsTopItem<P>(queue: multiset<Item<P>>, top: Item<P>) {
    top in queue && forall other :: other in queue ==> !Less(Encode(top), Encode(other))
  }

  ghost predicate Offers<P>(s: State<P>, top: Item<P>) {
    s.running && s.queue != multiset{} ==> IsTopItem(s.queue, top)
  }

  /** `get_packet_`, called with the lock held, after which thread `t` is done. */
  function GetPacket<P>(s: State<P>, t: nat, top: Item<P>): State<P> {
    var done := s.(threads := s.threads[t := Idle]);
    if s.running && s.queue != multiset{} then
      done.(queue := s.queue - multiset{top}, delivered := s.delivered + [top])
    else
      done
  }

  function Move<P>(s: State<P>, t: nat, thread: Thread<P>): State<P> {
    s.(threads := s.threads[t := thread])
  }

  function WakeAll<P>(threads: map<nat, Thread<P>>): map<nat, Thread<P>> {
    map t | t in threads :: if threads[t].Asleep? then Woken(threads[t].pop) else threads[t]
  }

  function Enqueued<P>(s: State<P>, t: nat, item: Item<P>): State<P> {
    Move(s, t, Pushed).(queue := s.queue + multiset{item}, pushes := s.pushes + 1)
  }

  ghost predicate Next<P>(s: State<P>, step: Step<P>, s': State<P>) {
    step.t in s.threads &&
    var thread := s.threads[step.t];
    match step
    case Push(t, packet, priority) =>
      thread.Idle? && s' == Enqueued(s, t, Item(packet, priority, s.pushes))
    case NotifyNone(t) =>
      thread.Pushed? && (forall u :: u in s.threads ==> !IsAsleep(s, u)) && s' == Move(s, t, Idle)
    case NotifyOne(t, woken) =>
      thread.Pushed? && IsAsleep(s, woken)
      && s' == Move(Move(s, t, Idle), woken, Woken(s.threads[woken].pop))
    case Close(t) =>
      thread.Idle? && s' == Move(s, t, Closing).(running := false)
    case NotifyAll(t) =>
      thread.Closing? && s' == Move(s.(threads := WakeAll(s.threads)), t, Idle)
    case StartPop(t, pop, top) =>
      thread.Idle? && Offers(s, top)
      && s' == if Ready(s) || pop.Immediate? then GetPacket(s, t, top) else Move(s, t, Asleep(pop))
    case SpuriousWake(t) =>
      thread.Asleep? && s' == Move(s, t, Woken(thread.pop))
    case Expire(t) =>
      thread == Asleep(Timed) && s' == Move(s, t, Expired)
    case Retest(t, top) =>
      thread.Woken? && Offers(s, top)
      && s' == if Ready(s) then GetPacket(s, t, top) else Move(s, t, Asleep(thread.pop))
    case LastTest(t, top) =>
      thread.Expired? && Offers(s, top) && s' == GetPacket(s, t, top)
  }

  ghost predicate Initial<P>(s: State<P>) {
    && s.queue == multiset{} && s.pushes == 0 && s.running && s.delivered == []
    && forall t :: t in s.threads ==> s.threads[t].Idle?
  }

  ghost predicate IsRun<P>(states: seq<State<P>>, steps: seq<Step<P>>) {
    && |states| == |steps| + 1
    && Initial(states[0])
    && forall i :: 0 <= i < |steps| ==> Next(states[i], steps[i], states[i + 1])
  }

  // ---------- The invariant ----------

  /** Wakeups that are due: pending `notify_one` calls and threads already awake. */
  predicate Due<P>(thread: Thread<P>) {
    thread.Pushed? || thread.Woken? || thread.Expired?
  }

  function DueThreads<P>(s: State<P>): set<nat> {
    set t | t in s.threads && Due(s.threads[t])
  }

  ghost predicate NoStrandedPop<P>(s: State<P>) {
    (exists t :: IsAsleep(s, t)) ==>
      if s.running then |s.queue| <= |DueThreads(s)| else exists t :: t in s.threads && s.threads[t].Closing?
  }

  /** Taking a packet ends one due wakeup at most, and removes one packet if there is one. */
  lemma GetPacketKeepsNoStrandedPop<P>(s: State<P>, t: nat, top: Item<P>)
    requires Offers(s, top) && t in s.threads
    requires !s.threads[t].Asleep? && !s.threads[t].Closing? && !s.threads[t].Pushed?
    requires NoStrandedPop(s)
    ensures NoStrandedPop(GetPacket(s, t, top))
  {
    var s' := GetPacket(s, t, top);
    OneDiffers(DueThreads(s), DueThreads(Move(s, t, Idle)), t);
    assert DueThreads(s') == DueThreads(Move(s, t, Idle));
    if u :| IsAsleep(s', u) {
      assert IsAsleep(s, u);
      if !s.running {
        var c :| c in s.threads && s.threads[c].Closing?;
        assert s'.threads[c].Closing?;
      }
    }
  }

  lemma SleepKeepsNoStrandedPop<P>(s: State<P>, t: nat, pop: Pop)
    requires t in s.threads && !Ready(s)
    ensures NoStrandedPop(Move(s, t, Asleep(pop)))
  {}

  lemma WakeKeepsNoStrandedPop<P>(s: State<P>, t: nat, thread: Thread<P>)
    requires IsAsleep(s, t) && (thread.Woken? || thread.Expired?) && NoStrandedPop(s)
    ensures NoStrandedPop(Move(s, t, thread))
  {
    OneDiffers(DueThreads(s), DueThreads(Move(s, t, thread)), t);
    if !s.running {
      var c :| c in s.threads && s.threads[c].Closing?;
      assert Move(s, t, thread).threads[c].Closing?;
    }
  }

  lemma NotifyOneKeepsNoStrandedPop<P>(s: State<P>, t: nat, woken: nat)
    requires t in s.threads && s.threads[t].Pushed? && IsAsleep(s, woken) && NoStrandedPop(s)
    ensures NoStrandedPop(Move(Move(s, t, Idle), woken, Woken(s.threads[woken].pop)))
  {
    OneDiffers(DueThreads(s), DueThreads(Move(s, t, Idle)), t);
    var idle := Move(s, t, Idle);
    OneDiffers(DueThreads(idle), DueThreads(Move(idle, woken, Woken(s.threads[woken].pop))), woken);
    if !s.running {
      var c :| c in s.threads && s.threads[c].Closing?;
      assert Move(Move(s, t, Idle), woken, Woken(s.threads[woken].pop)).threads[c].Closing?;
    }
  }

  lemma PushKeepsNoStrandedPop<P>(s: State<P>, t: nat, item: Item<P>)
    requires t in s.threads && s.threads[t].Idle? && NoStrandedPop(s)
    ensures NoStrandedPop(Enqueued(s, t, item))
  {
    var s' := Enqueued(s, t, item);
    OneDiffers(DueThreads(s), DueThreads(Move(s, t, Pushed)), t);
    assert DueThreads(s') == DueThreads(Move(s, t, Pushed));
    if u :| IsAsleep(s', u) {
      assert IsAsleep(s, u);
      if !s.running {
        var c :| c in s.threads && s.threads[c].Closing?;
        assert s'.threads[c].Closing?;
      }
    }
  }

  lemma StepKeepsNoStrandedPop<P>(s: State<P>, step: Step<P>, s': State<P>)
    requires Next(s, step, s') && NoStrandedPop(s)
    ensures NoStrandedPop(s')
  {
    var t := step.t;
    match step
    case Push(_, packet, priority) => PushKeepsNoStrandedPop(s, t, Item(packet, priority, s.pushes));
    case NotifyNone(_) => assert forall u :: IsAsleep(s', u) ==> IsAsleep(s, u);
    case NotifyOne(_, woken) => NotifyOneKeepsNoStrandedPop(s, t, woken);
    case Close(_) => assert s'.threads[t].Closing?;
    case NotifyAll(_) => assert forall u :: !IsAsleep(s', u);
    case StartPop(_, pop, top) =>
      if Ready(s) || pop.Immediate? {
        GetPacketKeepsNoStrandedPop(s, t, top);
      } else {
        SleepKeepsNoStrandedPop(s, t, pop);
      }
    case SpuriousWake(_) => WakeKeepsNoStrandedPop(s, t, Woken(s.threads[t].pop));
    case Expire(_) => WakeKeepsNoStrandedPop(s, t, Expired);
    case Retest(_, top) =>
      if Ready(s) { GetPacketKeepsNoStrandedPop(s, t, top); } else { SleepKeepsNoStrandedPop(s, t, s.threads[t].pop); }
    case LastTest(_, top) => GetPacketKeepsNoStrandedPop(s, t, top);
  }

  /** Every packet queued has a push number of its own, and one that has been given out. */
  ghost predicate Numbered<P>(s: State<P>) {
    && (forall a :: a in s.queue ==> a.serial < s.pushes && s.queue[a] == 1)
    && (forall a, b :: a in s.queue && b in s.queue && a.serial == b.serial ==> a == b)
  }

  lemma StepKeepsNumbered<P>(s: State<P>, step: Step<P>, s': State<P>)
    requires Next(s, step, s') && Numbered(s)
    ensures Numbered(s')
  {
    if step.Push? {
    } else if step.StartPop? || step.Retest? || step.LastTest? {
    }
  }

  lemma {:induction false} RunInvariant<P>(states: seq<State<P>>, steps: seq<Step<P>>, i: nat)
    requires IsRun(states, steps) && i < |states|
    ensures NoStrandedPop(states[i]) && Numbered(states[i])
  {
    if i > 0 {
      RunInvariant(states, steps, i - 1);
      StepKeepsNoStrandedPop(states[i - 1], steps[i - 1], states[i]);
      StepKeepsNumbered(states[i - 1], steps[i - 1], states[i]);
    }
  }

  // ---------- Theorems about every run ----------

  /** As long as a pop sleeps, the packets queued are outnumbered by the wakeups due, and on a closed
      queue a `notify_all` is pending. */
  lemma SleepersAreCovered<P>(states: seq<State<P>>, steps: seq<Step<P>>, i: nat, t: nat)
    requires IsRun(states, steps) && i < |states| && IsAsleep(states[i], t)
    ensures states[i].running ==> |states[i].queue| <= |DueThreads(states[i])|
    ensures !states[i].running ==> exists c :: c in states[i].threads && states[i].threads[c].Closing?
  {
    RunInvariant(states, steps, i);
  }

  /** Once no wakeup is due and no close is in progress, a pop can be asleep only on a running, empty queue. */
  lemma NoPopSleepsBesideWork<P>(states: seq<State<P>>, steps: seq<Step<P>>, i: nat, t: nat)
    requires IsRun(states, steps) && i < |states| && IsAsleep(states[i], t)
    requires forall u :: u in states[i].threads ==> states[i].threads[u].Idle? || states[i].threads[u].Asleep?
    ensures states[i].running && states[i].queue == multiset{}
  {
    RunInvariant(states, steps, i);
    assert DueThreads(states[i]) == {};
  }

  /** The packets of the pushes among the steps, numbered in push order. */
  function PushedBy<P>(steps: seq<Step<P>>): seq<Item<P>> {
    if steps == [] then [] else
      var earlier, last := PushedBy(steps[..|steps| - 1]), steps[|steps| - 1];
      if last.Push? then earlier + [Item(last.packet, last.priority, |earlier|)] else earlier
  }

  /** What has been pushed is queued or has been returned. */
  ghost predicate Conserved<P>(s: State<P>, pushed: seq<Item<P>>) {
    s.pushes == |pushed| && multiset(pushed) == s.queue + multiset(s.delivered)
  }

  lemma GetPacketConserves<P>(s: State<P>, t: nat, top: Item<P>, pushed: seq<Item<P>>)
    requires Offers(s, top) && Conserved(s, pushed)
    ensures Conserved(GetPacket(s, t, top), pushed)
  {
    assert multiset(s.delivered + [top]) == multiset(s.delivered) + multiset{top};
  }

  lemma StepConserves<P>(s: State<P>, step: Step<P>, s': State<P>, pushed: seq<Item<P>>)
    requires Next(s, step, s') && Conserved(s, pushed)
    ensures Conserved(s', if step.Push? then pushed + [Item(step.packet, step.priority, |pushed|)] else pushed)
  {
    if step.Push? {
      assert multiset(pushed + [Item(step.packet, step.priority, |pushed|)])
          == multiset(pushed) + multiset{Item(step.packet, step.priority, |pushed|)};
    } else if step.StartPop? || step.Retest? || step.LastTest? {
      GetPacketConserves(s, step.t, step.top, pushed);
    }
  }

  /** What pops have returned and what is queued is what was pushed, each packet once. */
  lemma {:induction false} PopsConservePackets<P>(states: seq<State<P>>, steps: seq<Step<P>>, i: nat)
    requires IsRun(states, steps) && i < |states|
    ensures Conserved(states[i], PushedBy(steps[..i]))
  {
    if i > 0 {
      PopsConservePackets(states, steps, i - 1);
      StepConserves(states[i - 1], steps[i - 1], states[i], PushedBy(steps[..i - 1]));
      assert steps[..i][..i - 1] == steps[..i - 1];
    }
  }

  /** The queue runs until it is closed, and then for good. */
  lemma {:induction false} RunningUntilClosed<P>(states: seq<State<P>>, steps: seq<Step<P>>, i: nat)
    requires IsRun(states, steps) && i < |states|
    ensures states[i].running <==> forall k :: 0 <= k < i ==> !steps[k].Close?
  {
    if i > 0 {
      RunningUntilClosed(states, steps, i - 1);
      assert Next(states[i - 1], steps[i - 1], states[i]);
    }
  }

  /** A step changes no thread but its own and those it wakes: one sleeper or, on a close, all of them. A
      notify ends the call it belongs to. */
  lemma StepIsLocal<P>(s: State<P>, step: Step<P>, s': State<P>)
    requires Next(s, step, s')
    ensures s'.threads.Keys == s.threads.Keys
    ensures forall u :: u in s.threads && u != step.t ==>
              s'.threads[u] == if IsAsleep(s, u) && (step.NotifyAll? || (step.NotifyOne? && u == step.woken))
                               then Woken(s.threads[u].pop) else s.threads[u]
    ensures step.NotifyNone? || step.NotifyOne? || step.NotifyAll? ==> s'.threads[step.t].Idle?
  {}

  // ---------- What every pop comes to ----------

  /** The steps at which a pop looks for a packet. */
  predicate IsTest<P>(step: Step<P>) {
    step.StartPop? || step.Retest? || step.LastTest?
  }

  /** A pop that looks for a packet and finds one ends with it; on a closed queue it ends without one; on an
      empty queue it ends without one if it does not wait or its time is up, and otherwise sleeps. No other
      step returns anything. */
  lemma TestOutcome<P>(states: seq<State<P>>, steps: seq<Step<P>>, i: nat)
    requires IsRun(states, steps) && i < |steps|
    ensures var s, s', step := states[i], states[i + 1], steps[i];
            step.t in s.threads && step.t in s'.threads &&
            var after := s'.threads[step.t];
            if !IsTest(step) then s'.delivered == s.delivered
            else if s.running && s.queue != multiset{} then after.Idle? && |s'.delivered| == |s.delivered| + 1
            else
              && s'.delivered == s.delivered && s'.queue == s.queue
              && if !s.running || step.LastTest? || (step.StartPop? && step.pop.Immediate?) then after.Idle?
                 else after.Asleep?
  {
    assert Next(states[i], steps[i], states[i + 1]);
  }

  /** Thread `t` is in the pop it began with step `b`, with all of its states up to the one before step `e`. */
  ghost predicate InPop<P>(states: seq<State<P>>, steps: seq<Step<P>>, b: nat, e: nat) {
    && b <= e < |states| && b < |steps| && steps[b].StartPop?
    && forall k :: b < k <= e ==> steps[b].t in states[k].threads && !states[k].threads[steps[b].t].Idle?
  }

  /** Its timeout has passed in the meantime. */
  predicate TimedOut<P>(steps: seq<Step<P>>, t: nat, b: nat, e: nat)
    requires e <= |steps|
  {
    exists j :: b < j < e && steps[j] == Step.Expire(t)
  }

  /** A pop that has begun and not ended sleeps, or is awake and about to look again; only a timed one gives
      up, after its timeout. */
  lemma {:induction false} PopGoesOn<P>(states: seq<State<P>>, steps: seq<Step<P>>, b: nat, e: nat)
    requires IsRun(states, steps) && InPop(states, steps, b, e) && b < e
    ensures !steps[b].pop.Immediate?
    ensures var thread := states[e].threads[steps[b].t];
            || thread == Asleep(steps[b].pop) || thread == Woken(steps[b].pop)
            || (thread.Expired? && steps[b].pop.Timed? && TimedOut(steps, steps[b].t, b, e))
    decreases e
  {
    assert Next(states[e - 1], steps[e - 1], states[e]);
    if b < e - 1 {
      PopGoesOn(states, steps, b, e - 1);
      assert states[e - 1].threads[steps[b].t].Expired? ==> TimedOut(steps, steps[b].t, b, e);
    }
  }

  /** How every pop ends, in every interleaving: with a packet if there is one on a running queue at that
      instant. Without one it ends only on a closed queue, or on an empty one and then it was not to block; a
      timed one only after its timeout. Before its end none of its own steps takes anything. */
  lemma PopOutcome<P>(states: seq<State<P>>, steps: seq<Step<P>>, b: nat, e: nat)
    requires IsRun(states, steps) && InPop(states, steps, b, e) && e < |steps|
    requires steps[b].t in states[e + 1].threads && states[e + 1].threads[steps[b].t].Idle?
    ensures steps[e].t == steps[b].t && IsTest(steps[e])
    ensures var s, s', pop := states[e], states[e + 1], steps[b].pop;
            if s.running && s.queue != multiset{} then |s'.delivered| == |s.delivered| + 1
            else
              && s'.delivered == s.delivered && s'.queue == s.queue
              && (s.running ==> !pop.Blocking? && (pop.Timed? ==> TimedOut(steps, steps[b].t, b, e)))
    ensures forall k :: b <= k < e && steps[k].t == steps[b].t ==> states[k + 1].delivered == states[k].delivered
  {
    assert Next(states[e], steps[e], states[e + 1]);
    if b < e { PopGoesOn(states, steps, b, e); }
    TestOutcome(states, steps, e);
    forall k | b <= k < e && steps[k].t == steps[b].t ensures states[k + 1].delivered == states[k].delivered {
      TestOutcome(states, steps, k);
    }
  }

  /** Once the queue is closed no pop returns anything. */
  lemma {:induction false} NothingAfterClose<P>(states: seq<State<P>>, steps: seq<Step<P>>, i: nat, j: nat)
    requires IsRun(states, steps) && i <= j < |states| && !states[i].running
    ensures states[j].delivered == states[i].delivered && !states[j].running
    decreases j
  {
    if i < j {
      NothingAfterClose(states, steps, i, j - 1);
      assert Next(states[j - 1], steps[j - 1], states[j]);
    }
  }

  /** A thread in a call can take its next step, unless it sleeps without a timeout. `some` stands for the
      packet that a pop does not find. */
  lemma ThreadsCanMove<P>(states: seq<State<P>>, steps: seq<Step<P>>, i: nat, t: nat, some: Item<P>)
    returns (step: Step<P>, s': State<P>)
    requires IsRun(states, steps) && i < |states| && t in states[i].threads && InWindow(states[i].queue)
    requires var thread := states[i].threads[t]; !thread.Idle? && (thread.Asleep? ==> thread.pop.Timed?)
    ensures step.t == t && Next(states[i], step, s')
  {
    RunInvariant(states, steps, i);
    var s := states[i];
    var top := some;
    if s.running && s.queue != multiset{} { top := TopExists(s); }
    match s.threads[t]
    case Pushed =>
      if u :| IsAsleep(s, u) {
        step, s' := NotifyOne(t, u), Move(Move(s, t, Idle), u, Woken(s.threads[u].pop));
      } else {
        step, s' := NotifyNone(t), Move(s, t, Idle);
      }
    case Closing => step, s' := NotifyAll(t), Move(s.(threads := WakeAll(s.threads)), t, Idle);
    case Asleep(_) => step, s' := Step.Expire(t), Move(s, t, Expired);
    case Woken(pop) =>
      step, s' := Retest(t, top), if Ready(s) then GetPacket(s, t, top) else Move(s, t, Asleep(pop));
    case Expired => step, s' := LastTest(t, top), GetPacket(s, t, top);
  }

  /** Packets of one priority in the container were pushed less than 2^63 pushes apart. */
  ghost predicate InWindow<P>(queue: multiset<Item<P>>) {
    forall a, b :: a in queue && b in queue && a.priority == b.priority ==>
      2 * (a.serial - b.serial) < TICKETS
  }

  /** Inside the window a top of the container, whatever its layout, precedes all others. */
  lemma TopPrecedes<P>(s: State<P>, top: Item<P>, other: Item<P>)
    requires Numbered(s) && InWindow(s.queue) && IsTopItem(s.queue, top)
    requires other in s.queue && other != top
    ensures Precedes(top, other)
  {
    if Precedes(other, top) { OrderInWindow(other, top); }
  }

  lemma TopPrecedesRest<P>(s: State<P>, top: Item<P>)
    requires Numbered(s) && InWindow(s.queue) && IsTopItem(s.queue, top)
    ensures forall other :: other in s.queue - multiset{top} ==> Precedes(top, other)
  {
    forall other | other in s.queue - multiset{top} ensures Precedes(top, other) {
      assert other in s.queue && other != top;
      TopPrecedes(s, top, other);
    }
  }

  /** In every interleaving each pop that returns a packet returns the best one in the container at that
      instant, if the container is inside the window of its tickets. */
  lemma ConcurrentPopsTakeBest<P>(states: seq<State<P>>, steps: seq<Step<P>>, i: nat) returns (top: Item<P>)
    requires IsRun(states, steps) && i < |steps| && |states[i + 1].delivered| > |states[i].delivered|
    requires InWindow(states[i].queue)
    ensures var s, s' := states[i], states[i + 1];
            && s.running && top in s.queue
            && s'.delivered == s.delivered + [top]
            && s'.queue == s.queue - multiset{top}
            && forall other :: other in s'.queue ==> Precedes(top, other)
  {
    RunInvariant(states, steps, i);
    assert Next(states[i], steps[i], states[i + 1]);
    top := steps[i].top;
    TopPrecedesRest(states[i], top);
  }

  /** One of finitely many packets with different numbers precedes the others. */
  lemma {:induction false} BestExists<P>(queue: multiset<Item<P>>) returns (best: Item<P>)
    requires queue != multiset{}
    requires forall a, b :: a in queue && b in queue && a.serial == b.serial ==> a == b
    ensures best in queue && forall other :: other in queue && other != best ==> Precedes(best, other)
    decreases |queue|
  {
    var x :| x in queue;
    var rest := queue[x := 0];
    assert forall other :: other in queue ==> other == x || other in rest;
    if rest == multiset{} {
      best := x;
    } else {
      assert |rest| < |queue| by { assert queue == rest + multiset{}[x := queue[x]]; }
      var y := BestExists(rest);
      best := if Precedes(x, y) then x else y;
    }
  }

  /** So a pop that finds a packet can always take one: inside the window there is a top. */
  lemma TopExists<P>(s: State<P>) returns (top: Item<P>)
    requires Numbered(s) && InWindow(s.queue) && s.queue != multiset{}
    ensures IsTopItem(s.queue, top)
  {
    top := BestExists(s.queue);
    forall other | other in s.queue ensures !Less(Encode(top), Encode(other)) {
      if other != top { OrderInWindow(top, other); }
    }
  }
}
