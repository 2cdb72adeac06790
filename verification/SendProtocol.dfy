/** The UDP send side as a state machine: any number of producers enqueue and then notify, as two
    separate steps, while one sender waits once per round on the shared semaphore, pops at most one
    packet per connection and tries a zero-timeout decrement for each packet after the first. */
module SendProtocol {
  import opened Wrappers
  import opened OrderedKeys

  /** Where the sender thread stands in `send_packet`. */
  datatype Sender =
    | Waiting                              // between rounds, before its semaphore wait
    | Draining(cursor: int, first: bool)   // after connection `cursor`; `first`: nothing sent yet this round
    | Paying(cursor: int)                  // has sent an extra packet, owes the zero-timeout wait

  /** Shared state; `pushed` and `sent` are histories, per connection. */
  datatype State<!P> = State(
    queues: map<nat, seq<P>>,
    semaphore: nat,
    notifying: set<nat>,                   // producers between enqueue and notify
    sender: Sender,
    pushed: map<nat, multiset<P>>,
    sent: map<nat, seq<P>>)

  datatype Step<P> =
    | Connect(ip: nat)
    | Enqueue(producer: nat, ip: nat, packet: P, at: nat)
    | Notify(producer: nat)
    | Timeout
    | Send

  // ---------- The sender ----------

  /** The semaphore wait that ends with a zero timeout: decrement if positive, else give up. */
  function TryDecrement(value: nat): nat {
    if value > 0 then value - 1 else 0
  }

  predicate SenderCanMove<P>(s: State<P>) {
    s.sender.Waiting? ==> s.semaphore > 0
  }

  predicate Wired<P>(s: State<P>) {
    s.pushed.Keys == s.queues.Keys == s.sent.Keys
  }

  /** Take the packet at the front of one connection's queue and send it. */
  function Transmit<P>(s: State<P>, ip: nat): State<P>
    requires Wired(s) && ip in s.queues && s.queues[ip] != []
  {
    s.(queues := s.queues[ip := s.queues[ip][1..]],
       sent := s.sent[ip := s.sent[ip] + [s.queues[ip][0]]])
  }

  /** One atomic step of the sender. */
  function SenderStep<P>(s: State<P>): (t: State<P>)
    requires Wired(s) && SenderCanMove(s)
  {
    match s.sender
    case Waiting =>
      s.(semaphore := s.semaphore - 1, sender := Draining(-1, true))
    case Paying(cursor) =>
      s.(semaphore := TryDecrement(s.semaphore), sender := Draining(cursor, false))
    case Draining(cursor, first) =>
      match Following(s.queues.Keys, cursor)
      case None => s.(sender := Waiting)
      case Some(ip) =>
        if s.queues[ip] == [] then
          s.(sender := Draining(ip, first))
        else
          Transmit(s, ip).(sender := if first then Draining(ip, false) else Paying(ip))
  }

  // ---------- Runs ----------

  /** `push` up to the release of its lock: the packet enters at the place its priority gives it. */
  function Enqueued<P>(s: State<P>, producer: nat, ip: nat, packet: P, at: nat): State<P>
    requires Wired(s) && ip in s.queues && at <= |s.queues[ip]|
  {
    s.(queues := s.queues[ip := s.queues[ip][..at] + [packet] + s.queues[ip][at..]],
       pushed := s.pushed[ip := s.pushed[ip] + multiset{packet}],
       notifying := s.notifying + {producer})
  }

  predicate Next<P>(producers: set<nat>, s: State<P>, step: Step<P>, t: State<P>)
    requires Wired(s)
  {
    match step
    case Connect(ip) =>
      && ip !in s.queues
      && t == s.(queues := s.queues[ip := []], pushed := s.pushed[ip := multiset{}], sent := s.sent[ip := []])
    case Enqueue(producer, ip, packet, at) =>
      && producer in producers - s.notifying
      && ip in s.queues
      && at <= |s.queues[ip]|
      && t == Enqueued(s, producer, ip, packet, at)
    case Notify(producer) =>
      && producer in s.notifying
      && t == s.(semaphore := s.semaphore + 1, notifying := s.notifying - {producer})
    case Timeout =>
      && s.sender.Waiting? && s.semaphore == 0 && t == s
    case Send =>
      && SenderCanMove(s) && t == SenderStep(s)
  }

  function Start<P(==)>(): State<P> {
    State(map[], 0, {}, Waiting, map[], map[])
  }

  /** A run of the protocol: states and the steps between them, in any interleaving. */
  predicate IsRun<P(==)>(producers: set<nat>, states: seq<State<P>>, steps: seq<Step<P>>) {
    && |states| == |steps| + 1
    && states[0] == Start()
    && forall i :: 0 <= i < |steps| ==> Wired(states[i]) && Next(producers, states[i], steps[i], states[i + 1])
  }

  // ---------- Counting queued packets ----------

  ghost function Total<P>(queues: map<nat, seq<P>>): nat {
    if queues == map[] then 0 else
      var ip :| ip in queues;
      |queues[ip]| + Total(queues - {ip})
  }

  lemma {:induction false} TotalWithout<P>(queues: map<nat, seq<P>>, ip: nat)
    requires ip in queues
    ensures Total(queues) == |queues[ip]| + Total(queues - {ip})
    decreases |queues|
  {
    var chosen :| chosen in queues && Total(queues) == |queues[chosen]| + Total(queues - {chosen});
    if chosen != ip {
      TotalWithout(queues - {chosen}, ip);
      TotalWithout(queues - {ip}, chosen);
      assert queues - {chosen} - {ip} == queues - {ip} - {chosen};
    }
  }

  lemma TotalUpdate<P>(queues: map<nat, seq<P>>, ip: nat, queue: seq<P>)
    ensures Total(queues[ip := queue]) == Total(queues) + |queue| - (if ip in queues then |queues[ip]| else 0)
  {
    TotalWithout(queues[ip := queue], ip);
    assert queues[ip := queue] - {ip} == queues - {ip};
    if ip in queues {
      TotalWithout(queues, ip);
    } else {
      assert queues - {ip} == queues;
    }
  }

  lemma {:induction false} TotalBounds<P>(queues: map<nat, seq<P>>, ip: nat)
    requires ip in queues
    ensures |queues[ip]| <= Total(queues)
  {
    TotalWithout(queues, ip);
  }

  /** The connections a round standing at `cursor` has already passed. */
  function Passed<P>(queues: map<nat, seq<P>>, cursor: int): map<nat, seq<P>> {
    map ip | ip in queues && ip <= cursor :: queues[ip]
  }

  // ---------- The invariant ----------

  /** Notifications that exist, delivered or in flight, less the packets waiting for them. */
  ghost function Surplus<P>(s: State<P>): int {
    s.semaphore + |s.notifying| - Total(s.queues)
  }

  ghost predicate NoLostWakeup<P>(s: State<P>) {
    match s.sender
    case Waiting => Surplus(s) >= 0
    case Paying(_) => Surplus(s) >= 1
    case Draining(cursor, first) =>
      if first then
        && Surplus(s) >= -1
        && s.semaphore + |s.notifying| >= Total(Passed(s.queues, cursor))
      else
        Surplus(s) >= 0
  }

  ghost predicate FewStaleTokens<P>(s: State<P>, bound: nat) {
    match s.sender
    case Waiting => Surplus(s) <= bound
    case Paying(_) => Surplus(s) <= bound + 1
    case Draining(_, first) => Surplus(s) <= if first then bound - 1 else bound
  }

  /** What was pushed is either still queued or has been sent, counting repetitions. */
  predicate Balanced<P>(pushed: multiset<P>, queue: seq<P>, sent: seq<P>) {
    pushed == multiset(queue) + multiset(sent)
  }

  predicate Conserved<P>(s: State<P>) {
    && Wired(s)
    && forall ip :: ip in s.queues ==> Balanced(s.pushed[ip], s.queues[ip], s.sent[ip])
  }

  lemma PassedAfterUpdate<P>(queues: map<nat, seq<P>>, ip: nat, queue: seq<P>, cursor: int)
    ensures Passed(queues[ip := queue], cursor)
         == if ip <= cursor then Passed(queues, cursor)[ip := queue] else Passed(queues, cursor)
  {}

  /** Pushes and late connections raise the number of packets passed by no more than the number of
      notifications they owe. */
  lemma PassedGrows<P>(queues: map<nat, seq<P>>, ip: nat, queue: seq<P>, cursor: int)
    requires |queue| >= if ip in queues then |queues[ip]| else 0
    ensures Total(Passed(queues[ip := queue], cursor)) - Total(Passed(queues, cursor))
         <= Total(queues[ip := queue]) - Total(queues)
  {
    PassedAfterUpdate(queues, ip, queue, cursor);
    TotalUpdate(queues, ip, queue);
    if ip <= cursor {
      TotalUpdate(Passed(queues, cursor), ip, queue);
    }
  }

  lemma SenderKeepsNoLostWakeup<P>(s: State<P>)
    requires Wired(s) && SenderCanMove(s) && NoLostWakeup(s)
    ensures NoLostWakeup(SenderStep(s))
  {
    var t := SenderStep(s);
    match s.sender
    case Waiting =>
      assert Passed(s.queues, -1) == map[];
    case Paying(_) =>
    case Draining(cursor, first) =>
      match Following(s.queues.Keys, cursor)
      case None =>
        assert Passed(s.queues, cursor) == s.queues;
      case Some(ip) =>
        if s.queues[ip] == [] {
          assert Passed(s.queues, ip) == Passed(s.queues, cursor)[ip := []];
          TotalUpdate(Passed(s.queues, cursor), ip, []);
        } else {
          TotalUpdate(s.queues, ip, s.queues[ip][1..]);
        }
  }

  lemma StepKeepsNoLostWakeup<P>(producers: set<nat>, s: State<P>, step: Step<P>, t: State<P>)
    requires Wired(s) && Next(producers, s, step, t) && NoLostWakeup(s)
    ensures NoLostWakeup(t)
  {
    match step
    case Connect(ip) =>
      TotalUpdate(s.queues, ip, []);
      if s.sender.Draining? { PassedGrows(s.queues, ip, [], s.sender.cursor); }
    case Enqueue(producer, ip, packet, at) =>
      TotalUpdate(s.queues, ip, t.queues[ip]);
      if s.sender.Draining? { PassedGrows(s.queues, ip, t.queues[ip], s.sender.cursor); }
    case Notify(_) =>
    case Timeout =>
    case Send => SenderKeepsNoLostWakeup(s);
  }

  /** `bound` limits the notifications in flight whenever a zero-timeout decrement fails. */
  lemma StepKeepsFewStaleTokens<P>(producers: set<nat>, s: State<P>, step: Step<P>, t: State<P>, bound: nat)
    requires Wired(s) && Next(producers, s, step, t) && FewStaleTokens(s, bound)
    requires |s.notifying| <= bound
    ensures FewStaleTokens(t, bound)
  {
    match step
    case Connect(ip) => TotalUpdate(s.queues, ip, []);
    case Enqueue(_, ip, _, _) => TotalUpdate(s.queues, ip, t.queues[ip]);
    case Notify(_) =>
    case Timeout =>
    case Send =>
      if s.sender.Draining? {
        var next := Following(s.queues.Keys, s.sender.cursor);
        if next.Some? && s.queues[next.value] != [] {
          TotalUpdate(s.queues, next.value, s.queues[next.value][1..]);
        }
      }
  }

  lemma EnqueueBalances<P>(pushed: multiset<P>, queue: seq<P>, sent: seq<P>, at: nat, packet: P)
    requires Balanced(pushed, queue, sent) && at <= |queue|
    ensures Balanced(pushed + multiset{packet}, queue[..at] + [packet] + queue[at..], sent)
  {
    assert queue == queue[..at] + queue[at..];
  }

  lemma TransmitBalances<P>(pushed: multiset<P>, queue: seq<P>, sent: seq<P>)
    requires Balanced(pushed, queue, sent) && queue != []
    ensures Balanced(pushed, queue[1..], sent + [queue[0]])
  {
    assert queue == [queue[0]] + queue[1..];
  }

  /** Only connection `ip` has changed. */
  lemma UpdateKeepsConserved<P>(s: State<P>, t: State<P>, ip: nat)
    requires Conserved(s) && Wired(t) && t.queues.Keys == s.queues.Keys + {ip}
    requires forall other :: other in s.queues && other != ip ==>
               && t.queues[other] == s.queues[other]
               && t.pushed[other] == s.pushed[other]
               && t.sent[other] == s.sent[other]
    requires Balanced(t.pushed[ip], t.queues[ip], t.sent[ip])
    ensures Conserved(t)
  {
    forall other | other in t.queues
      ensures Balanced(t.pushed[other], t.queues[other], t.sent[other])
    {
      if other != ip {
        assert Balanced(s.pushed[other], s.queues[other], s.sent[other]);
      }
    }
  }

  lemma TransmitKeepsConserved<P>(s: State<P>, ip: nat)
    requires Conserved(s) && ip in s.queues && s.queues[ip] != []
    ensures Conserved(Transmit(s, ip))
  {
    TransmitBalances(s.pushed[ip], s.queues[ip], s.sent[ip]);
    UpdateKeepsConserved(s, Transmit(s, ip), ip);
  }

  lemma SenderKeepsConserved<P>(s: State<P>)
    requires Conserved(s) && SenderCanMove(s)
    ensures Conserved(SenderStep(s))
  {
    if s.sender.Draining? {
      var next := Following(s.queues.Keys, s.sender.cursor);
      if next.Some? && s.queues[next.value] != [] {
        TransmitKeepsConserved(s, next.value);
      }
    }
  }

  lemma EnqueueKeepsConserved<P>(s: State<P>, producer: nat, ip: nat, packet: P, at: nat)
    requires Conserved(s) && ip in s.queues && at <= |s.queues[ip]|
    ensures Conserved(Enqueued(s, producer, ip, packet, at))
  {
    EnqueueBalances(s.pushed[ip], s.queues[ip], s.sent[ip], at, packet);
    UpdateKeepsConserved(s, Enqueued(s, producer, ip, packet, at), ip);
  }

  lemma StepKeepsConserved<P>(producers: set<nat>, s: State<P>, step: Step<P>, t: State<P>)
    requires Conserved(s) && Next(producers, s, step, t)
    ensures Conserved(t)
  {
    match step
    case Connect(ip) => UpdateKeepsConserved(s, t, ip);
    case Enqueue(producer, ip, packet, at) => EnqueueKeepsConserved(s, producer, ip, packet, at);
    case Notify(_) =>
    case Timeout =>
    case Send => SenderKeepsConserved(s);
  }

  lemma NotifyingAreProducers<P>(producers: set<nat>, s: State<P>, step: Step<P>, t: State<P>)
    requires Wired(s) && Next(producers, s, step, t) && s.notifying <= producers
    ensures t.notifying <= producers
  {}

  lemma SubsetSize(small: set<nat>, large: set<nat>)
    requires small <= large
    ensures |small| <= |large|
  {
    if small != {} {
      var x :| x in small;
      SubsetSize(small - {x}, large - {x});
    }
  }

  // ---------- Theorems about every run ----------

  lemma {:induction false} RunInvariant<P>(producers: set<nat>, states: seq<State<P>>, steps: seq<Step<P>>, i: nat)
    requires IsRun(producers, states, steps) && i < |states|
    ensures Conserved(states[i]) && NoLostWakeup(states[i])
    ensures states[i].notifying <= producers && FewStaleTokens(states[i], |producers|)
  {
    if i > 0 {
      RunInvariant(producers, states, steps, i - 1);
      var s, step, t := states[i - 1], steps[i - 1], states[i];
      StepKeepsConserved(producers, s, step, t);
      StepKeepsNoLostWakeup(producers, s, step, t);
      NotifyingAreProducers(producers, s, step, t);
      SubsetSize(s.notifying, producers);
      StepKeepsFewStaleTokens(producers, s, step, t, |producers|);
    }
  }

  /** Whenever the sender is between rounds, delivered plus in-flight notifications cover every queued
      packet; so if it sleeps (semaphore at zero) with no notification pending, every queue is empty. */
  lemma NeverSleepsOnPackets<P>(producers: set<nat>, states: seq<State<P>>, steps: seq<Step<P>>, i: nat)
    requires IsRun(producers, states, steps) && i < |states| && states[i].sender.Waiting?
    ensures states[i].semaphore + |states[i].notifying| >= Total(states[i].queues)
    ensures states[i].semaphore == 0 && states[i].notifying == {} ==>
              forall ip :: ip in states[i].queues ==> states[i].queues[ip] == []
  {
    RunInvariant(producers, states, steps, i);
    forall ip | ip in states[i].queues
      ensures |states[i].queues[ip]| <= Total(states[i].queues)
    {
      TotalBounds(states[i].queues, ip);
    }
  }

  /** Between rounds the tokens beyond the queued packets never outnumber the producers. */
  lemma StaleTokensBounded<P>(producers: set<nat>, states: seq<State<P>>, steps: seq<Step<P>>, i: nat)
    requires IsRun(producers, states, steps) && i < |states| && states[i].sender.Waiting?
    ensures 0 <= Surplus(states[i]) <= |producers|
  {
    RunInvariant(producers, states, steps, i);
  }

  /** A run in which every enqueue is followed at once by its own notify. */
  predicate NotifiesAtOnce<P>(steps: seq<Step<P>>) {
    forall i :: 0 <= i < |steps| && steps[i].Enqueue? ==>
      i + 1 < |steps| && steps[i + 1] == Notify(steps[i].producer)
  }

  lemma {:induction false} AtMostOneInFlight<P>(producers: set<nat>, states: seq<State<P>>, steps: seq<Step<P>>, i: nat)
    requires IsRun(producers, states, steps) && NotifiesAtOnce(steps) && i < |states|
    ensures states[i].notifying == if i > 0 && steps[i - 1].Enqueue? then {steps[i - 1].producer} else {}
    ensures FewStaleTokens(states[i], 0)
  {
    if i > 0 {
      AtMostOneInFlight(producers, states, steps, i - 1);
      var s, step, t := states[i - 1], steps[i - 1], states[i];
      if i > 1 && steps[i - 2].Enqueue? {
        assert step == Notify(steps[i - 2].producer);
      } else {
        StepKeepsFewStaleTokens(producers, s, step, t, 0);
      }
    }
  }

  /** When enqueue and notify are taken as one step, semaphore and queues agree exactly. */
  lemma AtomicNotifyIsExact<P>(producers: set<nat>, states: seq<State<P>>, steps: seq<Step<P>>, i: nat)
    requires IsRun(producers, states, steps) && NotifiesAtOnce(steps)
    requires i < |states| && states[i].sender.Waiting?
    requires i > 0 ==> !steps[i - 1].Enqueue?
    ensures states[i].semaphore == Total(states[i].queues)
  {
    AtMostOneInFlight(producers, states, steps, i);
    RunInvariant(producers, states, steps, i);
  }

  function Adds<P>(step: Step<P>, ip: nat): multiset<P> {
    if step.Enqueue? && step.ip == ip then multiset{step.packet} else multiset{}
  }

  /** The packets of the enqueue steps on one connection. */
  function PushedOn<P>(steps: seq<Step<P>>, ip: nat): multiset<P> {
    if steps == [] then multiset{} else PushedOn(steps[..|steps| - 1], ip) + Adds(steps[|steps| - 1], ip)
  }

  function HistoryOf<P>(s: State<P>, ip: nat): multiset<P> {
    if ip in s.pushed then s.pushed[ip] else multiset{}
  }

  lemma StepPushes<P>(producers: set<nat>, s: State<P>, step: Step<P>, t: State<P>, ip: nat)
    requires Wired(s) && Next(producers, s, step, t)
    ensures HistoryOf(t, ip) == HistoryOf(s, ip) + Adds(step, ip)
  {
    match step
    case Connect(_) =>
    case Enqueue(_, _, _, _) =>
    case Notify(_) =>
    case Timeout =>
    case Send => assert SenderStep(s).pushed == s.pushed;
  }

  lemma PushedOnStep<P>(steps: seq<Step<P>>, ip: nat, i: nat)
    requires 0 < i <= |steps|
    ensures PushedOn(steps[..i], ip) == PushedOn(steps[..i - 1], ip) + Adds(steps[i - 1], ip)
  {
    assert steps[..i][..i - 1] == steps[..i - 1];
  }

  lemma {:induction false} RunPushes<P>(
    producers: set<nat>, states: seq<State<P>>, steps: seq<Step<P>>, i: nat, ip: nat)
    requires IsRun(producers, states, steps) && i < |states|
    ensures HistoryOf(states[i], ip) == PushedOn(steps[..i], ip)
  {
    if i > 0 {
      RunPushes(producers, states, steps, i - 1, ip);
      var s, step, t := states[i - 1], steps[i - 1], states[i];
      StepPushes(producers, s, step, t, ip);
      PushedOnStep(steps, ip, i);
    }
  }

  /** Every packet pushed on a connection is still queued there or was sent there, exactly once. */
  lemma EveryPacketAccountedFor<P>(producers: set<nat>, states: seq<State<P>>, steps: seq<Step<P>>, i: nat, ip: nat)
    requires IsRun(producers, states, steps) && i < |states| && ip in states[i].queues
    ensures ip in states[i].sent
    ensures PushedOn(steps[..i], ip) == multiset(states[i].queues[ip]) + multiset(states[i].sent[ip])
  {
    RunInvariant(producers, states, steps, i);
    RunPushes(producers, states, steps, i, ip);
  }

  // ---------- The sender on its own ----------

  function StepsLeft<P>(s: State<P>): nat {
    match s.sender
    case Waiting => 0
    case Draining(cursor, _) => 1 + 2 * |Beyond(s.queues.Keys, cursor)|
    case Paying(cursor) => 2 + 2 * |Beyond(s.queues.Keys, cursor)|
  }

  lemma SenderProgresses<P>(s: State<P>)
    requires Wired(s) && !s.sender.Waiting?
    ensures Wired(SenderStep(s)) && StepsLeft(SenderStep(s)) < StepsLeft(s)
    ensures SenderStep(s).queues.Keys == s.queues.Keys
  {
    if s.sender.Draining? && Following(s.queues.Keys, s.sender.cursor).Some? {
      BeyondShrinks(s.queues.Keys, s.sender.cursor);
      assert SenderStep(s).queues.Keys == s.queues.Keys;
    }
  }

  /** The sender runs alone to the end of its round. */
  function FinishRound<P>(s: State<P>): (t: State<P>)
    requires Wired(s)
    ensures t.sender.Waiting? && Wired(t)
    decreases StepsLeft(s)
  {
    if s.sender.Waiting? then s else
      SenderProgresses(s);
      FinishRound(SenderStep(s))
  }

  /** A whole `send_packet` call without interference. */
  function Round<P>(s: State<P>): (t: State<P>)
    requires Wired(s) && s.sender.Waiting?
    ensures t.sender.Waiting? && Wired(t)
  {
    if s.semaphore == 0 then s else FinishRound(SenderStep(s))
  }

  function Rounds<P>(s: State<P>, n: nat): (t: State<P>)
    requires Wired(s) && s.sender.Waiting?
    ensures t.sender.Waiting? && Wired(t)
    decreases n
  {
    if n == 0 then s else Rounds(Round(s), n - 1)
  }

  function Busy<P>(queues: map<nat, seq<P>>, cursor: int): set<nat> {
    set ip | ip in queues && ip > cursor && queues[ip] != []
  }

  function Monus(x: nat, y: nat): nat {
    if x >= y then x - y else 0
  }

  /** Packets the rest of the round sends beyond the one the first wait paid for. */
  function Owed<P>(s: State<P>): nat
    requires !s.sender.Waiting?
  {
    var busy := |Busy(s.queues, s.sender.cursor)|;
    if s.sender.Paying? then busy + 1 else if s.sender.first then Monus(busy, 1) else busy
  }

  lemma BusyShrinks<P>(s: State<P>)
    requires Wired(s) && s.sender.Draining? && Following(s.queues.Keys, s.sender.cursor).Some?
    ensures var ip := Following(s.queues.Keys, s.sender.cursor).value;
            Busy(SenderStep(s).queues, ip) == Busy(s.queues, s.sender.cursor) - {ip}
  {
    var ip := Following(s.queues.Keys, s.sender.cursor).value;
    var t := SenderStep(s);
    forall other ensures other in Busy(t.queues, ip) <==> other in Busy(s.queues, s.sender.cursor) - {ip} {}
  }

  lemma SenderStepOwes<P>(s: State<P>)
    requires Wired(s) && !s.sender.Waiting? && !SenderStep(s).sender.Waiting?
    ensures Monus(SenderStep(s).semaphore, Owed(SenderStep(s))) == Monus(s.semaphore, Owed(s))
  {
    if s.sender.Draining? {
      BusyShrinks(s);
      var ip := Following(s.queues.Keys, s.sender.cursor).value;
      assert ip in Busy(s.queues, s.sender.cursor) <==> s.queues[ip] != [];
    }
  }

  /** Connection `ip` fares the same in both states. */
  predicate Untouched<P>(s: State<P>, t: State<P>, ip: nat)
    requires Wired(s) && Wired(t) && ip in s.queues && ip in t.queues
  {
    t.queues[ip] == s.queues[ip] && t.sent[ip] == s.sent[ip]
  }

  /** The front packet of connection `ip`, if it had one, has been sent. */
  predicate Served<P>(s: State<P>, t: State<P>, ip: nat)
    requires Wired(s) && Wired(t) && ip in s.queues && ip in t.queues
  {
    if s.queues[ip] == [] then Untouched(s, t, ip) else
      t.queues[ip] == s.queues[ip][1..] && t.sent[ip] == s.sent[ip] + [s.queues[ip][0]]
  }

  lemma ServedNext<P>(s: State<P>)
    requires Wired(s) && s.sender.Draining?
    ensures var next := Following(s.queues.Keys, s.sender.cursor);
            var t := SenderStep(s);
            && Wired(t) && t.queues.Keys == s.queues.Keys
            && t.notifying == s.notifying && t.pushed == s.pushed
            && forall ip :: ip in s.queues ==>
                 if next == Some(ip) then Served(s, t, ip) else Untouched(s, t, ip)
  {
    var next := Following(s.queues.Keys, s.sender.cursor);
    if next.Some? && s.queues[next.value] != [] {
      assert SenderStep(s).queues == Transmit(s, next.value).queues;
    }
  }

  /** From `s` to `t` the connections behind `cursor` have been served, the others left alone. */
  predicate ServedFrom<P>(s: State<P>, t: State<P>, cursor: int)
    requires Wired(s) && Wired(t)
  {
    && t.queues.Keys == s.queues.Keys && t.notifying == s.notifying && t.pushed == s.pushed
    && forall ip :: ip in s.queues ==> if ip > cursor then Served(s, t, ip) else Untouched(s, t, ip)
  }

  /** The connection the round has got to. */
  function Cursor<P>(s: State<P>): int
    requires !s.sender.Waiting?
  {
    s.sender.cursor
  }

  lemma ServedOnce<P>(s: State<P>, t: State<P>, u: State<P>, ip: nat)
    requires Wired(s) && Wired(t) && Wired(u) && ip in s.queues && ip in t.queues && ip in u.queues
    ensures Untouched(s, t, ip) && Untouched(t, u, ip) ==> Untouched(s, u, ip)
    ensures Untouched(s, t, ip) && Served(t, u, ip) ==> Served(s, u, ip)
    ensures Served(s, t, ip) && Untouched(t, u, ip) ==> Served(s, u, ip)
  {}

  /** A step towards the connection behind the cursor passes no other. */
  lemma CursorMoves<P>(s: State<P>, ip: nat)
    requires Wired(s) && !s.sender.Waiting? && Wired(SenderStep(s)) && !SenderStep(s).sender.Waiting?
    requires s.sender.Draining? && ip in s.queues
    ensures ip > Cursor(SenderStep(s)) <==> ip > Cursor(s) && Following(s.queues.Keys, Cursor(s)) != Some(ip)
    ensures Following(s.queues.Keys, Cursor(s)) == Some(ip) ==> ip > Cursor(s)
  {}

  /** One step, and then the rest of the round. */
  lemma StepThenServed<P>(s: State<P>, u: State<P>)
    requires Wired(s) && Wired(u) && !s.sender.Waiting? && Wired(SenderStep(s)) && !SenderStep(s).sender.Waiting?
    requires ServedFrom(SenderStep(s), u, Cursor(SenderStep(s)))
    ensures ServedFrom(s, u, Cursor(s))
  {
    var t := SenderStep(s);
    if s.sender.Draining? {
      ServedNext(s);
      forall ip | ip in s.queues ensures if ip > Cursor(s) then Served(s, u, ip) else Untouched(s, u, ip) {
        CursorMoves(s, ip);
        ServedOnce(s, t, u, ip);
      }
    }
  }

  lemma {:induction false} FinishRoundEffect<P>(s: State<P>)
    requires Wired(s) && !s.sender.Waiting?
    ensures ServedFrom(s, FinishRound(s), Cursor(s))
    decreases StepsLeft(s)
  {
    SenderProgresses(s);
    if SenderStep(s).sender.Waiting? {
    } else {
      FinishRoundEffect(SenderStep(s));
      StepThenServed(s, FinishRound(SenderStep(s)));
    }
  }

  lemma {:induction false} FinishRoundTokens<P>(s: State<P>)
    requires Wired(s) && !s.sender.Waiting?
    ensures FinishRound(s).semaphore == Monus(s.semaphore, Owed(s))
    decreases StepsLeft(s)
  {
    SenderProgresses(s);
    if SenderStep(s).sender.Waiting? {
      assert Busy(s.queues, s.sender.cursor) == {};
    } else {
      FinishRoundTokens(SenderStep(s));
      SenderStepOwes(s);
    }
  }

  lemma {:induction false} FinishRoundKeepsNoLostWakeup<P>(s: State<P>)
    requires Wired(s) && NoLostWakeup(s) && !s.sender.Waiting?
    ensures NoLostWakeup(FinishRound(s))
    decreases StepsLeft(s)
  {
    SenderProgresses(s);
    SenderKeepsNoLostWakeup(s);
    if !SenderStep(s).sender.Waiting? {
      FinishRoundKeepsNoLostWakeup(SenderStep(s));
    }
  }

  /** One call of `send_packet` that gets past its wait sends the front packet of every non-empty
      connection, and takes one token per packet as long as tokens last. */
  lemma RoundEffect<P>(s: State<P>)
    requires Wired(s) && s.sender.Waiting? && s.semaphore > 0
    ensures Round(s).queues.Keys == s.queues.Keys
    ensures forall ip :: ip in s.queues ==> Served(s, Round(s), ip)
    ensures Round(s).semaphore == Monus(s.semaphore - 1, Monus(|Busy(s.queues, -1)|, 1))
  {
    var t := SenderStep(s);
    FinishRoundEffect(t);
    FinishRoundTokens(t);
    forall ip | ip in s.queues ensures Served(s, Round(s), ip) {
      assert Served(t, FinishRound(t), ip);
    }
  }

  /** Steps of the sender alone from `s` to `t`, in the middle of a round but perhaps at the ends. */
  ghost predicate SenderPath<P>(producers: set<nat>, states: seq<State<P>>, s: State<P>, t: State<P>) {
    && states != [] && states[0] == s && states[|states| - 1] == t
    && (forall i :: 0 <= i < |states| - 1 ==> Wired(states[i]) && Next(producers, states[i], Send, states[i + 1]))
    && forall i :: 0 < i < |states| - 1 ==> !states[i].sender.Waiting?
  }

  lemma PathFrom<P>(producers: set<nat>, s: State<P>, states: seq<State<P>>, t: State<P>)
    requires Wired(s) && SenderCanMove(s) && SenderPath(producers, states, SenderStep(s), t)
    requires |states| > 1 ==> !SenderStep(s).sender.Waiting?
    ensures SenderPath(producers, [s] + states, s, t)
  {
    var longer := [s] + states;
    forall i | 0 <= i < |longer| - 1 ensures Wired(longer[i]) && Next(producers, longer[i], Send, longer[i + 1]) {
      if i > 0 { assert Next(producers, states[i - 1], Send, states[i]); }
    }
    forall i | 0 < i < |longer| - 1 ensures !longer[i].sender.Waiting? {
      assert longer[i] == states[i - 1];
    }
  }

  lemma {:induction false} FinishRoundIsPath<P>(producers: set<nat>, s: State<P>) returns (states: seq<State<P>>)
    requires Wired(s)
    ensures SenderPath(producers, states, s, FinishRound(s)) && (s.sender.Waiting? ==> states == [s])
    decreases StepsLeft(s)
  {
    if s.sender.Waiting? {
      states := [s];
    } else {
      SenderProgresses(s);
      var rest := FinishRoundIsPath(producers, SenderStep(s));
      PathFrom(producers, s, rest, FinishRound(s));
      states := [s] + rest;
    }
  }

  /** A whole `send_packet` call is a path of the protocol: a timeout that changes nothing, whatever is queued,
      or one round of the sender's own steps. */
  lemma RoundIsPath<P>(producers: set<nat>, s: State<P>) returns (states: seq<State<P>>)
    requires Wired(s) && s.sender.Waiting?
    ensures if s.semaphore == 0 then Next(producers, s, Timeout, Round(s)) && Round(s) == s
            else SenderPath(producers, states, s, Round(s)) && |states| > 1
  {
    states := [s];
    if s.semaphore > 0 {
      var rest := FinishRoundIsPath(producers, SenderStep(s));
      PathFrom(producers, s, rest, Round(s));
      states := [s] + rest;
    }
  }

  /** The first `n` packets of connection `ip` have been sent, in order, or all if there were fewer. */
  predicate Drained<P>(s: State<P>, t: State<P>, ip: nat, n: nat)
    requires Wired(s) && Wired(t) && ip in s.queues && ip in t.queues
  {
    var k := if n <= |s.queues[ip]| then n else |s.queues[ip]|;
    && t.queues[ip] == s.queues[ip][k..]
    && t.sent[ip] == s.sent[ip] + s.queues[ip][..k]
  }

  predicate AllServed<P>(s: State<P>, t: State<P>)
    requires Wired(s) && Wired(t)
  {
    t.queues.Keys == s.queues.Keys && forall ip :: ip in s.queues ==> Served(s, t, ip)
  }

  predicate AllDrained<P>(s: State<P>, t: State<P>, n: nat)
    requires Wired(s) && Wired(t)
  {
    t.queues.Keys == s.queues.Keys && forall ip :: ip in s.queues ==> Drained(s, t, ip, n)
  }

  lemma ServedThenDrained<P>(s: State<P>, t: State<P>, u: State<P>, ip: nat, n: nat)
    requires Wired(s) && Wired(t) && Wired(u) && ip in s.queues && ip in t.queues && ip in u.queues
    requires Served(s, t, ip) && Drained(t, u, ip, n)
    ensures Drained(s, u, ip, n + 1)
  {
    var queue := s.queues[ip];
    if queue != [] {
      var k := if n <= |queue| - 1 then n else |queue| - 1;
      assert queue[1..][..k] == queue[1..1 + k];
      assert [queue[0]] + queue[1..1 + k] == queue[..1 + k];
      assert s.sent[ip] + [queue[0]] + queue[1..1 + k] == s.sent[ip] + ([queue[0]] + queue[1..1 + k]);
    }
  }

  lemma AllServedThenDrained<P>(s: State<P>, t: State<P>, u: State<P>, n: nat)
    requires Wired(s) && Wired(t) && Wired(u) && AllServed(s, t) && AllDrained(t, u, n)
    ensures AllDrained(s, u, n + 1)
  {
    forall ip | ip in s.queues ensures Drained(s, u, ip, n + 1) {
      ServedThenDrained(s, t, u, ip, n);
    }
  }

  /** No producer is between its two steps, and no wakeup is lost. */
  ghost predicate Quiet<P>(s: State<P>) {
    Wired(s) && s.sender.Waiting? && s.notifying == {} && NoLostWakeup(s)
  }

  /** What a round does when the sender is left alone; it does nothing only if nothing is queued. */
  lemma QuietRound<P>(s: State<P>)
    requires Quiet(s)
    ensures Quiet(Round(s)) && AllServed(s, Round(s))
  {
    if s.semaphore > 0 {
      SenderKeepsNoLostWakeup(s);
      FinishRoundEffect(SenderStep(s));
      FinishRoundKeepsNoLostWakeup(SenderStep(s));
      RoundEffect(s);
    } else {
      forall ip | ip in s.queues ensures s.queues[ip] == [] { TotalBounds(s.queues, ip); }
    }
  }

  /** Left alone, the sender never blocks while anything is queued: after n rounds every connection
      has been sent the first n packets of its queue, in order. */
  lemma {:induction false} RoundsDrain<P>(s: State<P>, n: nat)
    requires Quiet(s)
    ensures Quiet(Rounds(s, n)) && AllDrained(s, Rounds(s, n), n)
    decreases n, 0
  {
    if n == 0 {
    } else {
      QuietRound(s);
      DrainOn(s, Round(s), n - 1);
    }
  }

  /** `t` is one round behind `s`. */
  lemma {:induction false} DrainOn<P>(s: State<P>, t: State<P>, n: nat)
    requires Quiet(s) && Quiet(t) && AllServed(s, t)
    ensures Quiet(Rounds(t, n)) && AllDrained(s, Rounds(t, n), n + 1)
    decreases n, 1
  {
    RoundsDrain(t, n);
    AllServedThenDrained(s, t, Rounds(t, n), n);
  }
}
