/** The packet queue: what a history of pushes and pops is to give, and the class that gives it. */
module PacketQueues {
  import opened Wrappers
  import opened PacketOrder

  datatype Call<P> = Push(packet: P, priority: Int32) | Pop | Close

  /** The outcome of a history of calls: what waits, in leaving order, and what has left. */
  datatype Ledger<P> = Ledger(pending: seq<Item<P>>, popped: seq<Item<P>>, pushes: nat, running: bool)

  function After<P>(l: Ledger<P>, call: Call<P>): Ledger<P> {
    match call
    case Push(packet, priority) =>
      l.(pending := Insert(l.pending, Item(packet, priority, l.pushes)), pushes := l.pushes + 1)
    case Pop =>
      if l.running && l.pending != [] then
        l.(pending := l.pending[1..], popped := l.popped + [l.pending[0]])
      else
        l
    case Close => l.(running := false)
  }

  function Replay<P>(history: seq<Call<P>>): Ledger<P> {
    if history == [] then Ledger([], [], 0, true) else After(Replay(history[..|history| - 1]), history[|history| - 1])
  }

  lemma ReplayStep<P>(history: seq<Call<P>>, call: Call<P>)
    ensures Replay(history + [call]) == After(Replay(history), call)
  {
    assert (history + [call])[..|history|] == history;
  }

  /** The packets pushed during a history, numbered in push order. */
  function Pushed<P>(history: seq<Call<P>>): (items: seq<Item<P>>)
    ensures forall i :: 0 <= i < |items| ==> items[i].serial == i
  {
    if history == [] then [] else
      var items := Pushed(history[..|history| - 1]);
      var call := history[|history| - 1];
      if call.Push? then items + [Item(call.packet, call.priority, |items|)] else items
  }

  predicate Older<P>(items: seq<Item<P>>, pushes: nat) {
    forall i :: 0 <= i < |items| ==> items[i].serial < pushes
  }

  lemma {:induction false} ReplaySorted<P>(history: seq<Call<P>>)
    ensures var l := Replay(history); Sorted(l.pending) && Older(l.pending, l.pushes)
  {
    if history != [] {
      ReplaySorted(history[..|history| - 1]);
      var l := Replay(history[..|history| - 1]);
      var call := history[|history| - 1];
      if call.Push? {
        var item := Item(call.packet, call.priority, l.pushes);
        var _ := InsertSplits(l.pending, item);
        InsertKeepsSorted(l.pending, item);
      }
    }
  }

  lemma CallConserves<P>(l: Ledger<P>, call: Call<P>)
    ensures multiset(After(l, call).pending) + multiset(After(l, call).popped)
         == multiset(l.pending) + multiset(l.popped)
          + if call.Push? then multiset{Item(call.packet, call.priority, l.pushes)} else multiset{}
  {
    if call.Push? {
      InsertedBag(l.pending, Item(call.packet, call.priority, l.pushes));
    } else if call.Pop? && l.running && l.pending != [] {
      assert l.pending == [l.pending[0]] + l.pending[1..];
    }
  }

  /** Every pushed packet has either left exactly once or still waits exactly once. */
  lemma {:induction false} NothingLostOrDuplicated<P>(history: seq<Call<P>>)
    ensures var l := Replay(history);
            && |Pushed(history)| == l.pushes
            && multiset(Pushed(history)) == multiset(l.pending) + multiset(l.popped)
  {
    if history != [] {
      NothingLostOrDuplicated(history[..|history| - 1]);
      var l := Replay(history[..|history| - 1]);
      var call := history[|history| - 1];
      CallConserves(l, call);
    }
  }

  /** A pop takes, of all packets pushed and not yet popped, one of the highest priority, and among
      those the one pushed first; it takes nothing only if nothing waits or the queue was closed. */
  lemma PopTakesBest<P>(history: seq<Call<P>>)
    ensures var before, after := Replay(history), Replay(history + [Pop]);
            if before.pending == [] || !before.running then
              after == before
            else
              && after.popped == before.popped + [before.pending[0]]
              && before.pending[0] in Pushed(history)
              && before.pending[0] !in after.pending
              && forall other :: other in after.pending ==> Precedes(before.pending[0], other)
  {
    ReplayStep(history, Pop);
    ReplaySorted(history);
    NothingLostOrDuplicated(history);
    var l := Replay(history);
    if l.pending != [] {
      assert l.pending[0] in multiset(l.pending);
      assert l.pending[0] in multiset(Pushed(history));
    }
  }

  /** A queue runs until it is closed, and then for good. */
  lemma {:induction false} RunningUntilClosed<P>(history: seq<Call<P>>)
    ensures Replay(history).running <==> forall i :: 0 <= i < |history| ==> !history[i].Close?
  {
    if history != [] { RunningUntilClosed(history[..|history| - 1]); }
  }

  // ---------- The fields of a queue and its history ----------

  /** The fields hold what a ledger says is pending, with its tickets. */
  predicate Represents<P(==)>(queue: multiset<QueuedPacket<P>>, ticket: Ticket, running: bool, l: Ledger<P>) {
    && ticket == Stamp(l.pushes)
    && running == l.running
    && Holds(queue, l.pending)
  }

  lemma PushRepresents<P>(
    history: seq<Call<P>>, queue: multiset<QueuedPacket<P>>, ticket: Ticket, running: bool, packet: P, priority: Int32)
    requires Represents(queue, ticket, running, Replay(history))
    ensures var after := Replay(history + [Push(packet, priority)]);
            && Represents(
                 queue + multiset{QueuedPacket(packet, priority, ticket)}, (ticket + 1) % TICKETS, running, after)
            && after.pending == Insert(Replay(history).pending, Item(packet, priority, Replay(history).pushes))
  {
    var l := Replay(history);
    ReplayStep(history, Push(packet, priority));
    StampNext(l.pushes);
    HoldsInserted(queue, l.pending, Item(packet, priority, l.pushes));
  }

  lemma EmptyAgrees<P>(queue: multiset<QueuedPacket<P>>, items: seq<Item<P>>)
    requires Holds(queue, items)
    ensures queue == multiset{} <==> items == []
  {
    if items != [] { assert EncodeAll(items)[0] in queue; }
  }

  lemma PopRepresents<P>(
    history: seq<Call<P>>, queue: multiset<QueuedPacket<P>>, ticket: Ticket, running: bool, top: QueuedPacket<P>)
    requires Represents(queue, ticket, running, Replay(history)) && running
    requires WithinWindow(Replay(history).pending) && IsTop(queue, top)
    ensures Replay(history).pending != [] && top.packet == Replay(history).pending[0].packet
    ensures Represents(queue - multiset{top}, ticket, running, Replay(history + [Pop]))
    ensures Replay(history + [Pop]).pending == Replay(history).pending[1..]
  {
    ReplayStep(history, Pop);
    ReplaySorted(history);
    TopIsHead(queue, Replay(history).pending, top);
  }

  datatype Error = InvalidArgument

  class PacketQueue<!P(==)> {
    var queue: multiset<QueuedPacket<P>>   // the `std::priority_queue`
    var ticket: Ticket
    var running: bool
    var signals: nat                       // calls made to the callback
    const hasCallback: bool
    ghost var history: seq<Call<P>>

    /** The packets waiting, in the order in which they are to leave. */
    ghost function Items(): seq<Item<P>>
      reads this
    {
      Replay(history).pending
    }

    ghost predicate Valid()
      reads this
    {
      Represents(queue, ticket, running, Replay(history))
    }

    constructor (hasCallback: bool)
      ensures Valid() && history == [] && Items() == [] && signals == 0
      ensures this.hasCallback == hasCallback
    {
      this.hasCallback := hasCallback;
      queue, ticket, running, signals := multiset{}, 0, true, 0;
      history := [];
    }

    /** The part of a push under the lock. */
    method Enqueue(packet: P, priority: Int32)
      requires Valid()
      modifies `queue, `ticket, `history
      ensures Valid() && history == old(history) + [Call.Push(packet, priority)]
      ensures Items() == Insert(old(Items()), Item(packet, priority, old(Replay(history).pushes)))
    {
      PushRepresents(history, queue, ticket, running, packet, priority);
      queue := queue + multiset{QueuedPacket(packet, priority, ticket)};
      ticket := (ticket + 1) % TICKETS;
      history := history + [Call.Push(packet, priority)];
    }

    method Push(packet: Option<P>, priority: Int32) returns (result: Result<(), Error>)
      requires Valid()
      modifies this
      ensures Valid()
      ensures packet == None ==> result == Err(InvalidArgument) && unchanged(this)
      ensures packet.Some? ==>
                && result == Ok(())
                && history == old(history) + [Call.Push(packet.value, priority)]
                && Items() == Insert(old(Items()), Item(packet.value, priority, old(Replay(history).pushes)))
                && signals == old(signals) + (if hasCallback then 1 else 0)
    {
      if packet.None? {
        return Err(InvalidArgument);
      }
      Enqueue(packet.value, priority);
      if hasCallback {
        signals := signals + 1;
      }
      result := Ok(());
    }

    /** `top` of the container: any element that none exceeds. */
    method Top() returns (top: QueuedPacket<P>)
      requires Valid() && Items() != [] && WithinWindow(Items())
      ensures IsTop(queue, top)
    {
      ReplaySorted(history);
      HeadIsTop(queue, Items());
      top :| top in queue && forall other :: other in queue ==> !Less(top, other);
    }

    method GetPacket() returns (packet: Option<P>)
      requires Valid() && WithinWindow(Items())
      modifies this
      ensures Valid() && history == old(history) + [Call.Pop]
      ensures signals == old(signals)
      ensures packet == (if old(running) && old(Items()) != [] then Some(old(Items())[0].packet) else None)
      ensures Items() == (if packet.Some? then old(Items())[1..] else old(Items()))
    {
      EmptyAgrees(queue, Items());
      packet := None;
      if running && queue != multiset{} {
        var top := Top();
        PopRepresents(history, queue, ticket, running, top);
        packet := Some(top.packet);
        queue := queue - multiset{top};
      } else {
      }
      history := history + [Call.Pop];
    }

    method Close()
      requires Valid()
      modifies this
      ensures Valid() && !running && history == old(history) + [Call.Close]
      ensures Items() == old(Items()) && signals == old(signals)
    {
      running := false;
      history := history + [Call.Close];
    }

    method Empty() returns (empty: bool)
      requires Valid()
      ensures empty <==> Items() == []
    {
      empty := queue == multiset{};
      EmptyAgrees(queue, Items());
    }
  }
}
