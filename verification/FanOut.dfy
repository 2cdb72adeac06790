/** The fan-out of received packets as a relation between what connections have been through before and
    after: who is given a copy, when an error ends it, and why nothing comes back to where it arrived. */
module FanOut {
  import opened Wrappers
  import opened Subnets
  import opened PacketOrder
  import opened Rules
  import opened AddressPools
  import opened Connections
  import opened PacketQueues

  /** A connection with its histories: the addresses added to it and the calls made to its queue. */
  datatype Link = Link(
    filter: Filter, mirror: bool, timeout: int, additions: seq<Addition>, calls: seq<Call<Message>>)

  ghost function LiveOn(l: Link, now: int): set<Address> {
    set a: Address | Live(l.additions, l.timeout, a, now)
  }

  /** Three readings of the clock within an interval, none earlier than the one before. */
  predicate Readings(from: int, t1: int, t2: int, t3: int, to: int) {
    from <= t1 <= t2 <= t3 <= to
  }

  ghost predicate RoutesAt(l: Link, m: Message, t1: int, t2: int, t3: int, r: Routing) {
    ValidFilter(l.filter) && Routes(l.filter, l.mirror, m, LiveOn(l, t1), LiveOn(l, t2), LiveOn(l, t3), r)
  }

  /** What a routing decision adds to the queue. */
  function Copies(m: Message, r: Routing): seq<Call<Message>> {
    if r.Ok? && r.value.Some? then [Push(m, r.value.value)] else []
  }

  /** The connection has dealt with the packet at some time in the interval: its queue has been given at
      most one copy, as the routing decision says. */
  ghost predicate Dealt(before: Link, after: Link, m: Message, from: int, to: int, r: Routing) {
    && after == before.(calls := before.calls + Copies(m, r))
    && exists t1, t2, t3 :: Readings(from, t1, t2, t3, to) && RoutesAt(before, m, t1, t2, t3, r)
  }

  /** A target of a fan-out has dealt with the packet, unless an error has ended it before its turn. */
  ghost predicate Reached(before: Link, after: Link, m: Message, from: int, to: int, completed: bool) {
    (!completed && after == before) || exists p: Option<Int32> :: Dealt(before, after, m, from, to, Ok(p))
  }

  /** One fan-out to `targets`: it completes with every target reached, or the routing decision of one of
      them is an error, and then others may not have been reached. Nothing else changes. */
  ghost predicate FannedOut<K>(before: map<K, Link>, after: map<K, Link>, targets: set<K>, m: Message,
                               from: int, to: int, result: Result<(), Rules.Error>) {
    && after.Keys == before.Keys && targets <= before.Keys
    && (forall c :: c in before ==>
          if c in targets then Reached(before[c], after[c], m, from, to, result.Ok?) else after[c] == before[c])
    && (result.Err? ==> exists c :: c in targets && Dealt(before[c], after[c], m, from, to, Err(RecursionError)))
  }

  // ---------- When a fan-out completes ----------

  /** The filter of the connection fails for an address the packet is put to it with. */
  ghost predicate FailsAt(l: Link, m: Message, t1: int, t2: int, t3: int)
    requires ValidFilter(l.filter)
  {
    && m.source !in LiveOn(l, t1)
    && exists a :: a in Asked(l.mirror, m, LiveOn(l, t2), LiveOn(l, t3)) && WillAccept(l.filter, m, a).Err?
  }

  ghost predicate FailsWithin(l: Link, m: Message, from: int, to: int)
    requires ValidFilter(l.filter)
  {
    exists t1, t2, t3 :: Readings(from, t1, t2, t3, to) && FailsAt(l, m, t1, t2, t3)
  }

  ghost predicate PassesWithin(l: Link, m: Message, from: int, to: int)
    requires ValidFilter(l.filter)
  {
    exists t1, t2, t3 :: Readings(from, t1, t2, t3, to) && !FailsAt(l, m, t1, t2, t3)
  }

  lemma DealtFailsExactly(before: Link, after: Link, m: Message, from: int, to: int, r: Routing)
    requires Dealt(before, after, m, from, to, r)
    ensures ValidFilter(before.filter)
    ensures if r.Err? then FailsWithin(before, m, from, to) else PassesWithin(before, m, from, to)
  {
    var t1, t2, t3 :| Readings(from, t1, t2, t3, to) && RoutesAt(before, m, t1, t2, t3, r);
    RoutesFailExactly(before.filter, before.mirror, m, LiveOn(before, t1), LiveOn(before, t2), LiveOn(before, t3), r);
    assert r.Err? <==> FailsAt(before, m, t1, t2, t3);
  }

  lemma OneInstant(l: Link, m: Message, now: int)
    requires ValidFilter(l.filter)
    ensures FailsWithin(l, m, now, now) <==> FailsAt(l, m, now, now, now)
    ensures PassesWithin(l, m, now, now) <==> !FailsAt(l, m, now, now, now)
  {
    assert Readings(now, now, now, now, now);
  }

  /** A fan-out ends early only if the filter of a target fails for an address live on it, and completes
      only if none does when its turn comes; taken at one instant, it completes if and only if none does. */
  lemma FanOutFailsExactly<K>(before: map<K, Link>, after: map<K, Link>, targets: set<K>, m: Message,
                              from: int, to: int, result: Result<(), Rules.Error>)
    requires FannedOut(before, after, targets, m, from, to, result)
    requires forall c :: c in targets ==> ValidFilter(before[c].filter)
    ensures result.Err? ==> exists c :: c in targets && FailsWithin(before[c], m, from, to)
    ensures result.Ok? ==> forall c :: c in targets ==> PassesWithin(before[c], m, from, to)
    ensures from == to ==>
              (result.Err? <==> exists c :: c in targets && FailsAt(before[c], m, from, from, from))
  {
    if result.Err? {
      var c :| c in targets && Dealt(before[c], after[c], m, from, to, Err(RecursionError));
      DealtFailsExactly(before[c], after[c], m, from, to, Err(RecursionError));
      if from == to { OneInstant(before[c], m, from); }
    } else {
      forall c | c in targets
        ensures PassesWithin(before[c], m, from, to)
        ensures from == to ==> !FailsAt(before[c], m, from, from, from)
      {
        var p: Option<Int32> :| Dealt(before[c], after[c], m, from, to, Ok(p));
        DealtFailsExactly(before[c], after[c], m, from, to, Ok(p));
        if from == to { OneInstant(before[c], m, from); }
      }
    }
  }

  /** What a caller can check beforehand: with no cycle in the filters of the targets every fan-out
      completes, and every target deals with the packet. */
  lemma AcyclicFanOutCompletes<K>(before: map<K, Link>, after: map<K, Link>, targets: set<K>, m: Message,
                                  from: int, to: int, result: Result<(), Rules.Error>)
    requires FannedOut(before, after, targets, m, from, to, result)
    requires forall c :: c in targets ==> ValidFilter(before[c].filter) && Acyclic(before[c].filter.chains)
    ensures result.Ok?
    ensures forall c :: c in targets ==> exists p: Option<Int32> :: Dealt(before[c], after[c], m, from, to, Ok(p))
  {
    if result.Err? {
      var c :| c in targets && Dealt(before[c], after[c], m, from, to, Err(RecursionError));
      DealtFailsExactly(before[c], after[c], m, from, to, Err(RecursionError));
      var t1, t2, t3 :| Readings(from, t1, t2, t3, to) && FailsAt(before[c], m, t1, t2, t3);
      var a :| a in Asked(before[c].mirror, m, LiveOn(before[c], t2), LiveOn(before[c], t3))
        && WillAccept(before[c].filter, m, a).Err?;
      FilterIsFirstMatch(before[c].filter, m, a);
      assert false;
    }
  }

  /** A filter with no rules that accepts. */
  const ACCEPT_ALL := Filter(map["default" := []], "default", true)

  /** A connection on which `a` has just been seen, and nothing has been queued. */
  function Fresh(filter: Filter, a: Address, now: int): Link {
    Link(filter, false, 0, [Addition(a, now)], [])
  }

  lemma OnlyLiveAddress(filter: Filter, a: Address, now: int)
    ensures LiveOn(Fresh(filter, a, now), now) == {a}
  {
    var l := Fresh(filter, a, now);
    forall b: Address ensures Live(l.additions, l.timeout, b, now) <==> b == a {
      assert l.additions[..0] == [];
      assert LastAdded(l.additions[..0], b) == None;
    }
  }

  /** One connection whose filter fails can keep a packet from all that come after it: connection 1 accepts
      everything, yet a fan-out to both may leave it with nothing, and none can complete. */
  lemma OthersMissOut(bad: Filter, m: Message, a: Address, now: int)
    requires ValidFilter(bad) && WillAccept(bad, m, a).Err? && m.dest.None? && m.source != a
    ensures var links := map[0 := Fresh(bad, a, now), 1 := Fresh(ACCEPT_ALL, a, now)];
            && RoutesAt(links[1], m, now, now, now, Ok(Some(0)))
            && FannedOut(links, links, {0, 1}, m, now, now, Err(RecursionError))
            && forall after, result :: FannedOut(links, after, {0, 1}, m, now, now, result) ==> result.Err?
  {
    var links := map[0 := Fresh(bad, a, now), 1 := Fresh(ACCEPT_ALL, a, now)];
    OnlyLiveAddress(bad, a, now);
    OnlyLiveAddress(ACCEPT_ALL, a, now);
    assert WillAccept(bad, m, a).error.RecursionError?;
    assert AcceptedAt(ACCEPT_ALL, m, a, 0);
    assert Readings(now, now, now, now, now);
    assert RoutesAt(links[0], m, now, now, now, Err(RecursionError));
    assert Dealt(links[0], links[0], m, now, now, Err(RecursionError));
    forall after, result | FannedOut(links, after, {0, 1}, m, now, now, result) ensures result.Err? {
      FanOutFailsExactly(links, after, {0, 1}, m, now, now, result);
      assert FailsAt(links[0], m, now, now, now);
    }
  }

  // ---------- No echo ----------

  /** A source added no longer than the timeout before the first reading of the clock, or later, is live on
      the connection, so a packet from it is not queued there. */
  lemma NoEcho(l: Link, m: Message, added: int, t1: int, t2: int, t3: int, r: Routing)
    requires LastAdded(l.additions, m.source).Some? && added <= LastAdded(l.additions, m.source).value
    requires t1 - added <= l.timeout
    requires RoutesAt(l, m, t1, t2, t3, r)
    ensures r == Ok(None)
  {
    assert m.source in LiveOn(l, t1);
  }

  /** A packet received on a connection: its source is added there, then it is routed. */
  datatype Receipt<K> = Receipt(connection: K, message: Message, alive: set<K>, added: int, from: int, to: int)

  function WithAddition(l: Link, source: Address, time: int): Link {
    l.(additions := l.additions + [Addition(source, time)])
  }

  function Arrived<K>(before: map<K, Link>, x: Receipt<K>): map<K, Link>
    requires x.connection in before
  {
    before[x.connection := WithAddition(before[x.connection], x.message.source, x.added)]
  }

  /** One receive without interference. */
  ghost predicate Received<K>(before: map<K, Link>, members: set<K>, x: Receipt<K>, after: map<K, Link>,
                              result: Result<(), Rules.Error>) {
    && x.connection in before && x.added <= x.from <= x.to
    && FannedOut(Arrived(before, x), after, members * x.alive, x.message, x.from, x.to, result)
  }

  /** The part of one connection in a receive: at most one copy on a live member of the pool and nothing on
      the rest, completed or ended by an error; and nothing where the packet came from, if routing ends
      within the address timeout. */
  lemma OneReceive<K>(before: map<K, Link>, members: set<K>, x: Receipt<K>, after: map<K, Link>,
                      result: Result<(), Rules.Error>, c: K)
    returns (copies: seq<Call<Message>>)
    requires Received(before, members, x, after, result) && c in before
    ensures after.Keys == before.Keys && after[c].calls == before[c].calls + copies && |copies| <= 1
    ensures copies != [] ==> c in members * x.alive && exists p :: copies == [Push(x.message, p)]
    ensures c == x.connection && x.to - x.added <= before[c].timeout ==> copies == []
  {
    copies := after[c].calls[|before[c].calls|..];
    var l := Arrived(before, x)[c];
    assert l.calls == before[c].calls;
    if c in members * x.alive && after[c] != l {
      var m := x.message;
      var p: Option<Int32> :| Dealt(l, after[c], m, x.from, x.to, Ok(p));
      assert copies == Copies(m, Ok(p));
      if c == x.connection && x.to - x.added <= before[c].timeout {
        var t1, t2, t3 :| Readings(x.from, t1, t2, t3, x.to) && RoutesAt(l, m, t1, t2, t3, Ok(p));
        assert LastAdded(l.additions, m.source) == Some(x.added);
        NoEcho(l, m, x.added, t1, t2, t3, Ok(p));
      }
    }
  }
}
