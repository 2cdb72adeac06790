/** A connection decides, from the addresses live on it and its filter, whether a packet is queued on
    it and with what priority. */
module Connections {
  import opened Wrappers
  import opened Subnets
  import opened PacketOrder
  import opened PacketQueues
  import opened Rules
  import opened AddressPools

  const BROADCAST: Address := 0

  /** What a send comes to: nothing queued, queued at a priority, or the filter's recursion error. */
  type Routing = Result<Option<Int32>, Rules.Error>

  // ---------- The routing decision ----------

  predicate AcceptedAt(f: Filter, m: Message, a: Address, priority: Int32)
    requires ValidFilter(f)
  {
    WillAccept(f, m, a) == Ok((true, priority))
  }

  /** One copy for a set of addresses: at the highest priority the filter accepts one of them with. */
  ghost predicate Broadcasts(f: Filter, m: Message, targets: set<Address>, r: Routing)
    requires ValidFilter(f)
  {
    if exists a :: a in targets && WillAccept(f, m, a).Err? then
      r == Err(RecursionError)
    else
      && r.Ok?
      && match r.value
         case None => forall a, p: Int32 :: a in targets ==> !AcceptedAt(f, m, a, p)
         case Some(best) =>
           && (exists a :: a in targets && AcceptedAt(f, m, a, best))
           && (forall a, p: Int32 :: a in targets && AcceptedAt(f, m, a, p) ==> p <= best)
  }

  /** One copy if the component or, failing that, its system can be reached; it is the packet's own
      destination that is put to the filter. */
  predicate DirectsTo(f: Filter, m: Message, dest: Address, reachable: bool, r: Routing)
    requires ValidFilter(f)
  {
    if !reachable then r == Ok(None) else
      match WillAccept(f, m, dest)
      case Err(e) => r == Err(e)
      case Ok((accept, priority)) => r == Ok(if accept then Some(priority) else None)
  }

  function OnSystem(live: set<Address>, system: nat): set<Address> {
    set a | a in live && System(a) == system
  }

  /** `Connection::send`. The addresses live on the connection are read up to three times, each time no
      earlier than the last. */
  ghost predicate Routes(f: Filter, mirror: bool, m: Message,
                         live1: set<Address>, live2: set<Address>, live3: set<Address>, r: Routing)
    requires ValidFilter(f)
  {
    if m.source in live1 then r == Ok(None)
    else if m.dest.None? || m.dest.value == BROADCAST || mirror then Broadcasts(f, m, live2, r)
    else
      var dest := m.dest.value;
      if Component(dest) == 0 then Broadcasts(f, m, OnSystem(live2, System(dest)), r)
      else DirectsTo(f, m, dest, dest in live2 || OnSystem(live3, System(dest)) != {}, r)
  }

  /** The decision leaves no choice. */
  lemma RoutingIsDetermined(f: Filter, mirror: bool, m: Message,
                            live1: set<Address>, live2: set<Address>, live3: set<Address>, r: Routing, s: Routing)
    requires ValidFilter(f)
    requires Routes(f, mirror, m, live1, live2, live3, r) && Routes(f, mirror, m, live1, live2, live3, s)
    ensures r == s
  {}

  lemma {:induction false} SomeBroadcast(f: Filter, m: Message, targets: set<Address>) returns (r: Routing)
    requires ValidFilter(f)
    ensures Broadcasts(f, m, targets, r)
    decreases |targets|
  {
    if targets == {} {
      r := Ok(None);
    } else {
      var a :| a in targets;
      var others := SomeBroadcast(f, m, targets - {a});
      match WillAccept(f, m, a)
      case Err(_) => r := Err(RecursionError);
      case Ok((accept, p)) =>
        if others.Err? {
          r := others;
        } else if !accept {
          r := others;
          assert forall q: Int32 :: !AcceptedAt(f, m, a, q);
        } else {
          assert AcceptedAt(f, m, a, p);
          r := Ok(Some(if others.value.Some? && others.value.value > p then others.value.value else p));
        }
    }
  }

  /** There always is a decision. */
  lemma SomeRouting(f: Filter, mirror: bool, m: Message, live1: set<Address>, live2: set<Address>, live3: set<Address>)
    returns (r: Routing)
    requires ValidFilter(f)
    ensures Routes(f, mirror, m, live1, live2, live3, r)
  {
    if m.source in live1 {
      r := Ok(None);
    } else if m.dest.None? || m.dest.value == BROADCAST || mirror {
      r := SomeBroadcast(f, m, live2);
    } else if Component(m.dest.value) == 0 {
      r := SomeBroadcast(f, m, OnSystem(live2, System(m.dest.value)));
    } else {
      var dest := m.dest.value;
      var reachable := dest in live2 || OnSystem(live3, System(dest)) != {};
      match WillAccept(f, m, dest)
      case Err(e) => r := if reachable then Err(e) else Ok(None);
      case Ok((accept, p)) => r := Ok(if reachable && accept then Some(p) else None);
    }
  }

  /** The addresses the filter is asked about, unless the source is live on the connection. */
  function Asked(mirror: bool, m: Message, live2: set<Address>, live3: set<Address>): set<Address> {
    if m.dest.None? || m.dest.value == BROADCAST || mirror then live2
    else
      var dest := m.dest.value;
      if Component(dest) == 0 then OnSystem(live2, System(dest))
      else if dest in live2 || OnSystem(live3, System(dest)) != {} then {dest}
      else {}
  }

  /** Routing fails exactly when the filter fails for an address it is asked about. */
  lemma RoutesFailExactly(f: Filter, mirror: bool, m: Message,
                          live1: set<Address>, live2: set<Address>, live3: set<Address>, r: Routing)
    requires ValidFilter(f) && Routes(f, mirror, m, live1, live2, live3, r)
    ensures r.Err? <==>
              m.source !in live1 && exists a :: a in Asked(mirror, m, live2, live3) && WillAccept(f, m, a).Err?
  {
    if m.dest.Some? {
      assert m.dest.value in {m.dest.value};
    }
  }

  /** Unless the filter fails: nothing is queued where the source is live. A packet for many is queued exactly
      when a live address it is for is accepted, at the highest priority one is accepted with; a targeted
      packet exactly when its system is live and the filter accepts the original destination, at that
      priority. */
  lemma QueuedExactlyWhen(f: Filter, mirror: bool, m: Message,
                          live1: set<Address>, live2: set<Address>, live3: set<Address>, r: Routing)
    requires ValidFilter(f) && Routes(f, mirror, m, live1, live2, live3, r) && r.Ok?
    ensures m.source in live1 ==> r.value == None
    ensures m.source !in live1 ==>
              (r.value.Some? <==> exists a, p: Int32 :: a in Asked(mirror, m, live2, live3) && AcceptedAt(f, m, a, p))
    ensures r.value.Some? ==>
              && (exists a :: a in Asked(mirror, m, live2, live3) && AcceptedAt(f, m, a, r.value.value))
              && forall a, p: Int32 :: a in Asked(mirror, m, live2, live3) && AcceptedAt(f, m, a, p) ==>
                   p <= r.value.value
  {
    if r.value.Some? && m.dest.Some? {
      var dest, p := m.dest.value, r.value.value;
      assert WillAccept(f, m, dest) == Ok((true, p)) ==> AcceptedAt(f, m, dest, p);
    }
  }

  /** The addresses asked about at one instant: all live ones if there is no destination, if it is 0.0, or on
      a mirror; those of the system if the component is 0; otherwise the destination, if its system is live. */
  lemma AskedAtOnce(mirror: bool, m: Message, live: set<Address>, a: Address)
    ensures a in Asked(mirror, m, live, live) <==>
              if m.dest.None? || (System(m.dest.value) == 0 && Component(m.dest.value) == 0) || mirror then a in live
              else if Component(m.dest.value) == 0 then a in live && System(a) == System(m.dest.value)
              else a == m.dest.value && exists b :: b in live && System(b) == System(m.dest.value)
    ensures a in Asked(mirror, m, live, live) && m.dest.Some? && m.dest.value != Pack(0, 0) && !mirror ==>
              System(a) == System(m.dest.value)
  {
    if m.dest.Some? {
      var same := OnSystem(live, System(m.dest.value));
      if same != {} { var b :| b in same; }
      if b :| b in live && System(b) == System(m.dest.value) { assert b in same; }
    }
  }

  // ---------- The loop over many addresses ----------

  const LOWEST: Int32 := -0x8000_0000

  /** The best decision among the targets seen so far. */
  ghost predicate Best(f: Filter, m: Message, seen: seq<Address>, targets: set<Address>, accept: bool, priority: Int32)
    requires ValidFilter(f)
  {
    && (forall a :: a in seen && a in targets ==> WillAccept(f, m, a).Ok?)
    && (accept ==> exists a :: a in seen && a in targets && AcceptedAt(f, m, a, priority))
    && (forall a, p: Int32 :: a in seen && a in targets && AcceptedAt(f, m, a, p) ==> accept && p <= priority)
    && (!accept ==> priority == LOWEST)
  }

  lemma BestSkips(f: Filter, m: Message, seen: seq<Address>, a: Address, targets: set<Address>,
                  accept: bool, priority: Int32)
    requires ValidFilter(f) && Best(f, m, seen, targets, accept, priority)
    requires a in targets ==> WillAccept(f, m, a).Ok? && !WillAccept(f, m, a).value.0
    ensures Best(f, m, seen + [a], targets, accept, priority)
  {
    if accept {
      var b :| b in seen && b in targets && AcceptedAt(f, m, b, priority);
      assert b in seen + [a];
    }
  }

  lemma BestTakes(f: Filter, m: Message, seen: seq<Address>, a: Address, targets: set<Address>,
                  accept: bool, priority: Int32, p: Int32)
    requires ValidFilter(f) && Best(f, m, seen, targets, accept, priority)
    requires a in targets && AcceptedAt(f, m, a, p)
    ensures Best(f, m, seen + [a], targets, true, if p > priority then p else priority)
  {
    assert a in seen + [a];
    if accept {
      var b :| b in seen && b in targets && AcceptedAt(f, m, b, priority);
      assert b in seen + [a];
    }
  }

  // ---------- The connection ----------

  class Connection {
    const filter: Filter
    const mirror: bool
    const pool: AddressPool
    const queue: PacketQueue<Message>

    ghost predicate Valid()
      reads this, pool, queue
    {
      pool.Valid() && queue.Valid() && ValidFilter(filter)
    }

    constructor (filter: Filter, mirror: bool, timeout: int)
      requires ValidFilter(filter)
      ensures Valid() && fresh(pool) && fresh(queue)
      ensures this.filter == filter && this.mirror == mirror && pool.timeout == timeout
      ensures pool.history == [] && queue.history == []
    {
      this.filter, this.mirror := filter, mirror;
      pool := new AddressPool(timeout);
      queue := new PacketQueue<Message>(true);
    }

    /** The addresses live on the connection when the clock reads `now`. */
    ghost function LiveAt(now: int): set<Address>
      reads pool
    {
      set a: Address | Live(pool.history, pool.timeout, a, now)
    }

    method AddAddress(a: Address, now: int)
      requires Valid() && pool.clock <= now
      modifies pool
      ensures Valid() && pool.clock == now
      ensures pool.history == old(pool.history) + [Addition(a, now)]
    {
      pool.Add(a, now);
    }

    /** `next_packet`: the head of the queue, or none once the time is up. */
    method NextPacket() returns (packet: Option<Message>)
      requires Valid() && WithinWindow(queue.Items())
      modifies queue
      ensures Valid() && queue.history == old(queue.history) + [Pop]
      ensures packet == (if old(queue.running) && old(queue.Items()) != [] then Some(old(queue.Items())[0].packet)
                         else None)
    {
      packet := queue.GetPacket();
    }

    /** Queue at most one copy of the packet, as the routing decision says. */
    method Send(m: Message, t1: int, t2: int, t3: int) returns (r: Routing)
      requires Valid() && pool.clock <= t1 <= t2 <= t3
      modifies pool, queue
      ensures Valid() && pool.history == old(pool.history) && pool.clock <= t3
      ensures Routes(filter, mirror, m, LiveAt(t1), LiveAt(t2), LiveAt(t3), r)
      ensures Queued(old(queue.history), m, r)
    {
      var echo := pool.Contains(m.source, t1);
      if echo {
        return Ok(None);
      }
      if m.dest.None? || m.dest.value == BROADCAST || mirror {
        var targets := pool.Addresses(t2);
        r := SendToEach(m, targets, None, LiveAt(t2));
      } else if Component(m.dest.value) == 0 {
        var targets := pool.Addresses(t2);
        r := SendToEach(m, targets, Some(System(m.dest.value)), LiveAt(t2));
      } else {
        r := SendToAddress(m, m.dest.value, t2, t3);
      }
    }

    /** The queue has been given the packet at the decided priority, and otherwise nothing. */
    ghost predicate Queued(before: seq<PacketQueues.Call<Message>>, m: Message, r: Routing)
      reads queue
    {
      queue.history == before + if r.Ok? && r.value.Some? then [Push(m, r.value.value)] else []
    }

    method Enqueue(m: Message, priority: Int32)
      requires queue.Valid()
      modifies queue
      ensures queue.Valid() && queue.history == old(queue.history) + [Push(m, priority)]
    {
      var _ := queue.Push(Some(m), priority);
    }

    /** `send_to_all_` and, for one system, `send_to_system_`: keep the highest accepted priority. */
    method SendToEach(m: Message, addresses: seq<Address>, system: Option<nat>, ghost live: set<Address>)
      returns (r: Routing)
      requires queue.Valid() && ValidFilter(filter)
      requires forall a: Address :: a in addresses <==> a in live
      modifies queue
      ensures queue.Valid() && Queued(old(queue.history), m, r)
      ensures Broadcasts(filter, m, if system.Some? then OnSystem(live, system.value) else live, r)
    {
      ghost var targets := if system.Some? then OnSystem(live, system.value) else live;
      var accept := false;
      var priority := LOWEST;
      var i := 0;
      while i < |addresses|
        invariant i <= |addresses| && queue.Valid() && queue.history == old(queue.history)
        invariant Best(filter, m, addresses[..i], targets, accept, priority)
      {
        var a := addresses[i];
        assert addresses[..i + 1] == addresses[..i] + [a];
        assert a in addresses && a in live;
        if system.None? || system.value == System(a) {
          var decision := WillAccept(filter, m, a);
          if decision.Err? {
            assert a in targets && decision.error == RecursionError;
            return Err(decision.error);
          }
          if decision.value.0 {
            BestTakes(filter, m, addresses[..i], a, targets, accept, priority, decision.value.1);
            accept := true;
            priority := if decision.value.1 > priority then decision.value.1 else priority;
          } else {
            BestSkips(filter, m, addresses[..i], a, targets, accept, priority);
          }
        } else {
          BestSkips(filter, m, addresses[..i], a, targets, accept, priority);
        }
        i := i + 1;
      }
      assert addresses[..|addresses|] == addresses;
      if accept {
        Enqueue(m, priority);
        r := Ok(Some(priority));
      } else {
        r := Ok(None);
      }
    }

    method SendToAddress(m: Message, dest: Address, t2: int, t3: int) returns (r: Routing)
      requires Valid() && pool.clock <= t2 <= t3
      modifies pool, queue
      ensures Valid() && pool.history == old(pool.history) && pool.clock <= t3
      ensures DirectsTo(filter, m, dest, dest in LiveAt(t2) || OnSystem(LiveAt(t3), System(dest)) != {}, r)
      ensures Queued(old(queue.history), m, r)
    {
      var reachable := pool.Contains(dest, t2);
      if reachable {
        var decision := WillAccept(filter, m, dest);
        if decision.Err? {
          return Err(decision.error);
        }
        if decision.value.0 {
          Enqueue(m, decision.value.1);
          return Ok(Some(decision.value.1));
        }
        return Ok(None);
      }
      var addresses := pool.Addresses(t3);
      var i := 0;
      r := Ok(None);
      while i < |addresses|
        invariant i <= |addresses| && Valid() && pool.clock == t3
        invariant pool.history == old(pool.history) && queue.history == old(queue.history)
        invariant forall j :: 0 <= j < i && System(addresses[j]) == System(dest) ==>
                    WillAccept(filter, m, dest).Ok? && !WillAccept(filter, m, dest).value.0
      {
        if System(addresses[i]) == System(dest) {
          assert addresses[i] in addresses;
          assert addresses[i] in OnSystem(LiveAt(t3), System(dest));
          var decision := WillAccept(filter, m, dest);
          if decision.Err? {
            return Err(decision.error);
          }
          if decision.value.0 {
            Enqueue(m, decision.value.1);
            return Ok(Some(decision.value.1));
          }
        }
        i := i + 1;
      }
      if OnSystem(LiveAt(t3), System(dest)) != {} {
        var a :| a in OnSystem(LiveAt(t3), System(dest));
        assert a in addresses;
      }
    }
  }
}
