/** The pool of connections as it runs: a loop that puts a received packet to every connection and drops
    the dead ones, and what interfaces do with the packets they have framed. */
module ConnectionPools {
  import opened Wrappers
  import opened PacketOrder
  import opened Subnets
  import opened PacketQueues
  import opened Rules
  import opened AddressPools
  import opened Connections
  import opened FanOut
  import opened Router

  ghost function Footprint(connections: set<Connection>): set<object> {
    (set c: Connection | c in connections :: c.pool as object)
    + (set c: Connection | c in connections :: c.queue as object)
  }

  ghost function View(c: Connection): Link
    reads c.pool, c.queue
  {
    Link(c.filter, c.mirror, c.pool.timeout, c.pool.history, c.queue.history)
  }

  ghost function Views(connections: set<Connection>): map<Connection, Link>
    reads Footprint(connections)
  {
    map c | c in connections :: View(c)
  }

  /** No two connections share an address pool or a queue. */
  ghost predicate Separate(connections: set<Connection>) {
    forall c, d :: c in connections && d in connections && c != d ==> c.pool != d.pool && c.queue != d.queue
  }

  /** No clock reading of the connection is later than `now`. */
  ghost predicate IsReady(c: Connection, now: int)
    reads c, c.pool, c.queue
  {
    c.Valid() && c.pool.clock <= now
  }

  ghost predicate Ready(connections: set<Connection>, now: int)
    reads connections, Footprint(connections)
  {
    Separate(connections) && forall c :: c in connections ==> IsReady(c, now)
  }

  /** Where the loop of a fan-out stands: `todo` is untouched, the rest is finished. */
  ghost predicate Progress(all: set<Connection>, todo: set<Connection>, targets: set<Connection>,
                           before: map<Connection, Link>, m: Message, from: int, to: int)
    reads all, Footprint(all)
  {
    && Separate(all) && todo <= all && targets <= all && before.Keys == all
    && (forall c :: c in all ==> IsReady(c, if c in todo then from else to))
    && (forall c :: c in all ==> IsDone(before[c], View(c), m, from, to, c in targets && c !in todo))
  }

  ghost predicate IsDone(before: Link, after: Link, m: Message, from: int, to: int, reached: bool) {
    if reached then Reached(before, after, m, from, to, true) else after == before
  }

  lemma ProgressStarts(all: set<Connection>, members: set<Connection>, alive: set<Connection>,
                       m: Message, from: int, to: int)
    requires members <= all && Ready(all, from) && from <= to
    ensures Progress(all, members, members * alive, Views(all), m, from, to)
  {}

  lemma ProgressSkips(all: set<Connection>, todo: set<Connection>, c: Connection, targets: set<Connection>,
                      before: map<Connection, Link>, m: Message, from: int, to: int)
    requires Progress(all, todo, targets, before, m, from, to) && c in todo && c !in targets && from <= to
    ensures Progress(all, todo - {c}, targets, before, m, from, to)
  {}

  /** Where the loop stands, but for connection `c`, which has just dealt with the packet. */
  ghost predicate Around(all: set<Connection>, todo: set<Connection>, c: Connection, targets: set<Connection>,
                         before: map<Connection, Link>, m: Message, from: int, to: int)
    reads all, Footprint(all)
  {
    && Separate(all) && todo <= all && targets <= all && before.Keys == all && c in todo && c in targets
    && (forall d :: d in all && d != c ==> IsReady(d, if d in todo then from else to))
    && (forall d :: d in all && d != c ==> IsDone(before[d], View(d), m, from, to, d in targets && d !in todo))
  }

  lemma ProgressSteps(all: set<Connection>, todo: set<Connection>, c: Connection, targets: set<Connection>,
                      before: map<Connection, Link>, m: Message, from: int, to: int, p: Option<Int32>)
    requires from <= to && Around(all, todo, c, targets, before, m, from, to)
    requires IsReady(c, to) && Dealt(before[c], View(c), m, from, to, Ok(p))
    ensures Progress(all, todo - {c}, targets, before, m, from, to)
  {}

  /** The dead among the connections the loop has come across. */
  predicate Swept<T>(members: set<T>, alive: set<T>, todo: set<T>, erased: set<T>) {
    todo <= members && erased == members - todo - alive
  }

  lemma SweptStep<T>(members: set<T>, alive: set<T>, todo: set<T>, erased: set<T>, c: T)
    requires Swept(members, alive, todo, erased) && c in todo
    ensures Swept(members, alive, todo - {c}, if c in alive then erased else erased + {c})
  {}

  /** Only dead connections have gone, and all of them once a fan-out has completed. */
  predicate Remains<T>(members: set<T>, alive: set<T>, left: set<T>, completed: bool) {
    members * alive <= left <= members && (completed ==> left == members * alive)
  }

  lemma SweptRemains<T>(members: set<T>, alive: set<T>, todo: set<T>, erased: set<T>)
    requires Swept(members, alive, todo, erased)
    ensures Remains(members, alive, members - erased, todo == {})
  {}

  ghost predicate AllAcyclic(connections: set<Connection>) {
    forall c :: c in connections ==> Acyclic(c.filter.chains)
  }

  /** The filter of a connection is always the same. */
  ghost predicate Filtered(c: Connection, l: Link) {
    l.filter == c.filter && ValidFilter(l.filter)
  }

  lemma AcyclicSendCompletes(all: set<Connection>, targets: set<Connection>, before: map<Connection, Link>,
                             m: Message, from: int, to: int, result: Result<(), Rules.Error>)
    requires FannedOut(before, Views(all), targets, m, from, to, result)
    requires forall c :: c in before ==> Filtered(c, before[c])
    ensures AllAcyclic(targets) ==> result.Ok?
  {
    if AllAcyclic(targets) {
      assert forall c :: c in targets ==> Filtered(c, before[c]);
      AcyclicFanOutCompletes(before, Views(all), targets, m, from, to, result);
    }
  }

  /** The view of one connection has changed. */
  lemma OneChanged(all: set<Connection>, before: map<Connection, Link>, c: Connection, l: Link)
    requires c in all && before.Keys == all && View(c) == l
    requires forall d :: d in all && d != c ==> View(d) == before[d]
    ensures Views(all) == before[c := l]
  {}

  class ConnectionPool {
    var connections: set<Connection>       // weak pointers

    constructor ()
      ensures connections == {}
    {
      connections := {};
    }

    /** The pool and all connections, as a stage of a run; `transit` are the packets received so far. */
    ghost function Now(all: set<Connection>, transit: map<nat, Transit<Connection>>): Stage<Connection>
      reads this, Footprint(all)
    {
      Stage(connections, Views(all), transit)
    }

    method Add(c: Connection, ghost all: set<Connection>, ghost transit: map<nat, Transit<Connection>>)
      requires c in all
      modifies `connections
      ensures connections == old(connections) + {c}
      ensures Happens(old(Now(all, transit)), Join(c), Now(all, transit))
    {
      connections := connections + {c};
    }

    method Remove(c: Connection, ghost all: set<Connection>, ghost transit: map<nat, Transit<Connection>>)
      modifies `connections
      ensures connections == old(connections) - {c}
      ensures Happens(old(Now(all, transit)), Leave(c), Now(all, transit))
    {
      connections := connections - {c};
    }

    /** A sender takes the head of a connection's queue, which is an event of a run. */
    method Take(c: Connection, ghost all: set<Connection>, ghost transit: map<nat, Transit<Connection>>,
                ghost now: int)
      returns (packet: Option<Message>)
      requires c in all && Ready(all, now) && WithinWindow(c.queue.Items())
      modifies c.queue
      ensures Ready(all, now)
      ensures packet == (if old(c.queue.running) && old(c.queue.Items()) != [] then Some(old(c.queue.Items())[0].packet)
                         else None)
      ensures Happens(old(Now(all, transit)), Event.Take(c), Now(all, transit))
    {
      ghost var before := Views(all);
      packet := Pull(c, all, now);
      OneChanged(all, before, c, WithCalls(before[c], [Pop]));
    }

    /** `next_packet` of one connection among all there are. */
    static method Pull(c: Connection, ghost all: set<Connection>, ghost now: int) returns (packet: Option<Message>)
      requires c in all && Ready(all, now) && WithinWindow(c.queue.Items())
      modifies c.queue
      ensures Ready(all, now)
      ensures packet == (if old(c.queue.running) && old(c.queue.Items()) != [] then Some(old(c.queue.Items())[0].packet)
                         else None)
      ensures View(c) == WithCalls(old(View(c)), [Pop])
      ensures forall d :: d in all && d != c ==> View(d) == old(View(d))
    {
      assert IsReady(c, now);
      packet := c.NextPacket();
    }

    /** `Connection::send` at some time in the interval. */
    static method Deliver(c: Connection, m: Message, from: int, to: int) returns (r: Routing)
      requires IsReady(c, from) && from <= to
      modifies c.pool, c.queue
      ensures IsReady(c, to) && Dealt(old(View(c)), View(c), m, from, to, r)
    {
      assert Readings(from, from, from, from, to);
      var t1, t2, t3 :| Readings(from, t1, t2, t3, to);
      assert Readings(from, t1, t2, t3, to);
      ghost var before := View(c);
      r := c.Send(m, t1, t2, t3);
      assert LiveOn(before, t1) == c.LiveAt(t1);
      assert LiveOn(before, t2) == c.LiveAt(t2) && LiveOn(before, t3) == c.LiveAt(t3);
      assert RoutesAt(before, m, t1, t2, t3, r);
    }

    /** `Deliver` changes nothing on the other connections. */
    static method DeliverAmong(c: Connection, m: Message, from: int, to: int, ghost all: set<Connection>,
                               ghost todo: set<Connection>, ghost targets: set<Connection>,
                               ghost before: map<Connection, Link>)
      returns (r: Routing)
      requires from <= to && c in todo && c in targets && Progress(all, todo, targets, before, m, from, to)
      modifies c.pool, c.queue
      ensures Around(all, todo, c, targets, before, m, from, to)
      ensures IsReady(c, to) && Dealt(before[c], View(c), m, from, to, r)
    {
      assert IsReady(c, from) && IsDone(before[c], View(c), m, from, to, false);
      r := Deliver(c, m, from, to);
    }

    /** The loop body of `Send` for a connection that exists. */
    static method Visit(c: Connection, m: Message, from: int, to: int, ghost all: set<Connection>,
                        ghost todo: set<Connection>, ghost targets: set<Connection>,
                        ghost before: map<Connection, Link>)
      returns (r: Routing)
      requires from <= to && c in todo && c in targets && Progress(all, todo, targets, before, m, from, to)
      modifies c.pool, c.queue
      ensures r.Ok? ==> Progress(all, todo - {c}, targets, before, m, from, to)
      ensures r.Err? ==>
                r.error == RecursionError && Ready(all, to)
                && FannedOut(before, Views(all), targets, m, from, to, Err(RecursionError))
    {
      r := DeliverAmong(c, m, from, to, all, todo, targets, before);
      if r.Ok? {
        ProgressSteps(all, todo, c, targets, before, m, from, to, r.value);
      } else {
        assert r.error.RecursionError?;
      }
    }

    /** Put the packet to every connection that still exists, in some order, and drop the others; a
        recursion error of a filter ends the loop early. `all` are the connections there are. */
    method Send(m: Message, alive: set<Connection>, from: int, to: int, ghost all: set<Connection>)
      returns (result: Result<(), Rules.Error>)
      requires connections <= all && Ready(all, from) && from <= to
      modifies `connections, Footprint(all)
      ensures Ready(all, to)
      ensures FannedOut(old(Views(all)), Views(all), old(connections) * alive, m, from, to, result)
      ensures Remains(old(connections), alive, connections, result.Ok?)
      ensures AllAcyclic(old(connections) * alive) ==> result.Ok?
    {
      var left;
      result, left := FanOutTo(connections, m, alive, from, to, all);
      Keep(left, all, to);
    }

    method Keep(left: set<Connection>, ghost all: set<Connection>, ghost now: int)
      requires Ready(all, now)
      modifies `connections
      ensures connections == left
      ensures Ready(all, now) && Views(all) == old(Views(all))
    {
      connections := left;
    }

    /** `Send` on the connections of the pool; `left` are those that remain. */
    static method FanOutTo(members: set<Connection>, m: Message, alive: set<Connection>, from: int, to: int,
                           ghost all: set<Connection>)
      returns (result: Result<(), Rules.Error>, left: set<Connection>)
      requires members <= all && Ready(all, from) && from <= to
      modifies Footprint(all)
      ensures Remains(members, alive, left, result.Ok?)
      ensures Ready(all, to)
      ensures FannedOut(old(Views(all)), Views(all), members * alive, m, from, to, result)
      ensures AllAcyclic(members * alive) ==> result.Ok?
    {
      ghost var before := Views(all);
      ProgressStarts(all, members, alive, m, from, to);
      assert forall c :: c in before ==> Filtered(c, before[c]);
      var erased;
      result, erased := SendAll(members, m, alive, from, to, all, before);
      left := members - erased;
      AcyclicSendCompletes(all, members * alive, before, m, from, to, result);
    }

    /** The loop of `Send`; `erased` are the dead connections it came across. */
    static method SendAll(members: set<Connection>, m: Message, alive: set<Connection>, from: int, to: int,
                   ghost all: set<Connection>, ghost before: map<Connection, Link>)
      returns (result: Result<(), Rules.Error>, erased: set<Connection>)
      requires from <= to && Progress(all, members, members * alive, before, m, from, to)
      modifies Footprint(all)
      ensures Remains(members, alive, members - erased, result.Ok?)
      ensures Ready(all, to) && FannedOut(before, Views(all), members * alive, m, from, to, result)
    {
      var todo := members;
      erased := {};
      while todo != {}
        invariant Swept(members, alive, todo, erased)
        invariant Progress(all, todo, members * alive, before, m, from, to)
        decreases todo
      {
        var c :| c in todo;
        SweptStep(members, alive, todo, erased, c);
        if c in alive {
          assert c.pool in Footprint(all) && c.queue in Footprint(all);
          var r := Visit(c, m, from, to, all, todo, members * alive, before);
          if r.Err? {
            SweptRemains(members, alive, todo, erased);
            return Err(r.error), erased;
          }
        } else {
          ProgressSkips(all, todo, c, members * alive, before, m, from, to);
          erased := erased + {c};
        }
        todo := todo - {c};
      }
      SweptRemains(members, alive, todo, erased);
      result := Ok(());
    }

    /** The source of a packet is added to the connection it arrived on. */
    static method AddSource(c: Connection, source: Address, time: int, ghost all: set<Connection>)
      requires c in all && Ready(all, time)
      modifies c.pool
      ensures Ready(all, time)
      ensures NotBefore(old(View(c)).additions, time) && View(c) == WithAddition(old(View(c)), source, time)
      ensures forall d :: d in all && d != c ==> View(d) == old(View(d))
    {
      assert IsReady(c, time);
      c.AddAddress(source, time);
    }

    /** A packet arrives, as number `p`, which is an event of a run. */
    method Arrive(c: Connection, m: Message, time: int, ghost p: nat, ghost all: set<Connection>,
                  ghost transit: map<nat, Transit<Connection>>)
      requires c in all && Ready(all, time) && p !in transit
      modifies c.pool
      ensures Ready(all, time)
      ensures Happens(old(Now(all, transit)), Event.Arrive(p, c, m, time),
                      Now(all, transit[p := Transit(c, m, time, {})]))
    {
      ghost var before := Views(all);
      AddSource(c, m.source, time, all);
      OneChanged(all, before, c, WithAddition(before[c], m.source, time));
    }

    /** `Deliver`, and the other connections as they were. */
    static method DeliverBeside(c: Connection, m: Message, from: int, to: int, ghost all: set<Connection>)
      returns (r: Routing)
      requires c in all && Ready(all, from) && from <= to
      modifies c.pool, c.queue
      ensures Ready(all, to) && Dealt(old(View(c)), View(c), m, from, to, r)
      ensures forall d :: d in all && d != c ==> View(d) == old(View(d))
    {
      assert IsReady(c, from);
      r := Deliver(c, m, from, to);
    }

    /** One turn of some fan-out of packet `p`, whatever others do before and after, is an event of a run. */
    method Turn(p: nat, c: Connection, from: int, to: int, ghost all: set<Connection>,
                transit: map<nat, Transit<Connection>>)
      returns (r: Routing, ghost e: Event<Connection>)
      requires c in all && c in connections && Ready(all, from) && from <= to
      requires p in transit && c !in transit[p].visited
      modifies c.pool, c.queue
      ensures Ready(all, to) && e.Visit? && e.p == p && e.connection == c && e.r == r && from <= e.t1 && e.t3 <= to
      ensures Happens(old(Now(all, transit)), e,
                      Now(all, transit[p := transit[p].(visited := transit[p].visited + {c})]))
    {
      ghost var before := Now(all, transit);
      r := DeliverBeside(c, transit[p].message, from, to, all);
      ghost var l := View(c);
      OneChanged(all, before.links, c, l);
      e := DealtIsVisit(before, p, c, l, from, to, r);
    }

    /** A receipt's source is added, and time goes on. */
    static method Admit(x: Receipt<Connection>, ghost all: set<Connection>)
      requires x.connection in all && Ready(all, x.added) && x.added <= x.from
      modifies x.connection.pool
      ensures Ready(all, x.from) && NotBefore(old(View(x.connection)).additions, x.added)
      ensures Views(all) == Arrived(old(Views(all)), x)
    {
      ghost var before := Views(all);
      AddSource(x.connection, x.message.source, x.added, all);
      OneChanged(all, before, x.connection, WithAddition(before[x.connection], x.message.source, x.added));
    }

    /** What an interface does with a packet it has framed: the source address is added to the connection
        of arrival, then the packet is routed. */
    method Receive(x: Receipt<Connection>, ghost all: set<Connection>) returns (result: Result<(), Rules.Error>)
      requires connections <= all && Ready(all, x.added) && x.connection in all && x.added <= x.from <= x.to
      modifies `connections, Footprint(all)
      ensures Ready(all, x.to) && NotBefore(old(View(x.connection)).additions, x.added)
      ensures Received(old(Views(all)), old(connections), x, Views(all), result)
      ensures Remains(old(connections), x.alive, connections, result.Ok?)
      ensures AllAcyclic(old(connections) * x.alive) ==> result.Ok?
    {
      assert x.connection.pool in Footprint(all);
      Admit(x, all);
      result := Send(x.message, x.alive, x.from, x.to, all);
    }
  }
}
