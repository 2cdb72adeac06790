/** The router as a whole: receive threads add sources and put packets to one connection after the other,
    sender threads take packets from the queues, connections join and leave, all of it interleaved. */
module Router {
  import opened Wrappers
  import opened Subnets
  import opened PacketOrder
  import opened Rules
  import opened AddressPools
  import opened Connections
  import opened PacketQueues
  import opened FanOut

  /** A packet received on a connection, whose source was added at some time, and the connections it has
      been put to so far. */
  datatype Transit<K> = Transit(connection: K, message: Message, added: int, visited: set<K>)

  /** The members of the pool, every connection there is, and every packet that has been received. */
  datatype Stage<K> = Stage(members: set<K>, links: map<K, Link>, transit: map<nat, Transit<K>>)

  datatype Event<K> =
    | Arrive(p: nat, connection: K, message: Message, time: int)
    | Visit(p: nat, connection: K, t1: int, t2: int, t3: int, r: Routing)
    | Take(connection: K)
    | Join(connection: K)
    | Leave(connection: K)

  function WithCalls(l: Link, calls: seq<Call<Message>>): Link {
    l.(calls := l.calls + calls)
  }

  ghost predicate Happens<K>(s: Stage<K>, e: Event<K>, t: Stage<K>) {
    match e
    case Arrive(p, c, m, time) =>
      && p !in s.transit && c in s.links && NotBefore(s.links[c].additions, time)
      && t == s.(links := s.links[c := WithAddition(s.links[c], m.source, time)],
                 transit := s.transit[p := Transit(c, m, time, {})])
    case Visit(p, c, t1, t2, t3, r) =>
      && p in s.transit && c in s.members && c in s.links && c !in s.transit[p].visited && t1 <= t2 <= t3
      && RoutesAt(s.links[c], s.transit[p].message, t1, t2, t3, r)
      && t == s.(links := s.links[c := WithCalls(s.links[c], Copies(s.transit[p].message, r))],
                 transit := s.transit[p := s.transit[p].(visited := s.transit[p].visited + {c})])
    case Take(c) => c in s.links && t == s.(links := s.links[c := WithCalls(s.links[c], [Pop])])
    case Join(c) => c in s.links && t == s.(members := s.members + {c})
    case Leave(c) => t == s.(members := s.members - {c})
  }

  /** Stages and the events between them. */
  ghost predicate IsPath<K>(stages: seq<Stage<K>>, events: seq<Event<K>>) {
    && |stages| == |events| + 1
    && forall i :: 0 <= i < |events| ==> Happens(stages[i], events[i], stages[i + 1])
  }

  /** A path from a stage at which nothing has been received yet. */
  ghost predicate IsRun<K>(stages: seq<Stage<K>>, events: seq<Event<K>>) {
    IsPath(stages, events) && stages[0].transit == map[]
  }

  // ---------- What is kept ----------

  lemma {:induction false} LastAddedBounds(additions: seq<Addition>, a: Address, time: int)
    requires NotBefore(additions, time) && LastAdded(additions, a).Some?
    ensures LastAdded(additions, a).value <= time
  {
    var last := |additions| - 1;
    if additions[last].address != a { LastAddedBounds(additions[..last], a, time); }
  }

  /** The source of a packet has been added to the connection it arrived on, then or later. */
  predicate IsAdded<K>(s: Stage<K>, p: nat)
    requires p in s.transit
  {
    var x := s.transit[p];
    && x.connection in s.links
    && var last := LastAdded(s.links[x.connection].additions, x.message.source);
       last.Some? && x.added <= last.value
  }

  lemma AdditionKeepsAdded(l: Link, source: Address, time: int, a: Address, added: int)
    requires NotBefore(l.additions, time) && LastAdded(l.additions, a).Some? && added <= LastAdded(l.additions, a).value
    ensures LastAdded(WithAddition(l, source, time).additions, a).Some?
    ensures added <= LastAdded(WithAddition(l, source, time).additions, a).value
  {
    var longer := WithAddition(l, source, time).additions;
    assert longer[..|longer| - 1] == l.additions;
    LastAddedBounds(l.additions, a, time);
  }

  lemma ArriveKeepsAdded<K>(s: Stage<K>, e: Event<K>, t: Stage<K>, p: nat)
    requires Happens(s, e, t) && e.Arrive? && p in t.transit && (p in s.transit ==> IsAdded(s, p))
    ensures IsAdded(t, p)
  {
    if p == e.p {
      var l := s.links[e.connection];
      assert WithAddition(l, e.message.source, e.time).additions[|l.additions|] == Addition(e.message.source, e.time);
    } else {
      var x := s.transit[p];
      if x.connection == e.connection {
        AdditionKeepsAdded(s.links[e.connection], e.message.source, e.time, x.message.source, x.added);
      }
    }
  }

  lemma EventKeepsAdded<K>(s: Stage<K>, e: Event<K>, t: Stage<K>, p: nat)
    requires Happens(s, e, t) && p in t.transit && (p in s.transit ==> IsAdded(s, p))
    ensures IsAdded(t, p)
  {
    if e.Arrive? { ArriveKeepsAdded(s, e, t, p); }
  }

  lemma {:induction false} RunKeepsAdded<K>(stages: seq<Stage<K>>, events: seq<Event<K>>, i: nat, p: nat)
    requires IsRun(stages, events) && i < |stages| && p in stages[i].transit
    ensures IsAdded(stages[i], p)
  {
    if i > 0 {
      assert Happens(stages[i - 1], events[i - 1], stages[i]);
      if p in stages[i - 1].transit { RunKeepsAdded(stages, events, i - 1, p); }
      EventKeepsAdded(stages[i - 1], events[i - 1], stages[i], p);
    }
  }

  /** Connections are what they were, and packets have been put to no fewer of them. */
  ghost predicate Keeps<K>(s: Stage<K>, t: Stage<K>) {
    && t.links.Keys == s.links.Keys
    && (forall c :: c in s.links ==> t.links[c].filter == s.links[c].filter && t.links[c].timeout == s.links[c].timeout)
    && (forall p :: p in s.transit ==>
          p in t.transit && t.transit[p] == s.transit[p].(visited := t.transit[p].visited)
          && s.transit[p].visited <= t.transit[p].visited)
  }

  lemma {:induction false} RunKeeps<K>(stages: seq<Stage<K>>, events: seq<Event<K>>, i: nat, j: nat)
    requires IsRun(stages, events) && i <= j < |stages|
    ensures Keeps(stages[i], stages[j])
    decreases j
  {
    if i < j {
      RunKeeps(stages, events, i, j - 1);
      assert Happens(stages[j - 1], events[j - 1], stages[j]);
    }
  }

  // ---------- No echo, at most once ----------

  /** What event `e` adds to the calls on the queue of connection `c`: a pop if it takes a packet there; if
      it puts a packet to `c`, at most one copy of it, and none where it arrived, as long as the address
      timeout has not passed; nothing otherwise. */
  ghost predicate IsPart<K>(s: Stage<K>, e: Event<K>, c: K, part: seq<Call<Message>>) {
    match e
    case Take(d) => part == if d == c then [Pop] else []
    case Visit(p, d, t1, _, _, _) =>
      if d != c then part == [] else
        && p in s.transit && c in s.links
        && var x := s.transit[p];
           && (part != [] ==> c in s.members && exists priority :: part == [Push(x.message, priority)])
           && (x.connection == c && t1 - x.added <= s.links[c].timeout ==> part == [])
    case _ => part == []
  }

  function Joined(parts: seq<seq<Call<Message>>>): seq<Call<Message>> {
    if parts == [] then [] else Joined(parts[..|parts| - 1]) + parts[|parts| - 1]
  }

  lemma EventPart<K>(s: Stage<K>, e: Event<K>, t: Stage<K>, c: K) returns (part: seq<Call<Message>>)
    requires Happens(s, e, t) && c in s.links && (forall p :: p in s.transit ==> IsAdded(s, p))
    ensures c in t.links && t.links[c].calls == s.links[c].calls + part
    ensures IsPart(s, e, c, part)
  {
    part := [];
    if e.Take? && e.connection == c {
      part := [Pop];
    } else if e.Visit? && e.connection == c {
      var x := s.transit[e.p];
      part := Copies(x.message, e.r);
      if x.connection == c && e.t1 - x.added <= s.links[c].timeout {
        assert IsAdded(s, e.p);
        NoEcho(s.links[c], x.message, x.added, e.t1, e.t2, e.t3, e.r);
      }
    }
  }

  lemma RunPart<K>(stages: seq<Stage<K>>, events: seq<Event<K>>, c: K, i: nat) returns (part: seq<Call<Message>>)
    requires IsRun(stages, events) && i < |events| && c in stages[i].links
    ensures c in stages[i + 1].links && stages[i + 1].links[c].calls == stages[i].links[c].calls + part
    ensures IsPart(stages[i], events[i], c, part)
  {
    var s := stages[i];
    forall p | p in s.transit ensures IsAdded(s, p) {
      RunKeepsAdded(stages, events, i, p);
    }
    assert Happens(s, events[i], stages[i + 1]);
    part := EventPart(s, events[i], stages[i + 1], c);
  }

  /** What each event has added to the calls on the queue of connection `c`. */
  ghost predicate AreParts<K>(stages: seq<Stage<K>>, events: seq<Event<K>>, c: K, parts: seq<seq<Call<Message>>>) {
    && |parts| <= |events| && |parts| <= |stages|
    && forall i :: 0 <= i < |parts| ==> IsPart(stages[i], events[i], c, parts[i])
  }

  lemma JoinedStep(parts: seq<seq<Call<Message>>>, part: seq<Call<Message>>)
    ensures Joined(parts + [part]) == Joined(parts) + part
  {
    assert (parts + [part])[..|parts|] == parts;
  }

  lemma PartsGrow<K>(stages: seq<Stage<K>>, events: seq<Event<K>>, c: K, parts: seq<seq<Call<Message>>>,
                     part: seq<Call<Message>>)
    requires AreParts(stages, events, c, parts) && |parts| < |events| && |parts| < |stages|
    requires IsPart(stages[|parts|], events[|parts|], c, part)
    ensures AreParts(stages, events, c, parts + [part])
  {
    var longer := parts + [part];
    forall i | 0 <= i < |longer| ensures IsPart(stages[i], events[i], c, longer[i]) {
      assert longer[i] == if i < |parts| then parts[i] else part;
      if i < |parts| { assert IsPart(stages[i], events[i], c, parts[i]); }
    }
  }

  /** In every interleaving of any number of receive threads and senders, with connections joining and
      leaving, the calls on the queue of a connection are its pops and, one for one, copies of packets that
      were put to it; a packet is never queued where it arrived while its source has not timed out. */
  lemma {:induction false} RunNeverEchoes<K>(stages: seq<Stage<K>>, events: seq<Event<K>>, c: K, n: nat)
    returns (parts: seq<seq<Call<Message>>>)
    requires IsRun(stages, events) && c in stages[0].links && n <= |events|
    ensures |parts| == n && AreParts(stages, events, c, parts)
    ensures c in stages[n].links && stages[n].links[c].calls == stages[0].links[c].calls + Joined(parts)
  {
    if n == 0 {
      parts := [];
    } else {
      var earlier := RunNeverEchoes(stages, events, c, n - 1);
      var last := RunPart(stages, events, c, n - 1);
      PartsGrow(stages, events, c, earlier, last);
      JoinedStep(earlier, last);
      parts := earlier + [last];
    }
  }

  /** No packet is put to a connection twice, so no queue is given two copies of it. */
  lemma NeverTwice<K>(stages: seq<Stage<K>>, events: seq<Event<K>>, i: nat, j: nat)
    requires IsRun(stages, events) && i < j < |events|
    requires events[i].Visit? && events[j].Visit? && events[i].p == events[j].p
    ensures events[i].connection != events[j].connection
  {
    assert Happens(stages[i], events[i], stages[i + 1]) && Happens(stages[j], events[j], stages[j + 1]);
    RunKeeps(stages, events, i + 1, j);
    assert events[i].connection in stages[i + 1].transit[events[i].p].visited;
  }

  // ---------- Runs go on ----------

  /** In a run whose filters have no cycle no routing decision is an error. */
  lemma AcyclicRunNeverFails<K>(stages: seq<Stage<K>>, events: seq<Event<K>>, i: nat)
    requires IsRun(stages, events) && i < |events| && events[i].Visit?
    requires forall c :: c in stages[0].links ==> Acyclic(stages[0].links[c].filter.chains)
    ensures events[i].r.Ok?
  {
    var s, e := stages[i], events[i];
    assert Happens(s, e, stages[i + 1]);
    RunKeeps(stages, events, 0, i);
    AcyclicNeverFails(s.links[e.connection], s.transit[e.p].message, e.t1, e.t2, e.t3, e.r);
  }

  lemma AcyclicNeverFails(l: Link, m: Message, t1: int, t2: int, t3: int, r: Routing)
    requires RoutesAt(l, m, t1, t2, t3, r) && Acyclic(l.filter.chains)
    ensures r.Ok?
  {
    var live1, live2, live3 := LiveOn(l, t1), LiveOn(l, t2), LiveOn(l, t3);
    RoutesFailExactly(l.filter, l.mirror, m, live1, live2, live3, r);
    if r.Err? {
      var a :| a in Asked(l.mirror, m, live2, live3) && WillAccept(l.filter, m, a).Err?;
      FilterIsFirstMatch(l.filter, m, a);
      assert false;
    }
  }

  /** After any run whose filters have no cycle, a packet that has been received can be put to any member of
      the pool it has not been put to yet, at any time, and it is dealt with. */
  lemma AcyclicRunGoesOn<K>(stages: seq<Stage<K>>, events: seq<Event<K>>, p: nat, c: K, t1: int, t2: int, t3: int)
    returns (next: Stage<K>, decision: Option<Int32>)
    requires IsRun(stages, events)
    requires forall d :: d in stages[0].links ==>
               ValidFilter(stages[0].links[d].filter) && Acyclic(stages[0].links[d].filter.chains)
    requires var s := stages[|events|];
             p in s.transit && c in s.members && c in s.links && c !in s.transit[p].visited && t1 <= t2 <= t3
    ensures Happens(stages[|events|], Visit(p, c, t1, t2, t3, Ok(decision)), next)
    ensures IsRun(stages + [next], events + [Visit(p, c, t1, t2, t3, Ok(decision))])
  {
    var s := stages[|events|];
    RunKeeps(stages, events, 0, |events|);
    var l, x := s.links[c], s.transit[p];
    var r := SomeRouting(l.filter, l.mirror, x.message, LiveOn(l, t1), LiveOn(l, t2), LiveOn(l, t3));
    AcyclicNeverFails(l, x.message, t1, t2, t3, r);
    decision := r.value;
    next := s.(links := s.links[c := WithCalls(l, Copies(x.message, r))],
               transit := s.transit[p := x.(visited := x.visited + {c})]);
    var e := Visit(p, c, t1, t2, t3, Ok(decision));
    assert r == Ok(decision);
    PathsJoin(stages, events, [s, next], [e]);
    assert [s, next][1..] == [next];
  }

  // ---------- Undisturbed calls are paths ----------

  lemma PathsJoin<K>(stages: seq<Stage<K>>, events: seq<Event<K>>, more: seq<Stage<K>>, added: seq<Event<K>>)
    requires IsPath(stages, events) && IsPath(more, added) && more[0] == stages[|events|]
    ensures IsPath(stages + more[1..], events + added)
    ensures (stages + more[1..])[0] == stages[0] && (stages + more[1..])[|events + added|] == more[|added|]
  {
    var longer, all := stages + more[1..], events + added;
    forall i | 0 <= i < |all| ensures Happens(longer[i], all[i], longer[i + 1]) {
      if i < |events| {
        assert Happens(stages[i], events[i], stages[i + 1]);
      } else {
        var j := i - |events|;
        assert Happens(more[j], added[j], more[j + 1]);
        assert longer[i] == more[j] && longer[i + 1] == more[j + 1];
      }
    }
  }

  /** The events lead from `s` to `t`. */
  ghost predicate Leads<K>(stages: seq<Stage<K>>, events: seq<Event<K>>, s: Stage<K>, t: Stage<K>) {
    IsPath(stages, events) && stages[0] == s && stages[|events|] == t
  }

  lemma LeadsOn<K>(stages: seq<Stage<K>>, events: seq<Event<K>>, more: seq<Stage<K>>, added: seq<Event<K>>,
                   s: Stage<K>, t: Stage<K>, u: Stage<K>)
    requires Leads(stages, events, s, t) && Leads(more, added, t, u)
    ensures Leads(stages + more[1..], events + added, s, u)
  {
    PathsJoin(stages, events, more, added);
  }

  /** Packet `p` has been put to connection `c`. */
  function Visited<K>(s: Stage<K>, p: nat, c: K, l: Link): Stage<K>
    requires p in s.transit
  {
    s.(links := s.links[c := l], transit := s.transit[p := s.transit[p].(visited := s.transit[p].visited + {c})])
  }

  /** Dealing with a packet is a visit. */
  lemma DealtIsVisit<K>(s: Stage<K>, p: nat, c: K, after: Link, from: int, to: int, r: Routing)
    returns (e: Event<K>)
    requires p in s.transit && c in s.members && c in s.links && c !in s.transit[p].visited
    requires Dealt(s.links[c], after, s.transit[p].message, from, to, r)
    ensures e.Visit? && e.p == p && e.connection == c && e.r == r && from <= e.t1 && e.t3 <= to
    ensures Happens(s, e, Visited(s, p, c, after))
  {
    var t1, t2, t3 :| Readings(from, t1, t2, t3, to) && RoutesAt(s.links[c], s.transit[p].message, t1, t2, t3, r);
    e := Visit(p, c, t1, t2, t3, r);
  }

  /** The connections in `done` are as in `after`, and packet `p` has been put to them. */
  function AllVisited<K>(s: Stage<K>, p: nat, done: set<K>, after: map<K, Link>): Stage<K>
    requires p in s.transit && done <= after.Keys
  {
    s.(links := map c | c in s.links :: if c in done then after[c] else s.links[c],
       transit := s.transit[p := s.transit[p].(visited := s.transit[p].visited + done)])
  }

  ghost predicate CanVisit<K>(s: Stage<K>, p: nat, todo: set<K>, after: map<K, Link>, from: int, to: int) {
    && p in s.transit && todo <= s.members && todo <= s.links.Keys && todo <= after.Keys
    && todo !! s.transit[p].visited
    && forall c :: c in todo ==> Reached(s.links[c], after[c], s.transit[p].message, from, to, true)
  }

  /** One of them comes first. */
  lemma VisitFirst<K>(s: Stage<K>, p: nat, c: K, todo: set<K>, after: map<K, Link>, from: int, to: int)
    returns (e: Event<K>)
    requires CanVisit(s, p, todo, after, from, to) && c in todo
    ensures Happens(s, e, Visited(s, p, c, after[c]))
    ensures CanVisit(Visited(s, p, c, after[c]), p, todo - {c}, after, from, to)
  {
    var q: Option<Int32> :| Dealt(s.links[c], after[c], s.transit[p].message, from, to, Ok(q));
    e := DealtIsVisit(s, p, c, after[c], from, to, Ok(q));
  }

  lemma StepLeads<K>(s: Stage<K>, e: Event<K>, t: Stage<K>)
    requires Happens(s, e, t)
    ensures Leads([s, t], [e], s, t)
  {}

  lemma {:induction false} VisitsLead<K>(s: Stage<K>, p: nat, todo: set<K>, after: map<K, Link>, from: int, to: int)
    returns (stages: seq<Stage<K>>, events: seq<Event<K>>)
    requires CanVisit(s, p, todo, after, from, to)
    ensures Leads(stages, events, s, AllVisited(s, p, todo, after))
    decreases |todo|
  {
    if todo == {} {
      assert AllVisited(s, p, todo, after) == s;
      stages, events := [s], [];
    } else {
      var c :| c in todo;
      var t := Visited(s, p, c, after[c]);
      var e := VisitFirst(s, p, c, todo, after, from, to);
      StepLeads(s, e, t);
      stages, events := VisitsLead(t, p, todo - {c}, after, from, to);
      VisitedSplits(s, p, c, todo, after);
      LeadsOn([s, t], [e], stages, events, s, t, AllVisited(s, p, todo, after));
      stages, events := [s, t] + stages[1..], [e] + events;
    }
  }

  lemma VisitedSplits<K>(s: Stage<K>, p: nat, c: K, todo: set<K>, after: map<K, Link>)
    requires p in s.transit && c in todo && todo <= after.Keys && c in s.links
    ensures AllVisited(Visited(s, p, c, after[c]), p, todo - {c}, after) == AllVisited(s, p, todo, after)
  {
    assert s.transit[p].visited + {c} + (todo - {c}) == s.transit[p].visited + todo;
  }

  lemma {:induction false} LeavesLead<K>(s: Stage<K>, gone: set<K>)
    returns (stages: seq<Stage<K>>, events: seq<Event<K>>)
    ensures Leads(stages, events, s, s.(members := s.members - gone))
    decreases |gone|
  {
    if gone == {} {
      assert s.members - gone == s.members;
      stages, events := [s], [];
    } else {
      var c :| c in gone;
      var t := s.(members := s.members - {c});
      stages, events := LeavesLead(t, gone - {c});
      assert s.members - {c} - (gone - {c}) == s.members - gone;
      LeadsOn([s, t], [Leave(c)], stages, events, s, t, s.(members := s.members - gone));
      stages, events := [s, t] + stages[1..], [Leave(c)] + events;
    }
  }

  /** Packet `p` has been put to some connections, which has changed the links. */
  function Routed<K>(s: Stage<K>, p: nat, visited: set<K>, after: map<K, Link>): Stage<K>
    requires p in s.transit
  {
    s.(links := after, transit := s.transit[p := s.transit[p].(visited := visited)])
  }

  /** A fan-out of packet `p` that completes. */
  lemma CompletedLeads<K>(s: Stage<K>, p: nat, targets: set<K>, after: map<K, Link>, from: int, to: int)
    returns (stages: seq<Stage<K>>, events: seq<Event<K>>)
    requires p in s.transit && s.transit[p].visited == {} && targets <= s.members
    requires FannedOut(s.links, after, targets, s.transit[p].message, from, to, Ok(()))
    ensures Leads(stages, events, s, Routed(s, p, targets, after))
  {
    stages, events := VisitsLead(s, p, targets, after, from, to);
    assert AllVisited(s, p, targets, after).links == after;
    assert {} + targets == targets;
  }

  /** A fan-out of packet `p` that an error ends. */
  lemma HaltedLeads<K>(s: Stage<K>, p: nat, targets: set<K>, after: map<K, Link>, from: int, to: int)
    returns (visited: set<K>, stages: seq<Stage<K>>, events: seq<Event<K>>)
    requires p in s.transit && s.transit[p].visited == {} && targets <= s.members
    requires FannedOut(s.links, after, targets, s.transit[p].message, from, to, Err(RecursionError))
    ensures visited <= targets && Leads(stages, events, s, Routed(s, p, visited, after))
  {
    var m := s.transit[p].message;
    var last :| last in targets && Dealt(s.links[last], after[last], m, from, to, Err(RecursionError));
    var first := set c | c in targets && c != last && Reached(s.links[c], after[c], m, from, to, true);
    visited := first + {last};
    stages, events := VisitsLead(s, p, first, after, from, to);
    var t, u := AllVisited(s, p, first, after), Routed(s, p, visited, after);
    var e := LastVisit(s, p, first, last, after, from, to);
    StepLeads(t, e, u);
    LeadsOn(stages, events, [t, u], [e], s, t, u);
    stages, events := stages + [t, u][1..], events + [e];
  }

  lemma LastVisit<K>(s: Stage<K>, p: nat, first: set<K>, last: K, after: map<K, Link>, from: int, to: int)
    returns (e: Event<K>)
    requires p in s.transit && s.transit[p].visited == {} && first <= after.Keys && last in s.members
    requires last in after && last in s.links && last !in first
    requires after == (map c | c in s.links :: if c in first then after[c] else s.links[c])[last := after[last]]
    requires Dealt(s.links[last], after[last], s.transit[p].message, from, to, Err(RecursionError))
    ensures Happens(AllVisited(s, p, first, after), e, Routed(s, p, first + {last}, after))
  {
    var t := AllVisited(s, p, first, after);
    e := DealtIsVisit(t, p, last, after[last], from, to, Err(RecursionError));
    assert {} + first + {last} == first + {last};
  }

  /** A receive without interference, whether it completes or ends with an error, is a path: an arrival,
      visits, and connections leaving. So what such calls do one after the other is part of a run. */
  lemma ReceiveLeads<K>(s: Stage<K>, p: nat, x: Receipt<K>, after: map<K, Link>, left: set<K>,
                        result: Result<(), Rules.Error>)
    returns (visited: set<K>, stages: seq<Stage<K>>, events: seq<Event<K>>)
    requires p !in s.transit && x.connection in s.links && NotBefore(s.links[x.connection].additions, x.added)
    requires Received(s.links, s.members, x, after, result) && left <= s.members
    ensures visited <= s.members * x.alive && (result.Ok? ==> visited == s.members * x.alive)
    ensures Leads(stages, events, s,
                  Stage(left, after, s.transit[p := Transit(x.connection, x.message, x.added, visited)]))
  {
    var targets := s.members * x.alive;
    var unrouted := Transit(x.connection, x.message, x.added, {});
    var arrived := Stage(s.members, Arrived(s.links, x), s.transit[p := unrouted]);
    var arrival := Arrive(p, x.connection, x.message, x.added);
    visited := targets;
    if result.Ok? {
      stages, events := CompletedLeads(arrived, p, targets, after, x.from, x.to);
    } else {
      assert result.error.RecursionError?;
      visited, stages, events := HaltedLeads(arrived, p, targets, after, x.from, x.to);
    }
    var routed := Routed(arrived, p, visited, after);
    LeadsOn([s, arrived], [arrival], stages, events, s, arrived, routed);
    stages, events := [s, arrived] + stages[1..], [arrival] + events;
    var more, leaves := LeavesLead(routed, s.members - left);
    assert s.members - (s.members - left) == left;
    assert routed.transit == s.transit[p := unrouted.(visited := visited)];
    LeadsOn(stages, events, more, leaves, s, routed, routed.(members := left));
    stages, events := stages + more[1..], events + leaves;
  }
}
