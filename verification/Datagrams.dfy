/** The receive half of a UDP interface: datagrams from many addresses share one parser, which is
    cleared whenever the address changes. */
module Datagrams {
  import opened Framing
  import opened PacketParsers

  datatype Datagram = Datagram(ip: nat, bytes: seq<Byte>)

  /** A packet and the address it came from. */
  datatype Arrival = Arrival(ip: nat, packet: Packet)

  // ---------- What a run of datagrams is to give ----------

  /** A non-empty datagram extends the last run if it is from the same address, or else opens one. */
  function Grown(groups: seq<Datagram>, d: Datagram): seq<Datagram> {
    if groups != [] && groups[|groups| - 1].ip == d.ip then
      groups[..|groups| - 1] + [Datagram(d.ip, groups[|groups| - 1].bytes + d.bytes)]
    else
      groups + [d]
  }

  /** Empty datagrams dropped, the rest joined into maximal runs from one address. */
  function Groups(history: seq<Datagram>): seq<Datagram> {
    if history == [] then [] else
      var groups := Groups(history[..|history| - 1]);
      var d := history[|history| - 1];
      if d.bytes == [] then groups else Grown(groups, d)
  }

  function Tag(ip: nat, packets: seq<Packet>): (arrivals: seq<Arrival>)
    ensures |arrivals| == |packets|
  {
    seq(|packets|, i requires 0 <= i < |packets| => Arrival(ip, packets[i]))
  }

  /** Each run decoded on its own. */
  function Arrivals(known: set<nat>, groups: seq<Datagram>): seq<Arrival> {
    if groups == [] then [] else
      var last := groups[|groups| - 1];
      Arrivals(known, groups[..|groups| - 1]) + Tag(last.ip, Packets(Decode(known, last.bytes).items))
  }

  function NonEmpty(history: seq<Datagram>): seq<Datagram> {
    if history == [] then [] else
      var datagrams := NonEmpty(history[..|history| - 1]);
      if history[|history| - 1].bytes == [] then datagrams else datagrams + [history[|history| - 1]]
  }

  function Joined(run: seq<Datagram>): seq<Byte> {
    if run == [] then [] else Joined(run[..|run| - 1]) + run[|run| - 1].bytes
  }

  /** `group` is what the datagrams from index `from` up to `to` carry, all from its address, and the
      datagrams next to them, if any, are from other addresses. */
  predicate IsMaximalRun(datagrams: seq<Datagram>, group: Datagram, from: nat, to: nat) {
    && from < to <= |datagrams|
    && (forall k :: from <= k < to ==> datagrams[k].ip == group.ip)
    && (from > 0 ==> datagrams[from - 1].ip != group.ip)
    && (to < |datagrams| ==> datagrams[to].ip != group.ip)
    && group.bytes == Joined(datagrams[from..to])
  }

  lemma RunExtends(datagrams: seq<Datagram>, group: Datagram, from: nat, d: Datagram)
    requires IsMaximalRun(datagrams, group, from, |datagrams|) && d.ip == group.ip
    ensures IsMaximalRun(datagrams + [d], Datagram(d.ip, group.bytes + d.bytes), from, |datagrams| + 1)
  {
    var run := (datagrams + [d])[from..|datagrams| + 1];
    assert run[..|run| - 1] == datagrams[from..|datagrams|];
  }

  lemma RunStays(datagrams: seq<Datagram>, group: Datagram, from: nat, to: nat, d: Datagram)
    requires IsMaximalRun(datagrams, group, from, to)
    requires to < |datagrams| || d.ip != group.ip
    ensures IsMaximalRun(datagrams + [d], group, from, to)
  {
    assert (datagrams + [d])[from..to] == datagrams[from..to];
  }

  lemma RunStarts(datagrams: seq<Datagram>, d: Datagram)
    requires datagrams != [] ==> datagrams[|datagrams| - 1].ip != d.ip
    ensures IsMaximalRun(datagrams + [d], d, |datagrams|, |datagrams| + 1)
  {
    assert (datagrams + [d])[|datagrams|..|datagrams| + 1] == [d];
    assert [d][..0] == [];
  }

  /** Group `g` is a maximal run, and only the last group reaches the end. */
  predicate IsGroup(datagrams: seq<Datagram>, groups: seq<Datagram>, g: nat, from: nat, to: nat) {
    && g < |groups| && IsMaximalRun(datagrams, groups[g], from, to)
    && (to == |datagrams| <==> g == |groups| - 1)
  }

  lemma GroupGoesOn(datagrams: seq<Datagram>, groups: seq<Datagram>, g: nat, from: nat, to: nat, d: Datagram)
    returns (end: nat)
    requires IsGroup(datagrams, groups, g, from, to)
    ensures IsGroup(datagrams + [d], Grown(groups, d), g, from, end)
  {
    if g == |groups| - 1 && groups[g].ip == d.ip {
      RunExtends(datagrams, groups[g], from, d);
      end := to + 1;
    } else {
      RunStays(datagrams, groups[g], from, to, d);
      end := to;
    }
  }

  predicate SameEnd(datagrams: seq<Datagram>, groups: seq<Datagram>) {
    && (groups == [] <==> datagrams == [])
    && (groups != [] ==> datagrams[|datagrams| - 1].ip == groups[|groups| - 1].ip)
  }

  lemma GroupOpens(datagrams: seq<Datagram>, groups: seq<Datagram>, d: Datagram)
    requires SameEnd(datagrams, groups) && |Grown(groups, d)| == |groups| + 1
    ensures IsGroup(datagrams + [d], Grown(groups, d), |groups|, |datagrams|, |datagrams| + 1)
  {
    RunStarts(datagrams, d);
  }

  lemma {:induction false} GroupsEndAlike(history: seq<Datagram>)
    ensures SameEnd(NonEmpty(history), Groups(history))
  {
    if history != [] { GroupsEndAlike(history[..|history| - 1]); }
  }

  lemma GrownJoined(groups: seq<Datagram>, d: Datagram)
    ensures Joined(Grown(groups, d)) == Joined(groups) + d.bytes
  {
    var grown := Grown(groups, d);
    assert |grown| == |groups| + 1 ==> grown[..|grown| - 1] == groups;
    assert |grown| == |groups| ==> grown[..|grown| - 1] == groups[..|groups| - 1];
  }

  /** The groups carry all bytes received, in order. */
  lemma {:induction false} GroupsLoseNothing(history: seq<Datagram>)
    ensures Joined(Groups(history)) == Joined(history)
  {
    if history != [] {
      GroupsLoseNothing(history[..|history| - 1]);
      GrownJoined(Groups(history[..|history| - 1]), history[|history| - 1]);
    }
  }

  /** Every group is a maximal run of consecutive non-empty datagrams; the last group reaches the end. */
  lemma {:induction false} GroupsAreMaximalRuns(history: seq<Datagram>, g: nat) returns (from: nat, to: nat)
    requires g < |Groups(history)|
    ensures IsMaximalRun(NonEmpty(history), Groups(history)[g], from, to)
    ensures IsGroup(NonEmpty(history), Groups(history), g, from, to)
  {
    var before, d := history[..|history| - 1], history[|history| - 1];
    var datagrams, groups := NonEmpty(before), Groups(before);
    if g < |groups| {
      from, to := GroupsAreMaximalRuns(before, g);
      if d.bytes != [] { to := GroupGoesOn(datagrams, groups, g, from, to, d); }
    } else {
      GroupsEndAlike(before);
      GroupOpens(datagrams, groups, d);
      from, to := |datagrams|, |datagrams| + 1;
    }
  }

  /** `data` is in `s` at `at`. */
  predicate IsSlice(s: seq<Byte>, at: nat, data: seq<Byte>) {
    at + |data| <= |s| && s[at..at + |data|] == data
  }

  lemma SliceBehind(s: seq<Byte>, n: nat, at: nat, data: seq<Byte>)
    requires n <= |s| && IsSlice(s[n..], at, data)
    ensures IsSlice(s, n + at, data)
  {
    assert s[n..][at..at + |data|] == s[n + at..n + at + |data|];
  }

  /** How the first item of a stream and the rest of it share the packets. */
  lemma FirstItem(known: set<nat>, s: seq<Byte>) returns (n: nat)
    requires Decode(known, s).items != []
    ensures 0 < n <= |s|
    ensures var items := Decode(known, s).items;
            && items[1..] == Decode(known, s[n..]).items
            && (items[0].Emitted? ==> IsSlice(s, 0, items[0].packet.data))
  {
    var v := VersionOf(s[0]);
    n := if v.None? then 1 else AnnouncedLength(v.value, s);
  }

  lemma {:induction false} PacketsAreSlices(known: set<nat>, s: seq<Byte>, k: nat) returns (at: nat)
    requires k < |Packets(Decode(known, s).items)|
    ensures IsSlice(s, at, Packets(Decode(known, s).items)[k].data)
    decreases |s|
  {
    var items := Decode(known, s).items;
    var n := FirstItem(known, s);
    if items[0].Emitted? && k == 0 {
      at := 0;
    } else {
      var j := if items[0].Emitted? then k - 1 else k;
      assert Packets(items)[k] == Packets(items[1..])[j];
      at := PacketsAreSlices(known, s[n..], j);
      SliceBehind(s, n, at, Packets(items)[k].data);
      at := n + at;
    }
  }

  lemma {:induction false} ArrivalFromGroup(known: set<nat>, groups: seq<Datagram>, k: nat) returns (g: nat, j: nat)
    requires k < |Arrivals(known, groups)|
    ensures g < |groups| && j < |Packets(Decode(known, groups[g].bytes).items)|
    ensures Arrivals(known, groups)[k]
         == Arrival(groups[g].ip, Packets(Decode(known, groups[g].bytes).items)[j])
  {
    var front := Arrivals(known, groups[..|groups| - 1]);
    if k < |front| {
      g, j := ArrivalFromGroup(known, groups[..|groups| - 1], k);
    } else {
      g, j := |groups| - 1, k - |front|;
    }
  }

  /** The number of packets in some runs. */
  function PacketsIn(known: set<nat>, groups: seq<Datagram>): nat {
    if groups == [] then 0 else
      PacketsIn(known, groups[..|groups| - 1]) + |Packets(Decode(known, groups[|groups| - 1].bytes).items)|
  }

  lemma {:induction false} ArrivalsCounted(known: set<nat>, groups: seq<Datagram>)
    ensures |Arrivals(known, groups)| == PacketsIn(known, groups)
  {
    if groups != [] { ArrivalsCounted(known, groups[..|groups| - 1]); }
  }

  function PacketsOf(known: set<nat>, group: Datagram): seq<Packet> {
    Packets(Decode(known, group.bytes).items)
  }

  /** The packet at place `k` is packet `j` of run `g`. */
  predicate ArrivesAt(known: set<nat>, groups: seq<Datagram>, g: nat, j: nat, k: nat) {
    && g < |groups| && j < |PacketsOf(known, groups[g])| && k < |Arrivals(known, groups)|
    && Arrivals(known, groups)[k] == Arrival(groups[g].ip, PacketsOf(known, groups[g])[j])
  }

  lemma ArrivesLast(known: set<nat>, groups: seq<Datagram>, j: nat)
    requires groups != [] && j < |PacketsOf(known, groups[|groups| - 1])|
    ensures ArrivesAt(known, groups, |groups| - 1, j, |Arrivals(known, groups[..|groups| - 1])| + j)
  {}

  lemma ArrivesEarlier(known: set<nat>, groups: seq<Datagram>, g: nat, j: nat, k: nat)
    requires groups != [] && ArrivesAt(known, groups[..|groups| - 1], g, j, k)
    ensures ArrivesAt(known, groups, g, j, k)
  {}

  /** Every packet of every run arrives, behind those of the earlier runs and the earlier ones of its own, and
      nothing else does. */
  lemma {:induction false} EveryPacketArrives(known: set<nat>, groups: seq<Datagram>, g: nat, j: nat)
    requires g < |groups| && j < |Packets(Decode(known, groups[g].bytes).items)|
    ensures |Arrivals(known, groups)| == PacketsIn(known, groups)
    ensures ArrivesAt(known, groups, g, j, PacketsIn(known, groups[..g]) + j)
  {
    ArrivalsCounted(known, groups);
    var front := groups[..|groups| - 1];
    if g < |groups| - 1 {
      EveryPacketArrives(known, front, g, j);
      assert front[..g] == groups[..g];
      ArrivesEarlier(known, groups, g, j, PacketsIn(known, groups[..g]) + j);
    } else {
      ArrivalsCounted(known, front);
      ArrivesLast(known, groups, j);
    }
  }

  /** Every packet consists of consecutive bytes of consecutive non-empty datagrams that all came from
      the address it is attributed to. */
  lemma SourcePurity(known: set<nat>, history: seq<Datagram>, k: nat)
    returns (from: nat, to: nat, group: Datagram, at: nat)
    requires k < |Arrivals(known, Groups(history))|
    ensures var arrival := Arrivals(known, Groups(history))[k];
            && IsMaximalRun(NonEmpty(history), group, from, to)
            && group.ip == arrival.ip
            && IsSlice(group.bytes, at, arrival.packet.data)
  {
    var g, j := ArrivalFromGroup(known, Groups(history), k);
    group := Groups(history)[g];
    from, to := GroupsAreMaximalRuns(history, g);
    at := PacketsAreSlices(known, group.bytes, j);
  }

  // ---------- The receiver ----------

  /** A datagram from `ip` continues the last run, or opens one with nothing before it. */
  ghost predicate OpenRun(groups: seq<Datagram>, ip: nat, front: seq<Datagram>, start: seq<Byte>) {
    || groups == front + [Datagram(ip, start)]
    || (groups == front && start == [] && (groups != [] ==> groups[|groups| - 1].ip != ip))
  }

  lemma ExtendGroups(history: seq<Datagram>, d: Datagram, front: seq<Datagram>, start: seq<Byte>)
    requires d.bytes != [] && OpenRun(Groups(history), d.ip, front, start)
    ensures Groups(history + [d]) == front + [Datagram(d.ip, start + d.bytes)]
  {
    assert (history + [d])[..|history|] == history;
    assert start == [] ==> start + d.bytes == d.bytes;
  }

  /** A packet passed on to the connection pool, with the connection it is attributed to. */
  datatype Routed = Routed(connection: nat, arrival: Arrival)

  function ArrivalsOf(routed: seq<Routed>): (arrivals: seq<Arrival>)
    ensures |arrivals| == |routed|
  {
    seq(|routed|, i requires 0 <= i < |routed| => routed[i].arrival)
  }

  /** Connections are distinct, and exist for exactly the addresses packets were attributed to. */
  ghost predicate IsAttribution(connections: map<nat, nat>, created: nat, routed: seq<Routed>) {
    && (forall ip :: ip in connections ==> connections[ip] < created)
    && (forall x, y :: x in connections && y in connections && x != y ==> connections[x] != connections[y])
    && (forall i :: 0 <= i < |routed| ==>
          routed[i].arrival.ip in connections && routed[i].connection == connections[routed[i].arrival.ip])
    && (forall ip :: ip in connections ==> exists i :: 0 <= i < |routed| && routed[i].arrival.ip == ip)
  }

  /** The connections after `update_connections_`, and how many there have been. */
  function WithConnection(connections: map<nat, nat>, created: nat, ip: nat): map<nat, nat> {
    if ip in connections then connections else connections[ip := created]
  }

  lemma AttributionGrows(connections: map<nat, nat>, created: nat, routed: seq<Routed>, arrival: Arrival)
    requires IsAttribution(connections, created, routed)
    ensures var after := WithConnection(connections, created, arrival.ip);
            IsAttribution(
              after,
              if arrival.ip in connections then created else created + 1,
              routed + [Routed(after[arrival.ip], arrival)])
  {
    var after := WithConnection(connections, created, arrival.ip);
    var longer := routed + [Routed(after[arrival.ip], arrival)];
    assert longer[|routed|].arrival.ip == arrival.ip;
    forall ip | ip in after ensures exists i :: 0 <= i < |longer| && longer[i].arrival.ip == ip {
      if ip in connections {
        var i :| 0 <= i < |routed| && routed[i].arrival.ip == ip;
        assert longer[i].arrival.ip == ip;
      }
    }
  }

  class UdpReceiver {
    const parser: PacketParser
    var lastIp: nat
    var connections: map<nat, nat>         // the connection of each address, by identity
    var created: nat                       // connections made so far
    var routed: seq<Routed>                // what has been passed to the connection pool
    ghost var history: seq<Datagram>

    ghost function RoutedArrivals(): seq<Arrival>
      reads `routed
    {
      ArrivalsOf(routed)
    }

    ghost predicate Attributed()
      reads `connections, `created, `routed
    {
      IsAttribution(connections, created, routed)
    }

    ghost predicate Valid()
      reads this, parser
    {
      && parser.Valid() && Attributed()
      && RoutedArrivals() == Arrivals(parser.known, Groups(history))
      && var groups := Groups(history);
         if groups == [] then
           parser.consumed == []
         else
           lastIp == groups[|groups| - 1].ip && parser.consumed == groups[|groups| - 1].bytes
    }

    constructor (known: set<nat>)
      ensures Valid() && fresh(parser) && parser.known == known
      ensures history == [] && routed == [] && connections == map[]
    {
      parser := new PacketParser(known);
      lastIp, connections, created, routed, history := 0, map[], 0, [], [];
    }

    /** `update_connections_`: the connection of an address is made once and then kept. */
    method UpdateConnections(ip: nat) returns (connection: nat)
      modifies this`connections, this`created
      ensures ip in connections && connection == connections[ip]
      ensures connections == WithConnection(old(connections), old(created), ip)
      ensures created == if ip in old(connections) then old(created) else old(created) + 1
    {
      if ip !in connections {
        connections, created := connections[ip := created], created + 1;
      }
      connection := connections[ip];
    }

    /** Address by address, connections are never replaced. */
    ghost predicate Keeps(earlier: map<nat, nat>)
      reads `connections
    {
      forall ip :: ip in earlier ==> ip in connections && connections[ip] == earlier[ip]
    }

    /** What the parser has given since it was last cleared came from `ip`, after `front`. */
    ghost predicate Receiving(ip: nat, front: seq<Arrival>)
      reads `connections, `created, `routed, parser
    {
      && parser.Valid() && Attributed()
      && RoutedArrivals() == front + Tag(ip, Packets(Decode(parser.known, parser.consumed).items))
    }

    /** One call of `receive_packet`. After any run of datagrams the packets passed on are exactly those
        of the runs decoded one by one, each attributed to the one connection of its address. */
    method ReceivePacket(d: Datagram)
      requires Valid()
      modifies this, parser
      ensures Valid() && history == old(history) + [d]
      ensures old(routed) <= routed && Keeps(old(connections))
    {
      ghost var groups := Groups(history);
      if d.bytes != [] {
        ghost var front := Turn(d.ip);
        ghost var start := parser.consumed;
        ParseBytes(d, Arrivals(parser.known, front));
        ExtendGroups(history, d, front, start);
      }
      history := history + [d];
      assert history[..|history| - 1] == old(history);
    }

    /** Clear the parser if the address has changed. Returns the runs that are over. */
    method Turn(ip: nat) returns (ghost front: seq<Datagram>)
      requires Valid()
      modifies this`lastIp, parser
      ensures lastIp == ip && Receiving(ip, Arrivals(parser.known, front))
      ensures OpenRun(Groups(history), ip, front, parser.consumed)
    {
      ghost var groups := Groups(history);
      front := if groups != [] && groups[|groups| - 1].ip == ip then groups[..|groups| - 1] else groups;
      if ip != lastIp {
        parser.Clear();
        lastIp := ip;
      }
      assert Tag(ip, Packets(Decode(parser.known, []).items)) == [];
    }

    /** The loop of `receive_packet` over the bytes of one datagram. */
    method ParseBytes(d: Datagram, ghost front: seq<Arrival>)
      requires Receiving(d.ip, front)
      modifies this`connections, this`created, this`routed, parser
      ensures Receiving(d.ip, front) && parser.consumed == old(parser.consumed) + d.bytes
      ensures old(routed) <= routed && Keeps(old(connections))
    {
      var i := 0;
      while i < |d.bytes|
        invariant i <= |d.bytes|
        invariant Receiving(d.ip, front) && parser.consumed == old(parser.consumed) + d.bytes[..i]
        invariant old(routed) <= routed && Keeps(old(connections))
      {
        assert d.bytes[..i + 1] == d.bytes[..i] + [d.bytes[i]];
        ParseByte(d.ip, d.bytes[i], front);
        i := i + 1;
      }
    }

    method ParseByte(ip: nat, b: Byte, ghost front: seq<Arrival>)
      requires Receiving(ip, front)
      modifies this`connections, this`created, this`routed, parser
      ensures Receiving(ip, front) && parser.consumed == old(parser.consumed) + [b]
      ensures old(routed) <= routed && Keeps(old(connections))
    {
      ghost var seen := Packets(Decode(parser.known, parser.consumed).items);
      var packet := parser.ParseByte(b);
      if packet.Some? {
        Route(Arrival(ip, packet.value));
      }
    }

    /** Attribute a packet to the connection of its address and pass it on. */
    method Route(arrival: Arrival)
      requires Attributed()
      modifies this`connections, this`created, this`routed
      ensures Attributed() && Keeps(old(connections))
      ensures old(routed) <= routed && RoutedArrivals() == old(RoutedArrivals()) + [arrival]
    {
      AttributionGrows(connections, created, routed, arrival);
      var connection := UpdateConnections(arrival.ip);
      routed := routed + [Routed(connection, arrival)];
    }
  }
}
