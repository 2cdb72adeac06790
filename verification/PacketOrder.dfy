/** Queued packets and their order: priority first, then a 64-bit ticket that wraps around. */
module PacketOrder {

  const TICKETS: nat := 0x1_0000_0000_0000_0000
  const HALF: nat := 0x7FFF_FFFF_FFFF_FFFF     // the largest ticket divided by two

  type Ticket = t: nat | t < TICKETS witness 0

  type Int32 = i: int | -0x8000_0000 <= i < 0x8000_0000 witness 0

  datatype QueuedPacket<P> = QueuedPacket(packet: P, priority: Int32, ticket: Ticket)

  /** `lhs - rhs` on unsigned 64-bit numbers. */
  function TicketDistance(lhs: Ticket, rhs: Ticket): Ticket {
    (lhs - rhs) % TICKETS
  }

  /** Operator `<`: `rhs` is to leave the queue before `lhs`. */
  predicate Less<P>(lhs: QueuedPacket<P>, rhs: QueuedPacket<P>) {
    || lhs.priority < rhs.priority
    || (lhs.priority == rhs.priority && TicketDistance(rhs.ticket, lhs.ticket) > HALF)
  }

  /** Operator `>`. */
  predicate Greater<P>(lhs: QueuedPacket<P>, rhs: QueuedPacket<P>) {
    || lhs.priority > rhs.priority
    || (lhs.priority == rhs.priority && TicketDistance(lhs.ticket, rhs.ticket) > HALF)
  }

  /** Operator `==`. */
  predicate Same<P>(lhs: QueuedPacket<P>, rhs: QueuedPacket<P>) {
    lhs.priority == rhs.priority && lhs.ticket == rhs.ticket
  }

  /** Operator `<=`. */
  predicate LessOrEqual<P>(lhs: QueuedPacket<P>, rhs: QueuedPacket<P>) {
    Same(lhs, rhs) || Less(lhs, rhs)
  }

  /** Operator `>=`. */
  predicate GreaterOrEqual<P>(lhs: QueuedPacket<P>, rhs: QueuedPacket<P>) {
    Same(lhs, rhs) || Greater(lhs, rhs)
  }

  // ---------- Pushes numbered without wrap-around ----------

  /** A packet with the number of pushes that came before its own. */
  datatype Item<P> = Item(packet: P, priority: Int32, serial: nat)

  function Stamp(serial: nat): Ticket {
    serial % TICKETS
  }

  function Encode<P>(item: Item<P>): QueuedPacket<P> {
    QueuedPacket(item.packet, item.priority, Stamp(item.serial))
  }

  function EncodeAll<P>(items: seq<Item<P>>): seq<QueuedPacket<P>> {
    seq(|items|, i requires 0 <= i < |items| => Encode(items[i]))
  }

  /** `first` is to leave the queue before `second`. */
  predicate Precedes<P>(first: Item<P>, second: Item<P>) {
    || first.priority > second.priority
    || (first.priority == second.priority && first.serial < second.serial)
  }

  lemma StampDistance(early: nat, late: nat)
    requires early <= late
    ensures TicketDistance(Stamp(late), Stamp(early)) == (late - early) % TICKETS
    ensures TicketDistance(Stamp(early), Stamp(late)) == (TICKETS - (late - early) % TICKETS) % TICKETS
  {
    var q1, r1, q2, r2 := early / TICKETS, early % TICKETS, late / TICKETS, late % TICKETS;
    var d := late - early;
    assert d == (q2 - q1) * TICKETS + (r2 - r1);
  }

  lemma StampNext(serial: nat)
    ensures Stamp(serial + 1) == (Stamp(serial) + 1) % TICKETS
  {}

  /** Two packets of one priority leave in push order exactly when their push distance, modulo the
      number of tickets, is neither 0 nor 2^63 or more. */
  lemma OrderFollowsPushesIff<P>(early: Item<P>, late: Item<P>)
    requires early.priority == late.priority && early.serial < late.serial
    ensures Less(Encode(late), Encode(early)) && !Less(Encode(early), Encode(late))
       <==> 0 < (late.serial - early.serial) % 0x1_0000_0000_0000_0000 < 0x8000_0000_0000_0000
  {
    StampDistance(early.serial, late.serial);
  }

  /** At distance exactly 2^63 each of the two packets is below the other. */
  lemma AntipodalTicketsCompareBothWays<P>(packet: P)
    ensures var a, b := QueuedPacket(packet, 0, 0), QueuedPacket(packet, 0, 0x8000_0000_0000_0000);
            Less(a, b) && Less(b, a) && Greater(a, b) && Greater(b, a)
  {}

  /** Entries that share a priority were pushed less than 2^63 pushes apart. */
  predicate WithinWindow<P>(items: seq<Item<P>>) {
    forall i, j :: 0 <= i < |items| && 0 <= j < |items| && items[i].priority == items[j].priority ==>
      2 * (items[i].serial - items[j].serial) < TICKETS
  }

  lemma OrderInWindow<P>(first: Item<P>, second: Item<P>)
    requires Precedes(first, second)
    requires first.priority == second.priority ==> 2 * (second.serial - first.serial) < TICKETS
    ensures Less(Encode(second), Encode(first)) && !Less(Encode(first), Encode(second))
    ensures Greater(Encode(first), Encode(second)) && !Greater(Encode(second), Encode(first))
    ensures LessOrEqual(Encode(second), Encode(first)) && !LessOrEqual(Encode(first), Encode(second))
    ensures GreaterOrEqual(Encode(first), Encode(second)) && !GreaterOrEqual(Encode(second), Encode(first))
    ensures !Same(Encode(first), Encode(second))
  {
    if first.priority == second.priority {
      StampDistance(first.serial, second.serial);
    }
  }

  // ---------- The stable priority list ----------

  predicate Sorted<P>(items: seq<Item<P>>) {
    forall i, j :: 0 <= i < j < |items| ==> Precedes(items[i], items[j])
  }

  /** Behind everything of the same or a higher priority, before everything lower. */
  function Insert<P>(items: seq<Item<P>>, item: Item<P>): (inserted: seq<Item<P>>)
    ensures |inserted| == |items| + 1
  {
    if items != [] && items[0].priority >= item.priority then
      [items[0]] + Insert(items[1..], item)
    else
      [item] + items
  }

  lemma {:induction false} InsertSplits<P>(items: seq<Item<P>>, item: Item<P>) returns (at: nat)
    ensures at <= |items| && Insert(items, item) == items[..at] + [item] + items[at..]
    ensures forall i :: 0 <= i < at ==> items[i].priority >= item.priority
    ensures at < |items| ==> items[at].priority < item.priority
  {
    if items != [] && items[0].priority >= item.priority {
      at := InsertSplits(items[1..], item);
      assert items == [items[0]] + items[1..];
      assert items[1..][..at] == items[1..at + 1];
      at := at + 1;
    } else {
      at := 0;
    }
  }

  lemma InsertKeepsSorted<P>(items: seq<Item<P>>, item: Item<P>)
    requires Sorted(items)
    requires forall i :: 0 <= i < |items| ==> items[i].serial < item.serial
    ensures Sorted(Insert(items, item))
  {
    var at := InsertSplits(items, item);
    forall i | at <= i < |items|
      ensures items[i].priority < item.priority
    {
      assert i > at ==> Precedes(items[at], items[i]);
    }
  }

  lemma EncodeConcat<P>(a: seq<Item<P>>, b: seq<Item<P>>)
    ensures EncodeAll(a + b) == EncodeAll(a) + EncodeAll(b)
  {}

  lemma BagOfThree<T>(a: seq<T>, x: T, b: seq<T>)
    ensures multiset(a + [x] + b) == multiset(a + b) + multiset{x}
  {}

  lemma InsertedBag<P>(items: seq<Item<P>>, item: Item<P>)
    ensures multiset(Insert(items, item)) == multiset(items) + multiset{item}
  {
    var at := InsertSplits(items, item);
    BagOfThree(items[..at], item, items[at..]);
    assert items[..at] + items[at..] == items;
  }

  lemma EncodeInsert<P>(items: seq<Item<P>>, item: Item<P>)
    ensures multiset(EncodeAll(Insert(items, item))) == multiset(EncodeAll(items)) + multiset{Encode(item)}
  {
    var at := InsertSplits(items, item);
    var before, after := items[..at], items[at..];
    EncodeConcat(before + [item], after);
    EncodeConcat(before, [item]);
    assert EncodeAll([item]) == [Encode(item)];
    EncodeConcat(before, after);
    assert before + after == items;
    BagOfThree(EncodeAll(before), Encode(item), EncodeAll(after));
  }

  // ---------- The container ----------

  /** What `std::priority_queue` promises of `top`: an element that no element exceeds. */
  predicate IsTop<P(==)>(queue: multiset<QueuedPacket<P>>, top: QueuedPacket<P>) {
    && top in queue
    && forall other :: other in queue ==> !Less(top, other)
  }

  /** The container holds exactly the listed packets, each with its ticket. */
  predicate Holds<P(==)>(queue: multiset<QueuedPacket<P>>, items: seq<Item<P>>) {
    queue == multiset(EncodeAll(items))
  }

  lemma HoldsInserted<P>(queue: multiset<QueuedPacket<P>>, items: seq<Item<P>>, item: Item<P>)
    requires Holds(queue, items)
    ensures Holds(queue + multiset{Encode(item)}, Insert(items, item))
  {
    EncodeInsert(items, item);
  }

  lemma HeadIsTop<P>(queue: multiset<QueuedPacket<P>>, items: seq<Item<P>>)
    requires Holds(queue, items) && Sorted(items) && WithinWindow(items) && items != []
    ensures IsTop(queue, Encode(items[0]))
  {
    var encoded := EncodeAll(items);
    assert encoded[0] in multiset(encoded);
    forall other | other in queue
      ensures !Less(Encode(items[0]), other)
    {
      assert other in encoded;
      var i :| 0 <= i < |encoded| && encoded[i] == other;
      if i > 0 {
        assert Precedes(items[0], items[i]);
        OrderInWindow(items[0], items[i]);
      }
    }
  }

  /** Whatever its layout, the container's top is the head of the stable list, and removing it
      leaves the tail. */
  lemma TopIsHead<P>(queue: multiset<QueuedPacket<P>>, items: seq<Item<P>>, top: QueuedPacket<P>)
    requires Holds(queue, items) && Sorted(items) && WithinWindow(items)
    requires IsTop(queue, top)
    ensures items != [] && top == Encode(items[0])
    ensures Holds(queue - multiset{top}, items[1..])
  {
    var encoded := EncodeAll(items);
    assert top in encoded;
    var i :| 0 <= i < |encoded| && encoded[i] == top;
    assert encoded[0] in multiset(encoded);
    if i > 0 {
      assert Precedes(items[0], items[i]);
      OrderInWindow(items[0], items[i]);
    }
    assert encoded == [top] + EncodeAll(items[1..]);
  }
}
