/** A map of addresses whose entries expire lazily, proved against the full history of additions. */
module AddressPools {
  import opened Wrappers
  import opened OrderedKeys
  import opened Subnets

  /** An addition and the clock reading taken for it. */
  datatype Addition = Addition(address: Address, time: int)

  /** The clock reading of the last addition of an address. */
  function LastAdded(history: seq<Addition>, a: Address): Option<int> {
    if history == [] then None
    else if history[|history| - 1].address == a then Some(history[|history| - 1].time)
    else LastAdded(history[..|history| - 1], a)
  }

  /** The address was last added no longer than the timeout ago. */
  predicate Live(history: seq<Addition>, timeout: int, a: Address, now: int) {
    LastAdded(history, a).Some? && now - LastAdded(history, a).value <= timeout
  }

  /** No addition has a later time. */
  predicate NotBefore(history: seq<Addition>, time: int) {
    forall i :: 0 <= i < |history| ==> history[i].time <= time
  }

  /** Under a monotone clock "the last addition is recent" and "some addition is recent" agree. */
  lemma {:induction false} LiveIfAnyRecent(history: seq<Addition>, timeout: int, a: Address, now: int)
    requires forall i, j :: 0 <= i < j < |history| ==> history[i].time <= history[j].time
    ensures Live(history, timeout, a, now)
       <==> exists i :: 0 <= i < |history| && history[i].address == a && now - history[i].time <= timeout
  {
    if history != [] {
      var last := |history| - 1;
      LiveIfAnyRecent(history[..last], timeout, a, now);
      if history[last].address == a {
        if i :| 0 <= i < |history| && history[i].address == a && now - history[i].time <= timeout {
          assert history[i].time <= history[last].time;
        }
      } else {
        forall i | 0 <= i < |history| && history[i].address == a ensures i < last && history[..last][i] == history[i] {}
        if Live(history, timeout, a, now) {
          var i :| 0 <= i < last && history[..last][i].address == a && now - history[..last][i].time <= timeout;
          assert history[i].address == a;
        }
      }
    }
  }

  /** Strictly ascending, as a `std::map` lists its keys. */
  predicate Ascending(addresses: seq<Address>) {
    forall i, j :: 0 <= i < j < |addresses| ==> addresses[i] < addresses[j]
  }

  /** The live addresses up to `cursor` have been listed. */
  predicate Listed(found: seq<Address>, history: seq<Addition>, timeout: int, now: int, cursor: int) {
    && Ascending(found) && (forall i :: 0 <= i < |found| ==> found[i] <= cursor)
    && forall a: Address :: a in found <==> a <= cursor && Live(history, timeout, a, now)
  }

  lemma ListedStep(found: seq<Address>, history: seq<Addition>, timeout: int, now: int, cursor: int, a: Address)
    requires Listed(found, history, timeout, now, cursor) && cursor < a
    requires forall b: Address :: cursor < b < a ==> !Live(history, timeout, b, now)
    ensures Listed(if Live(history, timeout, a, now) then found + [a] else found, history, timeout, now, a)
  {
    if Live(history, timeout, a, now) {
      var longer := found + [a];
      assert forall b: Address :: b in longer <==> b in found || b == a;
    }
  }

  class AddressPool {
    const timeout: int
    var addresses: map<Address, int>
    ghost var history: seq<Addition>
    ghost var clock: int                   // no clock reading so far is later

    /** What is missing from the map has expired; what is there has the time of its last addition. */
    ghost predicate Valid()
      reads this
    {
      && NotBefore(history, clock)
      && (forall a: Address :: a in addresses ==> LastAdded(history, a) == Some(addresses[a]))
      && (forall a: Address :: a !in addresses ==> !Live(history, timeout, a, clock))
    }

    constructor (timeout: int)
      ensures Valid() && history == [] && this.timeout == timeout
    {
      this.timeout := timeout;
      addresses, history, clock := map[], [], 0;
    }

    method Add(a: Address, now: int)
      requires Valid() && (clock <= now || history == [])
      modifies this
      ensures Valid() && clock == now && history == old(history) + [Addition(a, now)]
    {
      addresses := addresses[a := now];
      history := history + [Addition(a, now)];
      clock := now;
      assert history[..|history| - 1] == old(history);
    }

    method Contains(a: Address, now: int) returns (contained: bool)
      requires Valid() && (clock <= now || history == [])
      modifies this
      ensures Valid() && clock == now && history == old(history)
      ensures contained <==> Live(history, timeout, a, now)
    {
      clock := now;
      if a !in addresses {
        return false;
      }
      if now - addresses[a] > timeout {
        addresses := addresses - {a};
        return false;
      }
      contained := true;
    }

    /** Exactly the live addresses, in order, each once. */
    method Addresses(now: int) returns (found: seq<Address>)
      requires Valid() && (clock <= now || history == [])
      modifies this
      ensures Valid() && clock == now && history == old(history)
      ensures Ascending(found)
      ensures forall a: Address :: a in found <==> Live(history, timeout, a, now)
    {
      clock := now;
      found := [];
      var cursor: int := -1;
      var next := Following(addresses.Keys, cursor);
      while next.Some?
        invariant next == Following(addresses.Keys, cursor)
        invariant Valid() && clock == now && history == old(history)
        invariant Listed(found, history, timeout, now, cursor)
        decreases |Beyond(addresses.Keys, cursor)|
      {
        var a: Address := next.value;
        BeyondShrinks(addresses.Keys, cursor);
        assert forall b: Address :: cursor < b < a ==> b !in addresses;
        ListedStep(found, history, timeout, now, cursor, a);
        var live := Expire(a, now);
        if live {
          found := found + [a];
        }
        cursor := a;
        next := Following(addresses.Keys, cursor);
      }
      assert forall b: Address :: cursor < b ==> b !in addresses;
    }

    /** Erase an entry that has expired. */
    method Expire(a: Address, now: int) returns (live: bool)
      requires Valid() && clock == now && a in addresses
      modifies `addresses
      ensures Valid() && (live <==> Live(history, timeout, a, now))
      ensures addresses.Keys == if live then old(addresses.Keys) else old(addresses.Keys) - {a}
      ensures Beyond(addresses.Keys, a) == Beyond(old(addresses.Keys), a)
    {
      live := now - addresses[a] <= timeout;
      if !live {
        addresses := addresses - {a};
      }
    }
  }
}
