/** The send half of a UDP interface as it runs: a loop over the connections that updates their
    queues, the socket and the shared semaphore. */
module UdpSender {
  import opened Wrappers
  import opened OrderedKeys
  import opened SendProtocol

  /** A counting semaphore; each call is one critical section of its mutex. */
  class Semaphore {
    var value: nat

    constructor (initial: nat := 0)
      ensures value == initial
    {
      value := initial;
    }

    method Notify()
      modifies this
      ensures value == old(value) + 1
    {
      value := value + 1;
    }

    /** Decrements only on success. */
    method WaitFor() returns (decremented: bool)
      modifies this
      ensures decremented <==> old(value) > 0
      ensures value == TryDecrement(old(value))
    {
      decremented := value > 0;
      if decremented {
        value := value - 1;
      }
    }
  }

  class UdpInterface<!P(==)> {
    const semaphore: Semaphore
    var queues: map<nat, seq<P>>
    var sent: map<nat, seq<P>>              // what the socket has sent to each address
    ghost var pushed: map<nat, multiset<P>>

    ghost predicate Valid()
      reads this
    {
      queues.Keys == sent.Keys == pushed.Keys
    }

    /** The interface as a protocol state whose sender stands at `sender`. */
    ghost function View(sender: Sender): (s: State<P>)
      reads this, semaphore
      requires Valid()
      ensures Wired(s)
    {
      State(queues, semaphore.value, {}, sender, pushed, sent)
    }

    constructor ()
      ensures Valid() && fresh(semaphore)
      ensures View(Waiting) == Start()
    {
      semaphore := new Semaphore();
      queues, sent, pushed := map[], map[], map[];
    }

    /** `update_connections_` for an address not seen before. */
    method Connect(ip: nat)
      requires Valid()
      modifies this
      ensures Valid()
      ensures if ip in old(queues) then View(Waiting) == old(View(Waiting))
              else Next({}, old(View(Waiting)), Step.Connect(ip), View(Waiting))
    {
      if ip !in queues {
        queues, sent, pushed := queues[ip := []], sent[ip := []], pushed[ip := multiset{}];
      }
    }

    method NextPacket(ip: nat) returns (packet: Option<P>)
      requires Valid() && ip in queues
      modifies this`queues
      ensures old(queues[ip]) == [] ==> packet == None && queues == old(queues)
      ensures old(queues[ip]) != [] ==>
                packet == Some(old(queues[ip][0])) && queues == old(queues)[ip := old(queues[ip][1..])]
    {
      if queues[ip] == [] {
        return None;
      }
      packet := Some(queues[ip][0]);
      queues := queues[ip := queues[ip][1..]];
    }

    /** One call of `send_packet` is one round of the protocol. */
    method SendPacket()
      requires Valid()
      modifies this, semaphore
      ensures Valid()
      ensures View(Waiting) == Round(old(View(Waiting)))
    {
      var notFirst := false;
      var ready := semaphore.WaitFor();
      if ready {
        var cursor: int := -1;
        var next := Following(queues.Keys, cursor);
        while next.Some?
          invariant Valid() && next == Following(queues.Keys, cursor)
          invariant FinishRound(View(Draining(cursor, !notFirst))) == Round(old(View(Waiting)))
          decreases |Beyond(queues.Keys, cursor)|
        {
          ghost var before := View(Draining(cursor, !notFirst));
          BeyondShrinks(queues.Keys, cursor);
          var ip := next.value;
          notFirst := Visit(ip, notFirst, cursor);
          assert FinishRound(before) == FinishRound(View(Draining(ip, !notFirst)));
          cursor := ip;
          next := Following(queues.Keys, cursor);
        }
      }
    }

    /** The loop body: one connection's turn in the round. */
    method Visit(ip: nat, notFirst: bool, ghost cursor: int) returns (sentAny: bool)
      requires Valid() && Following(queues.Keys, cursor) == Some(ip)
      modifies this`queues, this`sent, semaphore
      ensures Valid() && queues.Keys == old(queues.Keys)
      ensures FinishRound(old(View(Draining(cursor, !notFirst)))) == FinishRound(View(Draining(ip, !sentAny)))
    {
      sentAny := notFirst;
      ghost var before := View(Draining(cursor, !notFirst));
      var packet := NextPacket(ip);
      if packet.Some? {
        sent := sent[ip := sent[ip] + [packet.value]];
        assert View(if notFirst then Paying(ip) else Draining(ip, false)) == SenderStep(before);
        sentAny := true;
        if notFirst {
          ghost var paying := View(Paying(ip));
          var _ := semaphore.WaitFor();
          assert View(Draining(ip, false)) == SenderStep(paying);
        }
      } else {
        assert View(Draining(ip, !notFirst)) == SenderStep(before);
      }
    }
  }
}
