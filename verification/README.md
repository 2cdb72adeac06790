# mavtables in Dafny

mavtables is a MAVLink router and firewall. Bytes arrive on serial ports and UDP sockets, are framed
into packets, put to the filter of every connection, queued there by priority, and taken out by a
sender thread. This project models that path, from bytes to bytes, and proves what the parts promise
of every input, every history and every interleaving.

`dafny verify dfyconfig.toml` checks everything. Each file holds one module.

| module | what it models |
|---|---|
| `Framing`, `Serialization`, `PacketParsers`, `Datagrams` | packet formats of both MAVLink versions, a decoder of whole streams, the wire format as a sender writes it, the byte-at-a-time parser, and UDP reception with one parser for all addresses |
| `AddressPools`, `Connections`, `FanOut`, `Router`, `ConnectionPools` | the expiring address map, the routing decision of a connection, the fan-out of received packets as a relation on histories, the interleavings of receive and sender threads over all connections, and the pool that carries it out |
| `Rules`, `GuardedChains`, `Threads` | rule chains as a function of a finite graph, the chain objects with their recursion marks, and many threads evaluating the same chains |
| `Text`, `Subnets`, `SubnetText` | decimal text, MAVLink addresses, subnets as bit masks, and their text forms |
| `RuleGrammar`, `RuleLayout`, `Translation`, `RuleText` | the configuration grammar as a parsing expression grammar, its blanks and comments, rules built from what it finds, and the printer of chains |
| `Config`, `ConfigParser` | the filter of a configuration, a direct reading of the same configuration, and `parse_filter` with its loops and objects |
| `PacketOrder`, `PacketQueues`, `PopProtocol` | the wrapping ticket order, the priority queue, and its mutex and condition variable protocol |
| `SendProtocol`, `SemaphoreProtocol`, `UdpSender` | the protocol between producers and the UDP sender, the wakeups of the semaphore they share, and the loop of `send_packet` |
| `Wrappers`, `OrderedKeys`, `Wakeups` | optional values and results; iteration over an ordered map that changes meanwhile; counting due wakeups |

How things are represented:

- Exceptions are values of `Result`. `std::invalid_argument` and `std::out_of_range` are the two
  errors of text and configuration, `RecursionError` the one of rule evaluation, and the three
  errors of packet construction have names of their own.
- A critical section of a mutex is one atomic step. Enqueue and notify are two steps; so are the
  test of a wait predicate and the wakeup that precedes it.
- The clock is a parameter: every operation that reads it takes the reading. Where an operation reads
  it several times, the readings do not decrease.
- `socket_->send` appends to a log per address. The packet callback of a queue is a counter in
  `PacketQueue` and the notify step in `SendProtocol`.
- `std::priority_queue` is its contract: a multiset whose `top` is any element that no other exceeds.
  The theorems hold for every layout the heap may have.
- Message tables (`mavlink_get_message_info`) are parameters: the set of known IDs, the names, and the
  offsets of the target fields.
- Integers have the width of the source where it matters: tickets wrap at 2^64, priorities are 32-bit,
  addresses 16-bit, and numbers read from text are checked against the type they are read into.

What the proofs say where the code and its own comments disagree; the model follows the code:

- `src/QueuedPacket.cpp:102-108` rules out ranges of tickets of (2^64 - 1)/2 or more. Distances up to
  and including 2^63 - 1 are in fact ordered correctly; at exactly 2^63 each of two packets compares
  below the other (`OrderFollowsPushesIff`, `AntipodalTicketsCompareBothWays`). The window is needed
  among packets of equal priority only.
- `src/MAVAddress.cpp:280-285` calls the string constructor and the printer inverses. Printing and
  reading back is the identity; reading and printing back is so for plain text only, not for `01.2`
  (`ReprintedIffPlain`).
- `src/MAVSubnet.cpp:156-158` announces an error for text that is no subnet. After a slash or backslash
  one more token must follow, free of separators or itself a single separator, and only the number it
  starts with counts, 0 if there is none. So `1.2/x` and `1.2//` are accepted and contain every address,
  while `1.2/8/9` is an error (`BitsTextAcceptedIff`, `SlashWithoutNumberIsAccepted`, `SecondSlash`; all
  texts: `SubnetTextAcceptedIff`).
- `src/MAVAddress.cpp:103-104` announces an error for text that is no address. A third number is ignored if
  it is too large for `unsigned int`, as in `1.2.4294967296`, and an error otherwise; a second number that
  is too large is an error (`ThirdNumberIgnoredIff`, `LargeSecondNumberFails`; all texts:
  `AddressTextAcceptedIff`).
- An empty condition is printed as `if any` (`src/If.cpp:229-233`), which the grammar does not accept;
  `ChainRoundTripIff` gives the exact condition under which a printed chain is read back.
- A recursion error of a filter is caught nowhere. It leaves `Connection::send` and `ConnectionPool::send`,
  so that the connections that come later do not get the packet (`OthersMissOut`), and then the receive
  thread, whose runner has no handler (`src/InterfaceThreader.cpp:58-64`); that ends the program. The
  configuration reader accepts filters that fail for every packet (`SelfCallAlwaysFails`). Taken at one
  instant, a fan-out completes if and only if the filter of no live connection fails for an address it is
  asked about (`FanOutFailsExactly`, `AskedAtOnce`), and always if no filter has a cycle of calls and gotos
  (`AcyclicFanOutCompletes`).
- A version 1 packet whose payload is shorter than its message table entry is accepted, and `dest()` then
  reads behind the payload: the checksum, or memory behind the packet (`ShortPayloadReadsOn`). It reads
  the payload exactly when the table points into it (`DestFromPayloadIff`), and the packet exactly when it
  points no further than the checksum (`DestIsDefinedIff`, `InDataIff`).

## Model

| member | source | states |
|---|---|---|
| `SendProtocol.StepKeepsNoLostWakeup` | src/UDPInterface.cpp:103-129 | Every step of any producer, of the sender or of a late connection keeps the invariant that accounts, by the connections already visited in the round, for each queued packet with a delivered or in-flight notification. |
| `SendProtocol.NeverSleepsOnPackets` | src/UDPInterface.cpp:103-129 | In every interleaving, whenever the sender is between rounds, semaphore value plus in-flight notifies is at least the number of queued packets; with the semaphore at zero and no notify pending every queue is empty. |
| `SendProtocol.StaleTokensBounded` | src/UDPInterface.cpp:108-127 | Between rounds the tokens beyond the queued packets are never negative and never more than the producers. |
| `SendProtocol.AtomicNotifyIsExact` | src/PacketQueue.cpp:171-183 | If every enqueue is followed at once by its notify, semaphore value and number of queued packets are equal between rounds. |
| `SendProtocol.EveryPacketAccountedFor` | src/UDPInterface.cpp:110-118 | In every run the packets of the enqueue steps on a connection are, with multiplicity, what is queued there plus what was sent there. |
| `SendProtocol.RoundEffect` | src/UDPInterface.cpp:103-129 | A call that gets past its wait sends the front packet of every non-empty connection, leaves the rest of each queue, and takes one token for the first and one for each extra packet as long as tokens last. |
| `SendProtocol.RoundIsPath` | src/UDPInterface.cpp:103-129 | A whole call is a path of the protocol: a timeout that changes nothing, even beside packets whose notify is pending, or one round of the sender's own steps. |
| `SendProtocol.RoundsDrain` | src/UDPInterface.cpp:103-129 | Left alone, n calls send the first n packets of every connection in queue order: the sender does not block while anything is queued. |
| `SendProtocol.StepKeepsFewStaleTokens` | src/semaphore.hpp:65-80 | A bound on notifications in flight is kept as a bound on surplus tokens by every step, failed zero-timeout waits included. |
| `UdpSender.Semaphore.Notify` | src/semaphore.cpp:38-43 | Increments the value; the wakeup that follows is a step of `SemaphoreProtocol`. |
| `SemaphoreProtocol.NoWaitSleepsBesideTokens` | src/semaphore.cpp:38-60 | In every interleaving of notifies, timed and untimed waits and spurious wakeups, while a wait sleeps the value is at most the pending notifications and awake waiters; with none due it is zero. |
| `SemaphoreProtocol.StepKeepsNoStrandedWait` | src/semaphore.hpp:65-104 | Every increment, wakeup, test and timeout keeps that accounting. |
| `SemaphoreProtocol.TokensConserved` | src/semaphore.cpp:38-60 | The initial value plus the increment steps is the value plus the tokens taken, whatever the interleaving. |
| `SemaphoreProtocol.WaitOutcome` | src/semaphore.hpp:65-104 | In every run a wait ends exactly by taking one token if there is one; it ends without one only if it is timed, its timeout has passed and the value is zero; before its end it takes nothing. |
| `SemaphoreProtocol.WaitGoesOn` | src/semaphore.cpp:52-60 | A wait that has not ended sleeps or is awake to test again; only a timed one expires. |
| `SemaphoreProtocol.WaitsAccountedFor` | src/semaphore.cpp:52-60 | Per thread, the waits begun are the tokens taken, the waits given up at value zero after a timeout, and the one going on. |
| `SemaphoreProtocol.StepIsLocal` | src/semaphore.cpp:38-45 | A step changes no thread but its own and one it wakes, and a notify ends its call. |
| `SemaphoreProtocol.ThreadsCanMove` | src/semaphore.hpp:65-104 | Every thread in a call has a next step, unless it sleeps without a timeout. |
| `UdpSender.Semaphore.WaitFor` | src/semaphore.hpp:65-80 | Reports success exactly when the value was positive, and decrements on success only. |
| `UdpSender.UdpInterface.SendPacket` | src/UDPInterface.cpp:103-129 | The loop over the ordered connection map turns the interface into the state after one whole round of the protocol. |
| `UdpSender.UdpInterface.Visit` | src/UDPInterface.cpp:112-127 | One connection's turn, with the zero-timeout wait for every packet after the first, leaves what the rest of the round comes to unchanged. |
| `UdpSender.UdpInterface.Connect` | src/UDPInterface.cpp:44-57 | An unseen address gets one new empty connection; a known one changes nothing. |
| `PacketOrder.OrderFollowsPushesIff` | src/QueuedPacket.cpp:116-121 | Two packets of one priority compare in push order exactly when their push distance modulo 2^64 is between 1 and 2^63 - 1. |
| `PacketOrder.AntipodalTicketsCompareBothWays` | src/QueuedPacket.cpp:143-148 | At distance 2^63 each of the two is below, and above, the other. |
| `PacketOrder.OrderInWindow` | src/QueuedPacket.cpp:71-176 | Inside the window all five wrapped comparisons agree with priority first and push order second, are asymmetric, and never call two packets equal. |
| `PacketOrder.HeadIsTop` | src/PacketQueue.cpp:41-46 | Inside the window the head of the stable list is a legitimate top of the container. |
| `PacketOrder.TopIsHead` | src/PacketQueue.cpp:39-49 | Inside the window whatever the container offers as top is the head of the stable list, and removing it leaves the tail. |
| `PacketOrder.InsertKeepsSorted` | src/PacketQueue.cpp:172-176 | A push of the latest packet keeps the list in leaving order. |
| `PacketQueues.NothingLostOrDuplicated` | src/PacketQueue.cpp:164-184 | Over any history of pushes, pops and closes the pushed packets are, with multiplicity, those waiting plus those popped. |
| `PacketQueues.PopTakesBest` | src/PacketQueue.cpp:39-49 | After any history a pop takes a pushed packet that precedes every other one waiting: highest priority, then earliest push; it takes nothing exactly when nothing waits or the queue is closed. |
| `PacketQueues.RunningUntilClosed` | src/PacketQueue.cpp:70-77 | After any history the queue is running exactly if it has not been closed. |
| `PacketQueues.PacketQueue.Push` | src/PacketQueue.cpp:164-184 | A missing packet is an invalid argument and changes nothing; any other is inserted into the stable list behind its equals, ticketed, and signalled once. |
| `PacketQueues.PacketQueue.GetPacket` | src/PacketQueue.cpp:39-49 | Removes and returns the head of the stable list of the whole history, or nothing when closed or empty. |
| `PacketQueues.PacketQueue.Close` | src/PacketQueue.cpp:70-77 | Stops the queue and keeps what waits. |
| `PacketQueues.PacketQueue.Empty` | src/PacketQueue.cpp:87-91 | True exactly when no packet of the history waits. |
| `PopProtocol.StepKeepsNoStrandedPop` | src/PacketQueue.cpp:105-148 | Every push, notify, close, wakeup, timeout and test keeps the accounting of queued packets against due wakeups. |
| `PopProtocol.SleepersAreCovered` | src/PacketQueue.cpp:70-77 | While a pop sleeps, the queue is no longer than the pending notifies and woken waiters together, and on a closed queue a notify-all is pending. |
| `PopProtocol.NoPopSleepsBesideWork` | src/PacketQueue.cpp:164-184 | With nothing pending, a pop can be asleep only on a running and empty queue. |
| `PopProtocol.PopsConservePackets` | src/PacketQueue.cpp:105-148 | In every interleaving the packets of the push steps are what is queued plus what pops have returned. |
| `PopProtocol.TestOutcome` | src/PacketQueue.cpp:105-148 | In every run a pop that looks at a running queue with packets ends with one; on a closed queue it ends without; on an empty one it sleeps unless it does not wait or its time is up; no other step returns anything. |
| `PopProtocol.PopOutcome` | src/PacketQueue.cpp:105-148 | From its beginning to its end a pop takes nothing before its last step, and ends without a packet only on a closed queue, or on an empty one and then it is not blocking, and a timed one only after its timeout. |
| `PopProtocol.PopGoesOn` | src/PacketQueue.cpp:105-148 | A pop that has not ended sleeps or is awake to look again; only a timed one expires; a non-blocking one never gets there. |
| `PopProtocol.RunningUntilClosed` | src/PacketQueue.cpp:70-77 | The queue runs exactly until the first close step. |
| `PopProtocol.NothingAfterClose` | src/PacketQueue.cpp:39-49 | Once the queue is closed nothing is returned any more. |
| `PopProtocol.StepIsLocal` | src/PacketQueue.cpp:70-77 | A step changes no thread but its own and those it wakes, one or on a close all, and a notify ends its call. |
| `PopProtocol.ThreadsCanMove` | src/PacketQueue.cpp:105-148 | Inside the ticket window every thread in a call has a next step, unless it sleeps without a timeout. |
| `PopProtocol.ConcurrentPopsTakeBest` | src/PacketQueue.cpp:105-148 | In every interleaving a pop that returns a packet removes from the container, which compares wrapped tickets, the packet that precedes all others in it at that instant, if it is inside the ticket window. |
| `PopProtocol.TopExists` | src/PacketQueue.cpp:39-49 | Inside the window a container that is not empty has a top. |
| `Rules.ChainIsFirstMatch` | src/Chain.cpp:90-109 | On every finite graph, cyclic or not, evaluating a chain equals the first leaf, in the full inlining of calls and gotos, whose guards all match. |
| `Rules.RuleIsFirstMatch` | src/Call.cpp:121-139 | The same for one rule: a call hands on what its chain decides and resumes on continue. |
| `Rules.GoToIsFirstMatch` | src/GoTo.cpp:120-144 | A goto is its chain's leaves followed by one default leaf under its own condition. |
| `Rules.FirstMatchUnder` | src/Action.cpp:62-88 | A call or goto lends its priority to exactly those accepts below it that have none: innermost wins. |
| `Rules.RecursionErrorExactly` | src/RecursionGuard.cpp:35-47 | Evaluation fails exactly when the first matching leaf is a walk along calls and gotos that re-enters a chain on its own path. |
| `Rules.RecursionIsReentry` | src/RecursionGuard.cpp:35-47 | Every recursion leaf is a real cycle of the rule graph. |
| `Rules.AcyclicNeverRecurses` | src/Chain.cpp:78-88 | Without a cycle no packet and address lead to a recursion error. |
| `Rules.FilterIsFirstMatch` | src/Filter.cpp:53-72 | A filter decides as the first matching leaf does, with the leaf's priority or else the nearest enclosing one, else 0, and the default action otherwise; on acyclic graphs it always decides. |
| `GuardedChains.RecursionData.Enter` | src/RecursionGuard.cpp:35-47 | Refuses exactly a marked thread; afterwards the thread is marked. |
| `GuardedChains.RecursionData.Leave` | src/RecursionGuard.cpp:52-56 | Removes the mark of that thread only. |
| `GuardedChains.Chain.Append` | src/Chain.cpp:116-119 | The rule comes last. |
| `GuardedChains.ChainAction` | src/Chain.cpp:90-109 | On chain objects with live marks, evaluation terminates, equals the function of the graph, and leaves every mark as it was on normal and on error exit. |
| `GuardedChains.RunRules` | src/Chain.cpp:97-108 | The loop returns the first result that is not continue. |
| `GuardedChains.RuleAction` | src/GoTo.cpp:120-144 | Each kind of rule gives the value of the rule in the graph and leaves every mark as it was. |
| `GuardedChains.WillAcceptOn` | src/Filter.cpp:53-72 | The decision on live chains equals the decision read off the inlined rules, and all marks are gone afterwards. |
| `Threads.ThreadsDoNotInterfere` | src/Chain.cpp:90-109 | In every interleaving of any number of threads on shared chains, a finished thread has the action, priority or recursion error it would have had alone. |
| `Threads.MarksFollowStacks` | src/RecursionGuard.cpp:35-56 | In every reachable state a chain is marked by a thread exactly when it is on that thread's own stack; a finished thread has left no mark. |
| `Threads.StepKeepsMarks` | src/RecursionGuard.cpp:35-56 | Entering, looping, returning and leaving keep marks and stacks in agreement. |
| `Threads.StepKeepsInvariant` | src/Chain.cpp:90-109 | Every step keeps, for every thread, the result it is bound to end with. |
| `Threads.ThreadsCanMove` | src/Chain.cpp:90-109 | A thread with an unfinished evaluation always has a next step: no thread waits for another. |
| `Threads.BeginSteps` | src/Filter.cpp:53-72 | A thread that is given a job evaluates that job, with the step bound of its entry chain. |
| `Threads.MoveProgresses` | src/Chain.cpp:90-109 | Every step of a thread lowers the bound on its remaining steps, whatever the other threads do. |
| `Threads.EvaluationsEnd` | src/Chain.cpp:90-109 | In every interleaving a thread takes no more steps for one evaluation than a bound given by the chain it starts with. |
| `Framing.ConstructExactly` | src/PacketVersion2.cpp:41-104 | The constructors of both versions accept exactly complete packets of their version with a known ID; a wrong start byte comes before an unknown ID, and that before a wrong length. |
| `Framing.TrimmedPayloadKeepsDest` | src/PacketVersion2.cpp:155-213 | Two version 2 packets whose payloads differ in trailing zeros only have the same destination. |
| `Framing.DestIsDefinedIff` | src/PacketVersion1.cpp:146-180 | The destination of a packet with a target system is independent of the memory behind the packet always in version 2, and in version 1 exactly when the table points into the packet. |
| `Framing.DecodePartitions` | src/PacketParser.cpp:73-212 | Every stream is exactly its skipped noise, emitted packets and discarded unknown frames in order, followed by one partial packet; emitted packets are complete and known, discarded ones complete and unknown. |
| `Framing.DecodeResumes` | src/PacketParser.cpp:73-92 | Decoding can stop after any byte and go on from the partial packet with the same result. |
| `Framing.DecodePacket` | src/PacketVersion1.cpp:218-228 | A complete packet at the front is cut off at its announced length, whatever follows. |
| `Framing.WireRoundTrip` | src/PacketParser.cpp:102-212 | Any list of complete known packets of either version, signed or not, separated by bytes that start no packet, is decoded to exactly that list. |
| `Serialization.FieldsReadBack` | src/mavlink.hpp:56-81 | A packet written field by field in the wire format of either version, down to the link ID, six timestamp bytes and six bytes of a signature, is complete, and its ID, source, payload and signed bit are read as they were written. |
| `Serialization.DestIsRead` | src/PacketVersion1.cpp:146-180 | The destination of any packet is what stands at the table's offsets: payload, then checksum, then memory in version 1, payload and then zeros in version 2; none without a target system. |
| `Serialization.InDataIff` | src/PacketVersion1.cpp:155-170 | The table points into a version 1 packet exactly when its offsets are below payload plus checksum. |
| `Serialization.DestFromPayloadIff` | src/PacketVersion1.cpp:146-180 | The destination of a version 1 packet is the same whatever checksum and memory follow the payload exactly when both offsets are below the length of the payload. |
| `Serialization.ShortPayloadReadsOn` | src/PacketVersion1.cpp:146-180 | A version 1 packet with an empty payload is valid; its checksum is read as the destination, or two bytes of memory behind it, as the table says. |
| `Serialization.MessagesReadBack` | src/PacketParser.cpp:102-212 | Any list of messages of both versions written one after the other, with bytes between them that start no packet, is read as exactly those messages. |
| `PacketParsers.OneMoreByte` | src/PacketParser.cpp:73-92 | One more byte is skipped, kept, or ends a frame, in terms of the stream so far. |
| `PacketParsers.PacketParser.ParseByte` | src/PacketParser.cpp:73-92 | After any bytes the packets returned are those of the stream decoder; the buffer is its partial packet; while a packet is awaited, buffered plus remaining bytes are the announced length and some remain; only the unknown-ID error can arise, and it is caught. |
| `PacketParsers.PacketParser.WaitingForStartByteStep` | src/PacketParser.cpp:102-118 | Either start byte opens a packet of its version; any other byte changes nothing. |
| `PacketParsers.PacketParser.WaitingForHeaderStep` | src/PacketParser.cpp:128-165 | A complete header fixes the remaining length from payload, checksum and signature. |
| `PacketParsers.PacketParser.WaitingForPacketStep` | src/PacketParser.cpp:177-212 | The last byte yields the packet if its ID is known and resets the parser either way. |
| `PacketParsers.PacketParser.Clear` | src/PacketParser.cpp:54-61 | Forgets the partial packet. |
| `PacketParsers.PacketParser.BytesParsed` | src/PacketParser.cpp:44-47 | The length of the partial packet of the stream. |
| `Datagrams.GroupsAreMaximalRuns` | src/UDPInterface.cpp:142-151 | The pieces between parser resets are the maximal runs of consecutive non-empty datagrams of one address. |
| `Datagrams.GroupsLoseNothing` | src/UDPInterface.cpp:142-151 | Joined, those runs are all bytes received, in order. |
| `Datagrams.EveryPacketArrives` | src/UDPInterface.cpp:153-166 | Every packet of every run is passed on, behind those of the earlier runs and the earlier ones of its own, and nothing else is. |
| `Datagrams.PacketsAreSlices` | src/PacketParser.cpp:177-212 | Every decoded packet is a contiguous piece of its stream. |
| `Datagrams.SourcePurity` | src/UDPInterface.cpp:138-167 | Every packet passed on consists of consecutive bytes of one such run, from the address it is attributed to. |
| `Datagrams.UdpReceiver.ReceivePacket` | src/UDPInterface.cpp:138-167 | After any run of datagrams the packets passed on are exactly those of the runs decoded one by one, in order, each attributed to the one connection of its address, which is never replaced. |
| `Datagrams.UdpReceiver.Turn` | src/UDPInterface.cpp:142-151 | A changed address clears the parser, an unchanged one continues the run. |
| `Datagrams.UdpReceiver.UpdateConnections` | src/UDPInterface.cpp:44-57 | The connection of an address is made once. |
| `Datagrams.UdpReceiver.Route` | src/UDPInterface.cpp:157-164 | The packet is attributed to the connection stored for its address, connections stay distinct. |
| `AddressPools.LiveIfAnyRecent` | src/AddressPool.hpp:77-81 | Under a monotone clock, the last addition is recent exactly when some addition is. |
| `AddressPools.AddressPool.Add` | src/AddressPool.hpp:77-81 | Appends to the history and restarts the timeout. |
| `AddressPools.AddressPool.Contains` | src/AddressPool.hpp:129-148 | True exactly when the last addition in the whole history is at most the timeout ago, whatever has been erased before. |
| `AddressPools.AddressPool.Addresses` | src/AddressPool.hpp:93-117 | Lists exactly those addresses in ascending order, each once, while erasing the others. |
| `Connections.QueuedExactlyWhen` | src/Connection.cpp:327-358 | Unless the filter fails: nothing where the source is live, otherwise one copy exactly when an address the filter is asked about is accepted, at the highest priority one is accepted with. |
| `Connections.AskedAtOnce` | src/Connection.cpp:343-357 | Those addresses are the live ones without a destination, for system 0 component 0, and on a mirror; the live ones of the system for component 0; and otherwise the original destination, if its system is live. Without a mirror a destination other than 0.0 is put to addresses of its system only. |
| `Connections.RoutesFailExactly` | src/Connection.cpp:327-358 | The decision is an error exactly when the source is not live and the filter fails for one of those addresses. |
| `Connections.RoutingIsDetermined` | src/Connection.cpp:327-358 | The routing relation allows one outcome only. |
| `Connections.SomeRouting` | src/Connection.cpp:327-358 | It allows one outcome for every packet and all readings of the address pool. |
| `Connections.Connection.Send` | src/Connection.cpp:327-358 | With up to three clock readings, queues at most one copy, at the priority the routing relation gives; a recursion error queues nothing. |
| `Connections.Connection.SendToEach` | src/Connection.cpp:141-221 | The loops keep the highest priority accepted among the targets, negative priorities included. |
| `Connections.Connection.SendToAddress` | src/Connection.cpp:79-128 | Queues at the priority of the original destination if it or a component of its system is live and it is accepted. |
| `Connections.Connection.AddAddress` | src/Connection.cpp:281-289 | Records the address with the clock reading. |
| `Connections.Connection.NextPacket` | src/Connection.cpp:303-307 | The packet that is to leave the queue next, if any waits and the queue is open; the queue's history gains a pop. |
| `FanOut.NoEcho` | src/Connection.cpp:335-339 | A connection to which the source was added no longer than the timeout before the first clock reading, or at any time since, queues nothing. |
| `FanOut.FanOutFailsExactly` | src/ConnectionPool.cpp:86-102 | A fan-out ends early only if the filter of a live connection fails for an address it is asked about, and completes only if none does at its turn; at one instant it completes if and only if none does. |
| `FanOut.AcyclicFanOutCompletes` | src/ConnectionPool.cpp:86-102 | If no filter has a cycle, every fan-out completes and every live connection deals with the packet. |
| `FanOut.OthersMissOut` | src/ConnectionPool.cpp:92-95 | A connection with a failing filter can leave one that accepts everything without the packet, and no fan-out to both completes. |
| `FanOut.OneReceive` | src/UDPInterface.cpp:155-164 | A receive puts at most one copy on any live member of the pool and nothing elsewhere, completed or not; and nothing on the connection of arrival if routing ends within the timeout. |
| `Router.RunNeverEchoes` | src/SerialInterface.cpp:70-105 | In every interleaving of any number of receive threads and senders, with connections joining and leaving, the calls on a queue are, event by event, its senders' pops and single copies of packets being routed to it; none where the packet arrived while the timeout has not passed since. |
| `Router.NeverTwice` | src/ConnectionPool.cpp:89-102 | In every such run no packet is put to a connection twice. |
| `Router.AcyclicRunNeverFails` | src/ConnectionPool.cpp:86-102 | In a run with filters without cycles no routing decision is an error. |
| `Router.AcyclicRunGoesOn` | src/ConnectionPool.cpp:86-102 | After any run with filters without cycles every received packet can at any time be put to any member it has not been put to, which continues the run without an error. |
| `Router.ReceiveLeads` | src/UDPInterface.cpp:155-164 | A whole receive without interference, completed or ended by an error, is a path of such events: the arrival, one visit for each connection reached, all live members if completed, and the dead leaving. |
| `ConnectionPools.ConnectionPool.Send` | src/ConnectionPool.cpp:86-102 | The outcome is a fan-out to the live members: all of them reached, or an error that the routing decision of one of them is; everything else is unchanged. The dead are gone after a completed one, and without cycles it completes. |
| `ConnectionPools.ConnectionPool.SendAll` | src/ConnectionPool.cpp:89-102 | The loop, in any order of the connections, has that outcome. |
| `ConnectionPools.ConnectionPool.Visit` | src/ConnectionPool.cpp:92-96 | One turn of the loop: the connection deals with the packet, or its error ends the fan-out. |
| `ConnectionPools.ConnectionPool.Receive` | src/SerialInterface.cpp:95-102 | Adding the source and fanning out is one receive of the relation on histories, however long it takes, and leaves the pool ready for the next; without cycles it completes. |
| `ConnectionPools.ConnectionPool.Arrive` | src/UDPInterface.cpp:155-161 | Adding the source to the connection of arrival is the arrival event of a run. |
| `ConnectionPools.ConnectionPool.Turn` | src/ConnectionPool.cpp:92-96 | Sending a received packet on one connection, whatever other threads do before and after, is a visit event of a run, with the decision it returns. |
| `ConnectionPools.ConnectionPool.Take` | src/UDPInterface.cpp:110-118 | A sender's call for the next packet is the taking event of a run, and returns the head of the queue. |
| `ConnectionPools.ConnectionPool.Add` | src/ConnectionPool.cpp:35-39 | Adds one connection: the joining event of a run. |
| `ConnectionPools.ConnectionPool.Remove` | src/ConnectionPool.cpp:46-50 | Removes one connection: the leaving event of a run. |
| `Text.DigitsReadBack` | src/MAVAddress.cpp:128-136 | Reading the decimal digits of a number gives the number. |
| `Text.DecimalIsReprinted` | src/MAVAddress.cpp:292-296 | Digits without superfluous zeros are printed again as they were read. |
| `Subnets.AddressRoundTrip` | src/MAVAddress.cpp:108-143 | Reading a printed address gives the address, for all 65536. |
| `Subnets.AddressTextAcceptedIff` | src/MAVAddress.cpp:108-143 | Text is an address exactly when it consists of digits and dots between digits and holds two numbers up to 255, possibly with a third one beyond `unsigned int` behind them; the value is the first two. It is out of range exactly when it has that form but for a larger number. |
| `Subnets.LargestAddress` | src/MAVAddress.cpp:108-143 | `255.255` is 0xFFFF and `255.256` is out of range. |
| `Subnets.ThirdNumberIgnoredIff` | src/MAVAddress.cpp:131-140 | Behind a printed address a third number is ignored from 2^32 on and an error below. |
| `Subnets.LargeSecondNumberFails` | src/MAVAddress.cpp:131-140 | A second number from 2^32 on is an invalid argument. |
| `Subnets.ReprintedIffPlain` | src/MAVAddress.cpp:280-296 | An accepted text is printed again as it was read exactly when it is two decimal numbers without superfluous zeros and one dot. |
| `Subnets.LeadingZeroIsLost` | src/MAVAddress.cpp:280-296 | `01.2` is accepted and not printed again. |
| `Subnets.Construct` | src/MAVAddress.cpp:58-76 | Fails exactly when a number exceeds 255; otherwise the two halves are the two numbers. |
| `Subnets.SlashMask` | src/MAVSubnet.cpp:225 | The shifted and cut mask has exactly the highest n of 16 bits set. |
| `Subnets.BackslashMask` | src/MAVSubnet.cpp:239 | The shifted and cut mask has exactly the highest n bits of the component set. |
| `Subnets.ContainsIffMaskedBitsAgree` | src/MAVSubnet.cpp:250-253 | An address is contained exactly when it agrees with the subnet on every bit of the mask. |
| `Subnets.SlashMeaning` | src/MAVSubnet.cpp:214-253 | `/n` contains exactly the addresses with the same quotient by 2^(16-n). |
| `Subnets.BackslashMeaning` | src/MAVSubnet.cpp:228-253 | `\n` contains exactly the addresses whose components have the same quotient by 2^(8-n). |
| `Subnets.WholeNumbers` | src/MAVSubnet.cpp:214-253 | `/8` is about the system alone, `\8` about the component alone, `/16` about both. |
| `SubnetText.SubnetRoundTrip` | src/MAVSubnet.cpp:311-397 | Reading a printed subnet gives the same address and mask, for all 2^32. |
| `SubnetText.SlashForm` | src/MAVSubnet.cpp:311-397 | A mask of the n highest bits is printed as `/n`, and one of all bits as the bare address. |
| `SubnetText.BackslashForm` | src/MAVSubnet.cpp:311-397 | A mask of the n highest bits of the component is printed as `\n`, for n from 1 to 8. |
| `SubnetText.OtherForm` | src/MAVSubnet.cpp:311-397 | Every other mask is printed as an address behind a colon. |
| `SubnetText.IntIsRead` | src/MAVSubnet.cpp:216 | A number is read up to the first character that is no digit, behind blanks and one sign of either kind. |
| `SubnetText.SubnetTextAcceptedIff` | src/MAVSubnet.cpp:161-242 | For every text: it is accepted exactly when it is an address, or an address, a separator and one more token, without separators or itself one, that is an address behind a colon and starts with a number in range otherwise; and it gives that address and mask. |
| `SubnetText.SubnetTextOutOfRangeIff` | src/MAVSubnet.cpp:161-242 | The error is out of range exactly when the text splits into three tokens of which one is out of range, so never for an address alone. |
| `SubnetText.BitsTextAcceptedIff` | src/MAVSubnet.cpp:187-240 | Whatever follows a slash or backslash: the text is accepted exactly when what stands before it is an address, what follows is one token, and the number it starts with, 0 if there is none, is in range. |
| `SubnetText.SecondSlash` | src/MAVSubnet.cpp:187-226 | Behind any address text `//` is accepted, and an error as soon as anything follows. |
| `SubnetText.SlashWithoutNumberIsAccepted` | src/MAVSubnet.cpp:214-253 | Behind any address text `/x` is accepted, and the subnet contains every address. |
| `Translation.IdOf` | src/mavlink.cpp:57-70 | Finds the message of that name exactly when there is one. |
| `RuleLayout.LayoutDoesNotMatter` | src/config_grammar.hpp:88-94 | In any text, printed or not, a blank outside comments can be replaced by any blanks and lines of comment that start with a blank: what is read, or that it is an error, stays the same. |
| `RuleLayout.CommentsDoNotMatter` | src/config_grammar.hpp:88-94 | So a comment behind any blank, up to the end of its line, changes nothing. |
| `RuleText.SubnetMatches` | src/config_grammar.hpp:131-136 | The grammar matches a printed subnet completely and nothing behind it. |
| `RuleText.ConditionParsed` | src/config_grammar.hpp:193-210 | A printed condition is read as its own texts; an empty one is an error, a missing one is none. |
| `RuleText.PriorityParsed` | src/config_grammar.hpp:213-218 | A printed priority, negative or not, is read as its own text. |
| `RuleText.RuleParsed` | src/config_grammar.hpp:238-240 | A printed rule is read as its action, priority and condition up to its semicolon. |
| `RuleText.RulesParsed` | src/config_grammar.hpp:115-119 | The lines of a printed chain are read as its rules in order up to the closing brace, or fail if one has an empty condition. |
| `RuleText.RulesRebuilt` | src/ConfigParser.cpp:176-207 | The rules built from those nodes are the rules that were printed, or an error if one has a target that is the default chain or no chain. |
| `RuleText.ChainRoundTripIff` | src/Chain.cpp:225-236 | A printed chain, with anything behind it, is read back as the same name and rules exactly when no condition is empty and every target is a chain other than the default one; the grammar rejects it exactly when a condition is empty. |
| `RuleText.EmptyConditionIsNotReadBack` | src/If.cpp:224-233 | A chain holding `accept if any;` is rejected. |
| `Config.TranslationKeepsMeaning` | src/ConfigParser.cpp:250-282 | The filter built from a configuration decides every packet and address as a direct reading that looks names up in the file each time. |
| `Config.TranslationFailsExactly` | src/ConfigParser.cpp:92-207 | There is a filter exactly when no rule has a priority out of range, an unknown message, unreadable subnet text, or a target that is the default chain or no block of the file; the place of the target in the file does not matter. |
| `Config.FirstBadRuleIsReported` | src/ConfigParser.cpp:250-282 | Otherwise the error is that of the bad rule that comes first in the file. |
| `Config.RulesInPlace` | src/ConfigParser.cpp:182-206 | A chain of the filter has as many rules as all blocks of its name together, and rule i of block k stands behind those of the earlier blocks and the earlier ones of its own. |
| `Config.TargetsAreNamedChains` | src/ConfigParser.cpp:116-163 | No rule of the filter targets the default chain, and every target is a block of the file. |
| `Config.LastDefaultWins` | src/ConfigParser.cpp:273-278 | Of several default actions the last one counts. |
| `Config.NoDefaultRejects` | src/ConfigParser.cpp:253 | Without a default action the filter rejects by default. |
| `Config.RuleNodesConcat` | src/ConfigParser.cpp:256-272 | Blocks of one name in two parts of a file are concatenated in file order. |
| `Config.FilterIsValid` | src/ConfigParser.cpp:250-282 | Every target of the filter is one of its chains. |
| `Config.SelfCallAlwaysFails` | src/ConfigParser.cpp:250-282 | `chain default { call a; } chain a { call a; }` gives a filter that ends in a recursion error for every packet and address. |
| `ConfigParser.InitChains` | src/ConfigParser.cpp:54-73 | One new, empty, unmarked chain object for every name but `default`, different names being different objects. |
| `ConfigParser.ParseChain` | src/ConfigParser.cpp:176-207 | Appends the rules of one block in order, or reports the first that cannot be built. |
| `ConfigParser.ParseFilter` | src/ConfigParser.cpp:250-282 | The chain objects filled block by block hold exactly the chains of the translated filter, unmarked and closed under calls and gotos, with the last default action; or the error met first in file order. |

## Left out

- Sockets, serial ports, polling, DNS, `IPAddress`, options, logging, start and stop of threads: system calls and plumbing. IP addresses are numbers in map order.
- The bitrate limiter of the UDP socket: the clock is read before the sleep, so a plain bound on the rate does not hold.
- Checksums and signatures: the code never checks them, and nothing is claimed about them.
- What lies in memory behind a packet: where version 1 `dest` reads outside its buffer, `Framing.Dest` takes the bytes found there as a parameter; a crash is not modelled.
- Blocks other than `chain` and `default_action` in the grammar, and the printing of the syntax tree: they do not reach the filter. The top level of a file is taken as a list of nodes.
- Chain names with blanks, which the constructor of `Chain` rejects: names come from the grammar, where they are identifiers.
- Null pointers, except in `PacketQueue.Push`: a Dafny reference is never null.
- `clone`, `operator==` and the copy of chains: chains are values in `Rules`, where equality is built in.
- The race between the receive and transmit threads on `connections_`, and the erasure under a shared lock in `ConnectionPool::send`: every change of the two collections is a single step.
- SubnetText.SubnetTextAcceptedIff: a number of bits of blanks only leaves a variable of the code uninitialised, which is taken as 0; one beyond `int` is read without a bound, which is out of range all the same.
- Timed waits: how long a wait may last is not modelled, only that it may end without success.
- PopProtocol.ConcurrentPopsTakeBest: assumes the ticket window, because outside it the code's order is no order.
- PacketQueues.PacketQueue.GetPacket: requires the packets waiting to be inside the ticket window, as `std::priority_queue` requires an order and `src/QueuedPacket.cpp:102-108` asks for; outside it the code's order is no order.
- PacketQueues.PacketQueue.Close: does not state the `notify_all`, which is a step of `PopProtocol`.
- UdpSender.Semaphore.Notify: does not state the `notify_one`, which is a step of `SemaphoreProtocol`.
- UdpSender.UdpInterface.Connect: makes the connection; adding the MAVLink address to it and registering it with the pool are in `ConnectionPools` (`Arrive`, `Add`).
- Datagrams.UdpReceiver.UpdateConnections: makes the connection; the same two steps are in `ConnectionPools`.
- Connections.Connection.Send: evaluates the filter as a function; `GuardedChains.WillAcceptOn` shows that the evaluation on shared chain objects gives that function's value.
- ConnectionPools.ConnectionPool.Send: connections are alive or dead for the whole call; one that expires during the call counts as either. Calls that overlap are runs of `Router`.
- Router.RunNeverEchoes: the clock readings of one connection's routing decision are one event, so that an address another thread adds between them is not seen.
- Datagrams.UdpReceiver.ReceivePacket: stops where the packet is passed to the connection pool; what the pool does with it is in `ConnectionPools`, and an error thrown there, which ends the program, does not return here.
- UdpSender.UdpInterface.SendPacket: runs without interference; the interleavings with producers are in `SendProtocol`.
