/** The wire format as a sender writes it, after the MAVLink developer guide, page "Packet
    Serialization", and the proof that what is written is what the router reads. */
module Serialization {
  import opened Wrappers
  import opened Subnets
  import opened Framing

  /** A link ID, a timestamp and the signature proper. */
  datatype Signature = Signature(linkId: Byte, timestamp: seq<Byte>, digest: seq<Byte>)

  /** What a sender puts into a packet; version 1 has no flags and no signature. */
  datatype Fields = Fields(
    version: Version,
    incompatibility: Byte,
    compatibility: Byte,
    sequence: Byte,
    system: Byte,
    component: Byte,
    id: nat,
    payload: seq<Byte>,
    checksum: seq<Byte>,
    signature: Option<Signature>)

  predicate Fits(f: Fields) {
    && |f.payload| < 0x100 && |f.checksum| == 2
    && (f.signature.Some? ==> |f.signature.value.timestamp| == 6 && |f.signature.value.digest| == 6)
    && match f.version
       case V1 => f.id < 0x100 && f.signature == None
       case V2 => f.id < 0x100_0000 && (f.signature.Some? <==> f.incompatibility % 2 == 1)
  }

  /** The header in wire order, the message ID with its low byte first. */
  function Header(f: Fields): (h: seq<Byte>)
    requires Fits(f)
    ensures |h| == HeaderLength(f.version)
  {
    match f.version
    case V1 => [0xFE, |f.payload|, f.sequence, f.system, f.component, f.id]
    case V2 =>
      [0xFD, |f.payload|, f.incompatibility, f.compatibility, f.sequence, f.system, f.component,
       f.id % 0x100, f.id / 0x100 % 0x100, f.id / 0x1_0000]
  }

  function Trailer(signature: Option<Signature>): seq<Byte> {
    match signature
    case None => []
    case Some(s) => [s.linkId] + s.timestamp + s.digest
  }

  function Serialize(f: Fields): seq<Byte>
    requires Fits(f)
  {
    Header(f) + f.payload + f.checksum + Trailer(f.signature)
  }

  /** The packet tells what was put into it. */
  predicate Tells(p: Packet, f: Fields) {
    && p.version == f.version
    && PacketComplete(p.version, p.data)
    && MessageId(p.version, p.data) == f.id
    && Source(p) == Pack(f.system, f.component)
    && Payload(p) == f.payload
    && (IsSigned(p.version, p.data) <==> f.signature.Some?)
  }

  lemma HeaderComesFirst(f: Fields, i: nat)
    requires Fits(f) && i < HeaderLength(f.version)
    ensures Serialize(f)[i] == Header(f)[i]
  {}

  lemma LengthIsAnnounced(f: Fields)
    requires Fits(f)
    ensures PacketComplete(f.version, Serialize(f))
    ensures IsSigned(f.version, Serialize(f)) <==> f.signature.Some?
    ensures PayloadLength(f.version, Serialize(f)) == |f.payload|
  {
    HeaderComesFirst(f, 0);
    HeaderComesFirst(f, 1);
    HeaderComesFirst(f, 2);
  }

  lemma PayloadIsRead(f: Fields)
    requires Fits(f)
    ensures PacketComplete(f.version, Serialize(f)) && Payload(Packet(f.version, Serialize(f))) == f.payload
  {
    LengthIsAnnounced(f);
    var h := HeaderLength(f.version);
    assert Serialize(f) == Header(f) + (f.payload + (f.checksum + Trailer(f.signature)));
    assert Serialize(f)[h..h + |f.payload|] == f.payload;
  }

  /** Every field the router looks at is read as it was written, for both versions. */
  lemma FieldsReadBack(f: Fields)
    requires Fits(f)
    ensures Tells(Packet(f.version, Serialize(f)), f)
  {
    LengthIsAnnounced(f);
    PayloadIsRead(f);
  }

  /** What a link carries: messages behind bytes that start no packet. */
  datatype Sent = Sent(noise: seq<Byte>, fields: Fields)

  predicate Sendable(known: set<nat>, sent: seq<Sent>) {
    forall i :: 0 <= i < |sent| ==> Quiet(sent[i].noise) && Fits(sent[i].fields) && sent[i].fields.id in known
  }

  function Segments(known: set<nat>, sent: seq<Sent>): (segments: seq<Segment>)
    requires Sendable(known, sent)
    ensures |segments| == |sent|
  {
    seq(|sent|, i requires 0 <= i < |sent| =>
      Segment(sent[i].noise, Packet(sent[i].fields.version, Serialize(sent[i].fields))))
  }

  /** Any list of messages of both versions, written one after the other with noise between them, is read
      as exactly those messages. */
  lemma MessagesReadBack(known: set<nat>, sent: seq<Sent>, tail: seq<Byte>)
    requires Sendable(known, sent) && Quiet(tail)
    ensures var d := Decode(known, Wire(Segments(known, sent), tail));
            && d.partial == []
            && |Packets(d.items)| == |sent|
            && forall i :: 0 <= i < |sent| ==> Tells(Packets(d.items)[i], sent[i].fields)
  {
    var segments := Segments(known, sent);
    forall i | 0 <= i < |sent|
      ensures Quiet(segments[i].noise) && ValidPacket(known, segments[i].packet)
      ensures Tells(segments[i].packet, sent[i].fields)
    {
      FieldsReadBack(sent[i].fields);
    }
    WireRoundTrip(known, segments, tail);
  }

  /** What stands at an offset from the start of the payload: in version 1 the checksum follows at once and
      then what happens to be in memory, in version 2 zeros have been cut off. */
  function Behind(f: Fields, memory: Memory, offset: nat): Byte
    requires Fits(f)
  {
    if offset < |f.payload| then f.payload[offset]
    else if f.version.V2? then 0
    else if offset < |f.payload| + 2 then f.checksum[offset - |f.payload|]
    else memory(offset - |f.payload| - 2)
  }

  lemma ByteIsRead(f: Fields, memory: Memory, offset: nat)
    requires Fits(f)
    ensures PacketComplete(f.version, Serialize(f))
    ensures ByteAt(Packet(f.version, Serialize(f)), memory, offset) == Behind(f, memory, offset)
  {
    LengthIsAnnounced(f);
    PayloadIsRead(f);
    if f.version.V1? {
      assert Serialize(f) == Header(f) + (f.payload + f.checksum);
    } else {
      ByteFromPayload(Packet(f.version, Serialize(f)), memory, offset);
    }
  }

  /** The destination is read where the message table points to, in every packet. */
  lemma DestIsRead(f: Fields, memory: Memory, entry: Entry)
    requires Fits(f)
    ensures PacketComplete(f.version, Serialize(f))
    ensures Dest(Packet(f.version, Serialize(f)), memory, entry)
         == if entry.targetSystem.None? then None else
              Some(Pack(Behind(f, memory, entry.targetSystem.value),
                        if entry.targetComponent.Some? then Behind(f, memory, entry.targetComponent.value) else 0))
  {
    ByteIsRead(f, memory, 0);
    if entry.targetSystem.Some? { ByteIsRead(f, memory, entry.targetSystem.value); }
    if entry.targetComponent.Some? { ByteIsRead(f, memory, entry.targetComponent.value); }
  }

  predicate PointsBelow(entry: Entry, length: nat) {
    && (entry.targetSystem.Some? ==> entry.targetSystem.value < length)
    && (entry.targetComponent.Some? ==> entry.targetComponent.value < length)
  }

  /** Of a version 1 packet the bytes the table points to exist exactly when they are at most those of the
      checksum. */
  lemma InDataIff(f: Fields, entry: Entry)
    requires Fits(f) && f.version.V1?
    ensures InData(entry, Packet(V1, Serialize(f))) <==> PointsBelow(entry, |f.payload| + 2)
  {}

  ghost predicate IsDestWith(dest: Option<Address>, f: Fields, checksum: seq<Byte>, memory: Memory, entry: Entry)
    requires Fits(f) && |checksum| == 2
  {
    var data := Serialize(f.(checksum := checksum));
    PacketComplete(f.version, data) && Dest(Packet(f.version, data), memory, entry) == dest
  }

  /** The destination whatever the checksum is and whatever stands in memory. */
  ghost predicate IsDestOf(dest: Option<Address>, f: Fields, entry: Entry)
    requires Fits(f)
  {
    forall checksum: seq<Byte>, memory: Memory :: |checksum| == 2 ==>
      IsDestWith(dest, f, checksum, memory, entry)
  }

  /** A byte behind the payload can be anything. */
  lemma AnyByteBehind(f: Fields, offset: nat, b: Byte) returns (checksum: seq<Byte>, memory: Memory)
    requires Fits(f) && f.version.V1? && offset >= |f.payload|
    ensures |checksum| == 2 && Behind(f.(checksum := checksum), memory, offset) == b
  {
    checksum, memory := [b, b], _ => b;
  }

  lemma DestCanDiffer(f: Fields, entry: Entry, dest: Option<Address>)
    requires Fits(f) && f.version.V1? && entry.targetSystem.Some? && !PointsBelow(entry, |f.payload|)
    ensures !IsDestOf(dest, f, entry)
  {
    var offset :=
      if entry.targetSystem.value >= |f.payload| then entry.targetSystem.value else entry.targetComponent.value;
    var c, m := AnyByteBehind(f, offset, 0);
    var d, n := AnyByteBehind(f, offset, 1);
    DestIsRead(f.(checksum := c), m, entry);
    DestIsRead(f.(checksum := d), n, entry);
    assert !(IsDestWith(dest, f, c, m, entry) && IsDestWith(dest, f, d, n, entry));
  }

  /** The destination of a version 1 packet with a target system is one read from its payload exactly when
      the table points into the payload. */
  lemma DestFromPayloadIff(f: Fields, entry: Entry)
    requires Fits(f) && f.version.V1? && entry.targetSystem.Some?
    ensures (exists dest :: IsDestOf(dest, f, entry)) <==> PointsBelow(entry, |f.payload|)
  {
    if PointsBelow(entry, |f.payload|) {
      var dest := Some(Pack(f.payload[entry.targetSystem.value],
                            if entry.targetComponent.Some? then f.payload[entry.targetComponent.value] else 0));
      forall checksum: seq<Byte>, memory: Memory | |checksum| == 2
        ensures IsDestWith(dest, f, checksum, memory, entry)
      {
        DestIsRead(f.(checksum := checksum), memory, entry);
      }
      assert IsDestOf(dest, f, entry);
    } else {
      forall dest ensures !IsDestOf(dest, f, entry) {
        DestCanDiffer(f, entry, dest);
      }
    }
  }

  /** Nothing compares the length of a version 1 payload with the table: a packet that ends too early is
      accepted all the same, and its checksum is read as the destination, or what stands in memory behind
      the packet. */
  lemma ShortPayloadReadsOn(known: set<nat>, f: Fields, memory: Memory)
    requires Fits(f) && f.version.V1? && f.payload == [] && f.id in known
    ensures ValidPacket(known, Packet(V1, Serialize(f)))
    ensures Dest(Packet(V1, Serialize(f)), memory, Entry(Some(0), Some(1)))
         == Some(Pack(f.checksum[0], f.checksum[1]))
    ensures !InData(Entry(Some(2), Some(3)), Packet(V1, Serialize(f)))
    ensures Dest(Packet(V1, Serialize(f)), memory, Entry(Some(2), Some(3))) == Some(Pack(memory(0), memory(1)))
  {
    FieldsReadBack(f);
    DestIsRead(f, memory, Entry(Some(0), Some(1)));
    InDataIff(f, Entry(Some(2), Some(3)));
    DestIsRead(f, memory, Entry(Some(2), Some(3)));
  }
}
