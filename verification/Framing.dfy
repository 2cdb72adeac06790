/** MAVLink framing: headers and lengths of version 1 and 2 packets, and the decoding of a whole byte
    stream. The layouts are those of the MAVLink developer guide, page "Packet Serialization",
    sections "MAVLink 1 Packet Format" and "MAVLink 2 Packet Format". */
module Framing {
  import opened Wrappers
  import opened Subnets

  type Byte = b: nat | b < 0x100 witness 0

  datatype Version = V1 | V2

  const CHECKSUM_LENGTH: nat := 2
  const SIGNATURE_LENGTH: nat := 13

  function StartByte(v: Version): Byte {
    if v.V1? then 0xFE else 0xFD
  }

  function HeaderLength(v: Version): nat {
    if v.V1? then 6 else 10
  }

  predicate HeaderComplete(v: Version, data: seq<Byte>) {
    |data| >= HeaderLength(v) && data[0] == StartByte(v)
  }

  /** The signed bit of the incompatibility flags; version 1 packets have none. */
  predicate IsSigned(v: Version, data: seq<Byte>)
    requires HeaderComplete(v, data)
  {
    v.V2? && data[2] % 2 == 1
  }

  function PayloadLength(v: Version, data: seq<Byte>): nat
    requires HeaderComplete(v, data)
  {
    data[1]
  }

  /** The length of the whole packet as its header announces it. */
  function AnnouncedLength(v: Version, data: seq<Byte>): (n: nat)
    requires HeaderComplete(v, data)
    ensures n > HeaderLength(v)
  {
    HeaderLength(v) + PayloadLength(v, data) + CHECKSUM_LENGTH
      + if IsSigned(v, data) then SIGNATURE_LENGTH else 0
  }

  predicate PacketComplete(v: Version, data: seq<Byte>) {
    HeaderComplete(v, data) && |data| == AnnouncedLength(v, data)
  }

  function MessageId(v: Version, data: seq<Byte>): nat
    requires HeaderComplete(v, data)
  {
    if v.V1? then data[5] else
      var low: nat, middle: nat, high: nat := data[7], data[8], data[9];
      low + 0x100 * middle + 0x1_0000 * high
  }

  // ---------- Packets ----------

  datatype Packet = Packet(version: Version, data: seq<Byte>)

  datatype PacketError = BadStartByte | LengthError | InvalidPacketId

  /** The packet constructors, given the IDs of the message table. */
  function Construct(known: set<nat>, v: Version, data: seq<Byte>): Result<Packet, PacketError> {
    if data == [] then Err(LengthError)
    else if !HeaderComplete(v, data) then
      Err(if data[0] != StartByte(v) then BadStartByte else LengthError)
    else if MessageId(v, data) !in known then Err(InvalidPacketId)
    else if !PacketComplete(v, data) then Err(LengthError)
    else Ok(Packet(v, data))
  }

  predicate ValidPacket(known: set<nat>, p: Packet) {
    PacketComplete(p.version, p.data) && MessageId(p.version, p.data) in known
  }

  /** Exactly the complete packets with a known ID can be constructed. A wrong start byte is found first, then
      an unknown ID, even if the length is wrong as well, and then a wrong length. */
  lemma ConstructExactly(known: set<nat>, v: Version, data: seq<Byte>)
    ensures Construct(known, v, data).Ok? <==> ValidPacket(known, Packet(v, data))
    ensures Construct(known, v, data).Ok? ==> Construct(known, v, data).value == Packet(v, data)
    ensures Construct(known, v, data).Err? ==>
              var error := Construct(known, v, data).error;
              && (error == BadStartByte <==> data != [] && data[0] != StartByte(v))
              && (error == InvalidPacketId <==> HeaderComplete(v, data) && MessageId(v, data) !in known)
  {}

  function Source(p: Packet): Address
    requires HeaderComplete(p.version, p.data)
  {
    if p.version.V1? then Pack(p.data[3], p.data[4]) else Pack(p.data[5], p.data[6])
  }

  /** Where the message table says the target system and component are within the payload. */
  datatype Entry = Entry(targetSystem: Option<nat>, targetComponent: Option<nat>)

  /** A byte of a version 2 payload, whose trailing zeros may have been cut off. */
  function PayloadByte(payload: seq<Byte>, offset: nat): Byte {
    if offset < |payload| then payload[offset] else 0
  }

  function Payload(p: Packet): seq<Byte>
    requires PacketComplete(p.version, p.data)
  {
    p.data[HeaderLength(p.version)..HeaderLength(p.version) + PayloadLength(p.version, p.data)]
  }

  /** The bytes the table points to are bytes of the packet. */
  predicate InData(entry: Entry, p: Packet) {
    && (entry.targetSystem.Some? ==> HeaderLength(p.version) + entry.targetSystem.value < |p.data|)
    && (entry.targetComponent.Some? ==> HeaderLength(p.version) + entry.targetComponent.value < |p.data|)
  }

  /** The bytes in memory behind a packet. */
  type Memory = nat -> Byte

  /** The byte at an offset from the start of the payload. Version 2 checks the offset against the length of
      the payload; version 1 does not, so that it may read behind the packet. */
  function ByteAt(p: Packet, memory: Memory, offset: nat): Byte
    requires PacketComplete(p.version, p.data)
  {
    var i := HeaderLength(p.version) + offset;
    if p.version.V2? && offset >= PayloadLength(p.version, p.data) then 0
    else if i < |p.data| then p.data[i]
    else memory(i - |p.data|)
  }

  /** The destination of a packet. */
  function Dest(p: Packet, memory: Memory, entry: Entry): Option<Address>
    requires PacketComplete(p.version, p.data)
  {
    if entry.targetSystem.None? then None else
      Some(Pack(ByteAt(p, memory, entry.targetSystem.value),
                if entry.targetComponent.Some? then ByteAt(p, memory, entry.targetComponent.value) else 0))
  }

  lemma ByteFromPayload(p: Packet, memory: Memory, offset: nat)
    requires PacketComplete(p.version, p.data)
    requires p.version.V1? ==> offset < PayloadLength(V1, p.data)
    ensures ByteAt(p, memory, offset) == PayloadByte(Payload(p), offset)
  {
    var h, n := HeaderLength(p.version), PayloadLength(p.version, p.data);
    if offset < n {
      assert p.data[h..h + n][offset] == p.data[h + offset];
    }
  }

  /** Two version 2 packets whose payloads differ in trailing zeros only have the same destination. */
  lemma TrimmedPayloadKeepsDest(p: Packet, q: Packet, zeros: nat, entry: Entry, m: Memory, n: Memory)
    requires p.version.V2? && q.version.V2? && PacketComplete(V2, p.data) && PacketComplete(V2, q.data)
    requires Payload(q) == Payload(p) + seq(zeros, _ => 0)
    ensures Dest(p, m, entry) == Dest(q, n, entry)
  {
    forall offset: nat ensures ByteAt(p, m, offset) == ByteAt(q, n, offset) {
      ByteFromPayload(p, m, offset);
      ByteFromPayload(q, n, offset);
    }
  }

  ghost predicate DestIsDefined(p: Packet, entry: Entry)
    requires PacketComplete(p.version, p.data)
  {
    forall m: Memory, n: Memory :: Dest(p, m, entry) == Dest(p, n, entry)
  }

  /** The destination of a packet with a target system depends on the packet alone in version 2 always, in
      version 1 exactly when the table points into the packet. */
  lemma DestIsDefinedIff(p: Packet, entry: Entry)
    requires PacketComplete(p.version, p.data) && entry.targetSystem.Some?
    ensures DestIsDefined(p, entry) <==> p.version.V2? || InData(entry, p)
  {
    var m: Memory, n: Memory := _ => 0, _ => 1;
    if p.version.V1? && !InData(entry, p) {
      assert Dest(p, m, entry) != Dest(p, n, entry);
    }
  }

  // ---------- Decoding a whole stream ----------

  /** One stretch of the stream. */
  datatype Item = Noise(byte: Byte) | Emitted(packet: Packet) | Dropped(packet: Packet)

  datatype Decoded = Decoded(items: seq<Item>, partial: seq<Byte>)

  function VersionOf(b: Byte): Option<Version> {
    if b == StartByte(V1) then Some(V1) else if b == StartByte(V2) then Some(V2) else None
  }

  /** A start byte and what followed it, not yet the whole packet its header announces. */
  predicate Incomplete(v: Version, s: seq<Byte>) {
    |s| < HeaderLength(v) || (HeaderComplete(v, s) && |s| < AnnouncedLength(v, s))
  }

  function Frame(known: set<nat>, v: Version, data: seq<Byte>): Item
    requires HeaderComplete(v, data)
  {
    if MessageId(v, data) in known then Emitted(Packet(v, data)) else Dropped(Packet(v, data))
  }

  /** Skip to a start byte, cut off the packet it announces, and go on behind it. */
  function Decode(known: set<nat>, s: seq<Byte>): Decoded {
    if s == [] then Decoded([], []) else
      match VersionOf(s[0])
      case None =>
        var rest := Decode(known, s[1..]);
        rest.(items := [Noise(s[0])] + rest.items)
      case Some(v) =>
        if Incomplete(v, s) then Decoded([], s) else
          var n := AnnouncedLength(v, s);
          var rest := Decode(known, s[n..]);
          rest.(items := [Frame(known, v, s[..n])] + rest.items)
  }

  function ItemBytes(item: Item): seq<Byte> {
    if item.Noise? then [item.byte] else item.packet.data
  }

  function Bytes(items: seq<Item>): seq<Byte> {
    if items == [] then [] else ItemBytes(items[0]) + Bytes(items[1..])
  }

  function Packets(items: seq<Item>): seq<Packet> {
    if items == [] then []
    else if items[0].Emitted? then [items[0].packet] + Packets(items[1..])
    else Packets(items[1..])
  }

  lemma {:induction false} PacketsConcat(xs: seq<Item>, ys: seq<Item>)
    ensures Packets(xs + ys) == Packets(xs) + Packets(ys)
  {
    if xs == [] {
      assert xs + ys == ys;
    } else {
      assert (xs + ys)[1..] == xs[1..] + ys;
      PacketsConcat(xs[1..], ys);
    }
  }

  lemma {:induction false} BytesConcat(xs: seq<Item>, ys: seq<Item>)
    ensures Bytes(xs + ys) == Bytes(xs) + Bytes(ys)
  {
    if xs == [] {
      assert xs + ys == ys;
    } else {
      assert (xs + ys)[1..] == xs[1..] + ys;
      BytesConcat(xs[1..], ys);
    }
  }

  predicate ValidItem(known: set<nat>, item: Item) {
    match item
    case Noise(b) => VersionOf(b).None?
    case Emitted(p) => ValidPacket(known, p)
    case Dropped(p) => PacketComplete(p.version, p.data) && MessageId(p.version, p.data) !in known
  }

  lemma {:induction false} ItemsAreValid(known: set<nat>, s: seq<Byte>, i: nat)
    requires i < |Decode(known, s).items|
    ensures ValidItem(known, Decode(known, s).items[i])
  {
    var v := VersionOf(s[0]);
    if v.None? {
      if i > 0 { ItemsAreValid(known, s[1..], i - 1); }
    } else {
      if i > 0 { ItemsAreValid(known, s[AnnouncedLength(v.value, s)..], i - 1); }
    }
  }

  lemma Glue(item: Item, items: seq<Item>, partial: seq<Byte>, rest: seq<Byte>)
    requires Bytes(items) + partial == rest
    ensures Bytes([item] + items) + partial == ItemBytes(item) + rest
  {
    assert ([item] + items)[1..] == items;
    assert ItemBytes(item) + (Bytes(items) + partial) == (ItemBytes(item) + Bytes(items)) + partial;
  }

  /** The first item and the rest of the stream. */
  lemma CutOff(known: set<nat>, s: seq<Byte>) returns (n: nat)
    requires s != [] && (VersionOf(s[0]).Some? ==> !Incomplete(VersionOf(s[0]).value, s))
    ensures 0 < n <= |s| && Decode(known, s).items != [] && ItemBytes(Decode(known, s).items[0]) == s[..n]
    ensures Decode(known, s) == Prepend(Decode(known, s).items[0], Decode(known, s[n..]))
  {
    var v := VersionOf(s[0]);
    n := if v.None? then 1 else AnnouncedLength(v.value, s);
  }

  lemma {:induction false} NothingIsLost(known: set<nat>, s: seq<Byte>)
    ensures var d := Decode(known, s); Bytes(d.items) + d.partial == s
    decreases |s|
  {
    if s != [] && (VersionOf(s[0]).Some? ==> !Incomplete(VersionOf(s[0]).value, s)) {
      var n := CutOff(known, s);
      var rest := Decode(known, s[n..]);
      NothingIsLost(known, s[n..]);
      Glue(Decode(known, s).items[0], rest.items, rest.partial, s[n..]);
      assert s == s[..n] + s[n..];
    }
  }

  /** A start byte and bytes that do not complete the packet it announces, or nothing. */
  predicate IsPartial(s: seq<Byte>) {
    s != [] ==> VersionOf(s[0]).Some? && Incomplete(VersionOf(s[0]).value, s)
  }

  lemma {:induction false} RestIsPartial(known: set<nat>, s: seq<Byte>)
    ensures IsPartial(Decode(known, s).partial)
  {
    if s != [] {
      var v := VersionOf(s[0]);
      if v.None? {
        RestIsPartial(known, s[1..]);
      } else if !Incomplete(v.value, s) {
        RestIsPartial(known, s[AnnouncedLength(v.value, s)..]);
      }
    }
  }

  /** The stream is exactly its noise, packets and dropped frames in order, and then a partial packet;
      packets are complete with a known ID, dropped frames complete with an unknown one. */
  lemma DecodePartitions(known: set<nat>, s: seq<Byte>)
    ensures var d := Decode(known, s);
            && Bytes(d.items) + d.partial == s
            && (forall i :: 0 <= i < |d.items| ==> ValidItem(known, d.items[i]))
            && IsPartial(d.partial)
  {
    NothingIsLost(known, s);
    forall i | 0 <= i < |Decode(known, s).items| ensures ValidItem(known, Decode(known, s).items[i]) {
      ItemsAreValid(known, s, i);
    }
    RestIsPartial(known, s);
  }

  lemma SameHeader(v: Version, s: seq<Byte>, t: seq<Byte>)
    requires HeaderComplete(v, s)
    ensures HeaderComplete(v, s + t) && AnnouncedLength(v, s + t) == AnnouncedLength(v, s)
    ensures MessageId(v, s + t) == MessageId(v, s)
  {}

  function Prepend(item: Item, d: Decoded): Decoded {
    d.(items := [item] + d.items)
  }

  /** A complete packet in front is cut off. */
  lemma DecodePacket(known: set<nat>, v: Version, data: seq<Byte>, t: seq<Byte>)
    requires PacketComplete(v, data)
    ensures Decode(known, data + t) == Prepend(Frame(known, v, data), Decode(known, t))
  {
    SameHeader(v, data, t);
    assert (data + t)[..|data|] == data && (data + t)[|data|..] == t;
  }

  lemma DecodeNoiseByte(known: set<nat>, b: Byte, t: seq<Byte>)
    requires VersionOf(b).None?
    ensures Decode(known, [b] + t) == Prepend(Noise(b), Decode(known, t))
  {
    assert ([b] + t)[1..] == t;
  }

  function Resumed(d: Decoded, e: Decoded): Decoded {
    Decoded(d.items + e.items, e.partial)
  }

  lemma PrependResumed(item: Item, d: Decoded, e: Decoded)
    ensures Prepend(item, Resumed(d, e)) == Resumed(Prepend(item, d), e)
  {
    assert [item] + (d.items + e.items) == ([item] + d.items) + e.items;
  }

  lemma NothingResumed(partial: seq<Byte>, e: Decoded)
    ensures Resumed(Decoded([], partial), e) == e
  {
    assert [] + e.items == e.items;
  }

  /** Decoding can be interrupted anywhere and resumed from the partial packet. */
  lemma {:induction false} DecodeResumes(known: set<nat>, s: seq<Byte>, t: seq<Byte>)
    ensures Decode(known, s + t) == Resumed(Decode(known, s), Decode(known, Decode(known, s).partial + t))
    decreases |s|, 1
  {
    if s == [] || (VersionOf(s[0]).Some? && Incomplete(VersionOf(s[0]).value, s)) {
      assert Decode(known, s) == Decoded([], s);
      NothingResumed(s, Decode(known, s + t));
    } else {
      var n := CutOff(known, s);
      ItemsAreValid(known, s, 0);
      assert s == s[..n] + s[n..] && s + t == s[..n] + (s[n..] + t);
      ResumeBehind(known, Decode(known, s).items[0], s[..n], s[n..], t);
    }
  }

  lemma {:induction false} ResumeBehind(known: set<nat>, item: Item, front: seq<Byte>, s: seq<Byte>, t: seq<Byte>)
    requires ValidItem(known, item) && front == ItemBytes(item)
    ensures var d := Decode(known, front + s);
            Decode(known, front + (s + t)) == Resumed(d, Decode(known, d.partial + t))
    decreases |front + s|, 0
  {
    DecodeResumes(known, s, t);
    if item.Noise? {
      DecodeNoiseByte(known, item.byte, s);
      DecodeNoiseByte(known, item.byte, s + t);
    } else {
      DecodePacket(known, item.packet.version, front, s);
      DecodePacket(known, item.packet.version, front, s + t);
    }
    var d := Decode(known, s);
    PrependResumed(item, d, Decode(known, d.partial + t));
  }

  // ---------- Round trip ----------

  /** Bytes without a start byte, and the packet sent behind them. */
  datatype Segment = Segment(noise: seq<Byte>, packet: Packet)

  predicate Quiet(noise: seq<Byte>) {
    forall i :: 0 <= i < |noise| ==> VersionOf(noise[i]).None?
  }

  function Wire(segments: seq<Segment>, tail: seq<Byte>): seq<Byte> {
    if segments == [] then tail else
      segments[0].noise + (segments[0].packet.data + Wire(segments[1..], tail))
  }

  lemma {:induction false} DecodeNoise(known: set<nat>, noise: seq<Byte>, t: seq<Byte>)
    requires Quiet(noise)
    ensures Packets(Decode(known, noise + t).items) == Packets(Decode(known, t).items)
    ensures Decode(known, noise + t).partial == Decode(known, t).partial
  {
    if noise == [] {
      assert noise + t == t;
    } else {
      assert (noise + t)[1..] == noise[1..] + t;
      DecodeNoise(known, noise[1..], t);
    }
  }

  /** Any list of complete packets with known IDs, of either version, signed or not, sent with bytes
      between them that contain no start byte, decodes to exactly that list. */
  lemma {:induction false} WireRoundTrip(known: set<nat>, segments: seq<Segment>, tail: seq<Byte>)
    requires forall i :: 0 <= i < |segments| ==> Quiet(segments[i].noise) && ValidPacket(known, segments[i].packet)
    requires Quiet(tail)
    ensures var d := Decode(known, Wire(segments, tail));
            && d.partial == []
            && |Packets(d.items)| == |segments|
            && forall i :: 0 <= i < |segments| ==> Packets(d.items)[i] == segments[i].packet
  {
    if segments == [] {
      DecodeNoise(known, tail, []);
      assert tail + [] == tail;
    } else {
      WireRoundTrip(known, segments[1..], tail);
      var p, rest := segments[0].packet, Wire(segments[1..], tail);
      DecodePacket(known, p.version, p.data, rest);
      DecodeNoise(known, segments[0].noise, p.data + rest);
    }
  }
}
