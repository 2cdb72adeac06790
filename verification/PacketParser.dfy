/** The byte-at-a-time packet parser, proved against the decoding of the bytes it has been given. */
module PacketParsers {
  import opened Wrappers
  import opened Framing

  datatype ParserState = WaitingForStartByte | WaitingForHeader | WaitingForPacket

  /** What one more byte adds to the decoded items. */
  function LastPacket(packet: Option<Packet>): seq<Packet> {
    if packet.Some? then [packet.value] else []
  }

  /** A byte behind a partial packet: skipped, kept, or the end of a frame. */
  lemma DecodeByte(known: set<nat>, partial: seq<Byte>, b: Byte)
    requires IsPartial(partial)
    ensures var s := partial + [b];
            Decode(known, s) ==
              if partial == [] && VersionOf(b).None? then Decoded([Noise(b)], [])
              else if Incomplete(VersionOf(s[0]).value, s) then Decoded([], s)
              else Decoded([Frame(known, VersionOf(s[0]).value, s)], [])
    ensures partial != [] && !Incomplete(VersionOf(partial[0]).value, partial + [b]) ==>
              PacketComplete(VersionOf(partial[0]).value, partial + [b])
  {
    var s := partial + [b];
    assert partial != [] ==> s[0] == partial[0];
    if partial == [] && VersionOf(b).None? {
      assert s[1..] == [];
    } else {
      var v := VersionOf(s[0]).value;
      if |partial| >= HeaderLength(v) {
        SameHeader(v, partial, [b]);
      }
      if !Incomplete(v, s) {
        assert s[..|s|] == s && s[|s|..] == [];
      }
    }
  }

  /** What the decoder makes of one more byte, in terms of the partial packet before it. */
  lemma OneMoreByte(known: set<nat>, stream: seq<Byte>, b: Byte)
    ensures var d, e := Decode(known, stream), Decode(known, stream + [b]);
            var s := d.partial + [b];
            && IsPartial(d.partial)
            && if d.partial == [] && VersionOf(b).None? then
                 e.partial == [] && Packets(e.items) == Packets(d.items)
               else
                 var v := VersionOf(s[0]).value;
                 if Incomplete(v, s) then
                   e.partial == s && Packets(e.items) == Packets(d.items)
                 else
                   && PacketComplete(v, s) && e.partial == []
                   && Packets(e.items) == Packets(d.items)
                        + LastPacket(if MessageId(v, s) in known then Some(Packet(v, s)) else None)
  {
    RestIsPartial(known, stream);
    var d := Decode(known, stream);
    DecodeByte(known, d.partial, b);
    DecodeResumes(known, stream, [b]);
    var now := Decode(known, d.partial + [b]);
    PacketsConcat(d.items, now.items);
    if now.items != [] {
      assert now.items[1..] == [];
    }
  }

  class PacketParser {
    const known: set<nat>
    var buffer: seq<Byte>
    var state: ParserState
    var version: Version
    var bytesRemaining: nat
    ghost var consumed: seq<Byte>          // bytes given to `ParseByte` since construction or the caller's last `Clear`

    /** The buffer is the partial packet the decoder is left with, and while the rest of a packet is
        awaited the bytes buffered and those remaining add up to the announced length. */
    ghost predicate Valid()
      reads this
    {
      && buffer == Decode(known, consumed).partial
      && match state
         case WaitingForStartByte => buffer == []
         case WaitingForHeader =>
           buffer != [] && VersionOf(buffer[0]) == Some(version) && |buffer| < HeaderLength(version)
         case WaitingForPacket =>
           && HeaderComplete(version, buffer) && bytesRemaining > 0
           && |buffer| + bytesRemaining == AnnouncedLength(version, buffer)
    }

    constructor (known: set<nat>)
      ensures Valid() && consumed == [] && this.known == known
    {
      this.known := known;
      buffer, state, version, bytesRemaining, consumed := [], WaitingForStartByte, V2, 0, [];
    }

    method BytesParsed() returns (n: nat)
      requires Valid()
      ensures n == |Decode(known, consumed).partial|
    {
      n := |buffer|;
    }

    method Clear()
      modifies this
      ensures Valid() && consumed == []
      ensures state == WaitingForStartByte && buffer == [] && version == V2 && bytesRemaining == 0
    {
      buffer, state, version, bytesRemaining, consumed := [], WaitingForStartByte, V2, 0, [];
    }

    /** Feed one byte. Whatever bytes came before, the packets returned so far are those of the decoder. */
    method ParseByte(b: Byte) returns (packet: Option<Packet>)
      requires Valid()
      modifies this
      ensures Valid() && consumed == old(consumed) + [b]
      ensures Packets(Decode(known, consumed).items)
           == Packets(Decode(known, old(consumed)).items) + LastPacket(packet)
      ensures packet.Some? ==>
                ValidPacket(known, packet.value) && packet.value.data == old(buffer) + [b]
    {
      OneMoreByte(known, consumed, b);
      packet := None;
      match state {
        case WaitingForStartByte => WaitingForStartByteStep(b);
        case WaitingForHeader => WaitingForHeaderStep(b);
        case WaitingForPacket =>
          SameHeader(version, buffer, [b]);
          packet := WaitingForPacketStep(b);
      }
      consumed := old(consumed) + [b];
    }

    method WaitingForStartByteStep(b: Byte)
      requires state == WaitingForStartByte
      modifies this`buffer, this`state, this`version
      ensures if VersionOf(b).Some?
              then buffer == old(buffer) + [b] && state == WaitingForHeader && version == VersionOf(b).value
              else buffer == old(buffer) && state == old(state) && version == old(version)
    {
      if b == StartByte(V1) {
        buffer, state, version := buffer + [b], WaitingForHeader, V1;
      } else if b == StartByte(V2) {
        buffer, state, version := buffer + [b], WaitingForHeader, V2;
      }
    }

    method WaitingForHeaderStep(b: Byte)
      requires state == WaitingForHeader
      modifies this`buffer, this`state, this`bytesRemaining
      ensures buffer == old(buffer) + [b]
      ensures if HeaderComplete(version, buffer)
              then state == WaitingForPacket
                   && HeaderLength(version) + bytesRemaining == AnnouncedLength(version, buffer)
              else state == old(state) && bytesRemaining == old(bytesRemaining)
    {
      buffer := buffer + [b];
      if HeaderComplete(version, buffer) {
        bytesRemaining := PayloadLength(version, buffer) + CHECKSUM_LENGTH;
        if IsSigned(version, buffer) {
          bytesRemaining := bytesRemaining + SIGNATURE_LENGTH;
        }
        state := WaitingForPacket;
      }
    }

    method WaitingForPacketStep(b: Byte) returns (packet: Option<Packet>)
      requires state == WaitingForPacket && HeaderComplete(version, buffer) && bytesRemaining > 0
      requires |buffer| + bytesRemaining == AnnouncedLength(version, buffer)
      modifies this
      ensures old(bytesRemaining) > 1 ==>
                && packet == None
                && buffer == old(buffer) + [b] && bytesRemaining == old(bytesRemaining) - 1
                && state == old(state) && version == old(version)
      ensures old(bytesRemaining) == 1 ==>
                && buffer == [] && state == WaitingForStartByte
                && PacketComplete(old(version), old(buffer) + [b])
                && packet == if MessageId(old(version), old(buffer) + [b]) in known
                             then Some(Packet(old(version), old(buffer) + [b])) else None
    {
      SameHeader(version, buffer, [b]);
      buffer := buffer + [b];
      bytesRemaining := bytesRemaining - 1;
      packet := None;
      if bytesRemaining == 0 {
        var constructed := Construct(known, version, buffer);
        ConstructExactly(known, version, buffer);
        match constructed {
          case Ok(p) => packet := Some(p);
          case Err(e) => assert e == InvalidPacketId;   // the one error that is caught
        }
        Clear();
      }
    }
  }
}
