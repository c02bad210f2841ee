/** hmac433_packet_t as the fourteen bytes of a message. */
module Packets {
  import opened Bits
  import opened Hmac433
  import opened Hmac433Methods
  import opened Packing

  function PacketBytes(p: Packet): (b: seq<Byte>)
    ensures |b| == MESSAGE_BYTES
  {
    p.payload + [p.counterLow] + p.hmac + [p.resyncFlag]
  }

  function PacketOf(b: seq<Byte>): (p: Packet)
    requires |b| == MESSAGE_BYTES
  {
    Packet(b[..6], b[6], b[7..13], b[13])
  }

  lemma PacketOfBytes(p: Packet)
    ensures PacketOf(PacketBytes(p)) == p
  {
    var b := PacketBytes(p);
    assert b[..6] == p.payload && b[7..13] == p.hmac;
  }

  /** Of the flag only the top bit is carried: a packet survives the codec if
      and only if its flag has no other bit. */
  lemma FlagIsCarried(p: Packet)
    ensures Carried(PacketBytes(p)) == PacketBytes(p) <==> p.resyncFlag == 0 || p.resyncFlag == 0x80
  {
    var b := PacketBytes(p);
    assert b[13] == p.resyncFlag;
    assert Carried(b)[13] == b[13] / 128 * 128;
  }

  method PacketArray(packet: PacketBuffer) returns (b: array<Byte>)
    requires packet.Valid()
    ensures fresh(b) && b.Length == MESSAGE_BYTES && b[..] == PacketBytes(packet.Abs())
  {
    b := new Byte[MESSAGE_BYTES](_ => 0);
    forall i | 0 <= i < PACKET_PAYLOAD_SIZE {
      b[i] := packet.payload[i];
    }
    b[6] := packet.counterLow;
    forall i | 0 <= i < PACKET_HMAC_SIZE {
      b[7 + i] := packet.hmac[i];
    }
    b[13] := packet.resyncFlag;
    var bytes := PacketBytes(packet.Abs());
    forall i | 0 <= i < MESSAGE_BYTES
      ensures b[i] == bytes[i]
    {
    }
  }

  method ArrayPacket(message: array<Byte>) returns (packet: PacketBuffer)
    requires message.Length == MESSAGE_BYTES
    ensures fresh(packet) && fresh(packet.payload) && fresh(packet.hmac)
    ensures packet.Valid() && packet.Abs() == PacketOf(message[..])
  {
    packet := new PacketBuffer();
    forall i | 0 <= i < PACKET_PAYLOAD_SIZE {
      packet.payload[i] := message[i];
    }
    packet.counterLow := message[6];
    forall i | 0 <= i < PACKET_HMAC_SIZE {
      packet.hmac[i] := message[7 + i];
    }
    packet.resyncFlag := message[13];
    assert packet.payload[..] == message[..][..6] && packet.hmac[..] == message[..][7..13];
  }
}
