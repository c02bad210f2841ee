/** The sender of libnc.c: encode a packet, check it, move the counter on. */
module Libnc {
  import opened Bits
  import opened GF32
  import opened Hmac433
  import opened Hmac433Methods
  import opened CounterProtocol
  import opened Packets
  import opened Packing
  import opened Ncrs
  import opened NcrsCodec
  import opened RsTables

  /** The first six bytes, filled up with zeros. */
  function PayloadOf(bytes: seq<Byte>): (p: Payload)
    ensures forall i :: 0 <= i < PACKET_PAYLOAD_SIZE ==> p[i] == if i < |bytes| then bytes[i] else 0
  {
    seq(PACKET_PAYLOAD_SIZE, i requires 0 <= i < PACKET_PAYLOAD_SIZE => if i < |bytes| then bytes[i] else 0)
  }

  /** An empty payload asks for a resynchronisation. */
  function RequestFor(bytes: seq<Byte>): Request
  {
    if |bytes| == 0 then Resync else Send(PayloadOf(bytes))
  }

  /** Sending is refused only when a resynchronisation would wrap the counter. */
  predicate Refused(counter: Word64, r: Request)
  {
    r.Resync? && counter >= COUNTERS - 256
  }

  /** What is sent decodes to the packet it was made from. */
  lemma PacketRoundTrip(mac: Mac, n: Word64, r: Request)
    ensures var p := PacketFor(mac, n, r);
      Decoded(Encoded(PacketBytes(p))) == (1, PacketBytes(p)) && PacketOf(PacketBytes(p)) == p
  {
    var p := PacketFor(mac, n, r);
    hide PacketBytes, PacketOf, Decoded, Encoded, Carried, BytesOf;
    CleanRoundTrip(PacketBytes(p));
    FlagIsCarried(p);
    PacketOfBytes(p);
  }

  class Sender {
    const mac: Mac
    const rs: RsControl
    var open: bool                    // the secret file was found
    var counter: Word64               // secret_file.counter
    ghost var saved: seq<Word64>      // counters written to the file

    constructor (mac: Mac, rs: RsControl, open: bool, counter: Word64)
      ensures this.mac == mac && this.rs == rs && this.open == open && this.counter == counter && saved == []
    {
      this.mac, this.rs, this.open, this.counter, this.saved := mac, rs, open, counter, [];
    }

    /** Write the secret file; succeeds says whether that worked. */
    method Save(succeeds: bool) returns (ok: bool)
      modifies this`saved
      ensures ok == succeeds && saved == if succeeds then old(saved) + [counter] else old(saved)
    {
      if succeeds {
        saved := saved + [counter];
      }
      ok := succeeds;
    }

    /** libnc_advance. */
    method Advance(succeeds: bool) returns (ok: bool)
      modifies this`counter, this`saved
      ensures ok <==> open && succeeds
      ensures counter == if open then CounterAfter(old(counter), CounterProtocol.Advance) else old(counter)
      ensures open ==> counter == (old(counter) + 65536) % 0x1_0000_0000_0000_0000
      ensures saved == if ok then old(saved) + [counter] else old(saved)
    {
      if !open {
        return false;
      }
      counter := (counter + 0x1_0000) % COUNTERS;
      ok := Save(succeeds);
    }

    /** libnc_encode. */
    method Encode(payload: seq<Byte>, message: array<Byte>, succeeds: bool) returns (ok: bool)
      requires rs.Valid() && message !in rs.Repr()
      modifies this`counter, this`saved, message
      ensures message.Length < NN || !open ==>
        !ok && counter == old(counter) && saved == old(saved) && message[..] == old(message[..])
      ensures message.Length >= NN && open ==>
        && counter == NextCounter(old(counter), RequestFor(payload))
        && message[..NN] == Encoded(PacketBytes(PacketFor(mac, counter, RequestFor(payload))))
        && (ok <==> succeeds && !Refused(old(counter), RequestFor(payload)))
        && saved == if ok then old(saved) + [counter] else old(saved)
    {
      hide PacketFor, NextCounter, RsControl.Valid, Encoded, PacketBytes, RequestFor, Refused;
      if message.Length < NN || !open {
        return false;
      }
      ghost var before := counter;
      var packet := NewPacket(payload);
      var encoded := EncodePacket(packet, message);
      var good := SelfCheck(packet, encoded, RequestFor(payload), before);
      if !good {
        return false;
      }
      ok := Save(succeeds);
    }

    /** The packet, with the counter moved on. */
    method NewPacket(payload: seq<Byte>) returns (packet: PacketBuffer)
      modifies this`counter
      ensures counter == NextCounter(old(counter), RequestFor(payload))
      ensures fresh(packet) && fresh(packet.payload) && fresh(packet.hmac)
      ensures packet.Valid() && packet.Abs() == PacketFor(mac, counter, RequestFor(payload))
    {
      hide PacketFor, NextCounter;
      packet := RequestPacket(payload);
      var n := Hmac433Methods.Encode(mac, packet, counter);
      counter := n;
      SameFlag(mac, n, RequestFor(payload));
    }

    method EncodePacket(packet: PacketBuffer, message: array<Byte>) returns (encoded: array<Byte>)
      requires rs.Valid() && packet.Valid() && message.Length >= NN && message !in rs.Repr()
      modifies message
      ensures fresh(encoded) && encoded.Length == NN
      ensures encoded[..] == message[..NN] == Encoded(PacketBytes(old(packet.Abs())))
    {
      hide RsControl.Valid, Encoded, PacketBytes;
      var bytes := PacketArray(packet);
      encoded := new Byte[NN](_ => 0);
      NcrsEncode(rs, encoded, bytes);
      forall i | 0 <= i < NN {
        message[i] := encoded[i];
      }
      assert message[..NN] == encoded[..];
    }

    /** Decode what was encoded and authenticate it one counter earlier. */
    method SelfCheck(packet: PacketBuffer, encoded: array<Byte>, ghost r: Request, ghost before: Word64)
      returns (good: bool)
      requires rs.Valid() && packet.Valid() && encoded.Length == NN && encoded !in rs.Repr()
      requires counter == NextCounter(before, r) && packet.Abs() == PacketFor(mac, counter, r)
      requires encoded[..] == Encoded(PacketBytes(packet.Abs()))
      ensures good <==> !Refused(before, r)
    {
      hide PacketFor, NextCounter, RsControl.Valid, Encoded, Decoded, PacketBytes, PacketOf, Authenticated;
      PacketRoundTrip(mac, counter, r);
      var message := new Byte[MESSAGE_BYTES](_ => 0);
      var rc := NcrsDecode(rs, message, encoded);
      var packet2 := ArrayPacket(message);
      assert packet2.Abs() == packet.Abs();
      if packet2.payload[..] != packet.payload[..] || packet2.counterLow != packet.counterLow
         || packet2.hmac[..] != packet.hmac[..] || packet2.resyncFlag != packet.resyncFlag {
        return false;
      }
      SelfCheckIff(mac, before, r);
      var n;
      good, n := Authenticate(mac, packet2, (counter - 1) % COUNTERS);
    }
  }

  lemma SameFlag(mac: Mac, n: Word64, r: Request)
    ensures PacketFor(mac, n, r).resyncFlag == if r.Resync? then 0x80 else 0
  {
  }

  /** The packet before counter and tag are filled in. */
  method RequestPacket(payload: seq<Byte>) returns (packet: PacketBuffer)
    ensures fresh(packet) && fresh(packet.payload) && fresh(packet.hmac) && packet.Valid()
    ensures RequestOf(packet.Abs()) == RequestFor(payload)
    ensures packet.Abs().resyncFlag == if |payload| == 0 then 0x80 else 0
  {
    packet := new PacketBuffer();
    var i := 0;
    while i < |payload| && i < PACKET_PAYLOAD_SIZE
      invariant 0 <= i <= PACKET_PAYLOAD_SIZE && i <= |payload|
      invariant forall k :: 0 <= k < PACKET_PAYLOAD_SIZE ==> packet.payload[k] == if k < i then payload[k] else 0
      invariant packet.resyncFlag == 0
    {
      packet.payload[i] := payload[i];
      i := i + 1;
    }
    assert packet.payload[..] == PayloadOf(payload);
    if |payload| == 0 {
      packet.resyncFlag := 0x80;
    }
  }
}
