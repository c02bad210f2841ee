/** The rolling counter of hmac433.c: packets carry eight bits of a 64 bit
    counter, and the receiver works out the rest. */
module Hmac433 {
  import opened Bits

  const PACKET_PAYLOAD_SIZE := 6
  const PACKET_HMAC_SIZE := 6
  const COUNTERS := 0x1_0000_0000_0000_0000

  datatype Option<T> = None | Some(value: T)

  /** The part of the digest that is sent. */
  type Tag = t: seq<Byte> | |t| == PACKET_HMAC_SIZE witness [0, 0, 0, 0, 0, 0]
  type Payload = p: seq<Byte> | |p| == PACKET_PAYLOAD_SIZE witness [0, 0, 0, 0, 0, 0]

  /** The message authentication code under the shared secret: any function of
      counter and payload. */
  type Mac = (Word64, Payload) -> Tag

  datatype Packet = Packet(payload: Payload, counterLow: Byte, hmac: Tag, resyncFlag: Byte)

  // ----- numbers as bytes, most significant first -----

  function BigEndian(b: seq<Byte>): (n: nat)
    ensures n < Pow2(8 * |b|)
  {
    if b == [] then 0
    else
      PowersOfTwo(8, 8 * (|b| - 1));
      assert Pow2(8) == 256;
      256 * BigEndian(b[..|b| - 1]) + b[|b| - 1]
  }

  lemma {:induction false} BigEndianOfBytes(n: nat, k: nat)
    requires n < Pow2(8 * k)
    ensures BigEndian(BytesOf(n, k)) == n
  {
    if k > 0 {
      PowersOfTwo(8, 8 * (k - 1));
      assert Pow2(8) == 256;
      BigEndianOfBytes(n / 256, k - 1);
      assert BytesOf(n, k)[..k - 1] == BytesOf(n / 256, k - 1);
    }
  }

  // ----- which counter a packet stands for -----

  /** An ordinary packet replaces the low byte, and moves on if that went back. */
  function OrdinaryCandidate(counter: Word64, low: Byte): Word64
  {
    var n := counter / 256 * 256 + low;
    if n < counter then (n + 256) % COUNTERS else n
  }

  /** A resynchronisation packet carries all but the low byte. */
  function ResyncCandidate(payload: Payload, low: Byte): Word64
  {
    SevenBytes(payload + [low]);
    256 * BigEndian(payload + [low])
  }

  lemma SevenBytes(b: seq<Byte>)
    requires |b| == 7
    ensures 256 * BigEndian(b) < COUNTERS
  {
    WordPowers();
  }

  /** The counter under which a receiver checks the tag. */
  function Candidate(counter: Word64, p: Packet): Word64
  {
    if p.resyncFlag == 0 then OrdinaryCandidate(counter, p.counterLow) else ResyncCandidate(p.payload, p.counterLow)
  }

  /** The counter after accepting the packet, if it is accepted. */
  function Authenticated(mac: Mac, counter: Word64, p: Packet): Option<Word64>
  {
    var n := Candidate(counter, p);
    if p.resyncFlag != 0 && n < counter then None
    else if mac(n, p.payload) != p.hmac then None
    else Some((n + 1) % COUNTERS)
  }

  // ----- what the sender puts in a packet -----

  datatype Request = Send(payload: Payload) | Resync

  /** The counter is moved on before it is used. */
  function NextCounter(counter: Word64, r: Request): Word64
  {
    match r
    case Send(_) => (counter + 1) % COUNTERS
    case Resync => (counter + 256) % COUNTERS / 256 * 256
  }

  function PacketFor(mac: Mac, n: Word64, r: Request): Packet
  {
    match r
    case Send(payload) => Packet(payload, n % 256, mac(n, payload), 0)
    case Resync =>
      var top := BytesOf(n / 65536, 6);
      Packet(top, n / 256 % 256, mac(n, top), 0x80)
  }

  // ----- the counter is reconstructed -----

  /** Exactly one of the next 256 counters has the low byte received. */
  lemma OrdinaryUnique(counter: Word64, low: Byte, n: nat)
    requires counter + 256 <= COUNTERS
    ensures n == OrdinaryCandidate(counter, low) <==> counter <= n < counter + 256 && n % 256 == low
  {
    var q, r := counter / 256, counter % 256;
    assert counter == 256 * q + r;
    var c := OrdinaryCandidate(counter, low);
    assert c == 256 * q + low || c == 256 * (q + 1) + low;
    if counter <= n < counter + 256 && n % 256 == low {
      assert n == 256 * (n / 256) + low;
      assert n / 256 == q || n / 256 == q + 1;
    }
  }

  /** Only in the last 256 counters can the reconstructed counter go back. */
  lemma OrdinaryWraps(counter: Word64, low: Byte)
    ensures OrdinaryCandidate(counter, low) < counter <==> counter >= COUNTERS - 256 && low < counter % 256
  {
  }

  lemma ResyncCandidateIs(mac: Mac, n: Word64)
    requires n % 256 == 0
    ensures var p := PacketFor(mac, n, Resync); ResyncCandidate(p.payload, p.counterLow) == n
  {
    var top, low := BytesOf(n / 65536, 6), n / 256 % 256;
    assert n / 256 / 256 == n / 65536;
    assert BytesOf(n / 256, 7) == top + [low];
    WordPowers();
    BigEndianOfBytes(n / 256, 7);
    hide BytesOf, BigEndian, Pow2;
    assert 256 * (n / 256) == n;
  }

  /** The tag also verifies under the counter that a receiver out of reach works
      out for an ordinary packet. */
  predicate Collides(mac: Mac, counter: Word64, n: Word64, payload: Payload)
  {
    mac(OrdinaryCandidate(counter, n % 256), payload) == mac(n, payload)
  }

  /** For every code: an ordinary packet is accepted, and puts the receiver in
      step, if the receiver is at most 255 packets behind; any other receiver
      accepts it exactly when the tags of two different counters collide. */
  lemma SendAcceptedIff(mac: Mac, counter: Word64, n: Word64, payload: Payload)
    requires counter + 256 <= COUNTERS
    ensures Authenticated(mac, counter, PacketFor(mac, n, Send(payload)))
         == if counter <= n < counter + 256 then Some((n + 1) % COUNTERS)
            else if Collides(mac, counter, n, payload) then Some((OrdinaryCandidate(counter, n % 256) + 1) % COUNTERS)
            else None
    ensures OrdinaryCandidate(counter, n % 256) == n <==> counter <= n < counter + 256
  {
    OrdinaryUnique(counter, n % 256, n);
    hide OrdinaryCandidate, ResyncCandidate;
  }

  /** A resynchronisation packet is accepted by every receiver that is not ahead. */
  lemma ResyncAcceptedIff(mac: Mac, counter: Word64, n: Word64)
    requires n % 256 == 0
    ensures Authenticated(mac, counter, PacketFor(mac, n, Resync))
         == if counter <= n then Some((n + 1) % COUNTERS) else None
  {
    ResyncCandidateIs(mac, n);
    hide ResyncCandidate, OrdinaryCandidate, BytesOf;
  }

  lemma SendBehindByOne(n: Word64)
    ensures OrdinaryCandidate((n - 1) % COUNTERS, n % 256) == n
  {
    if n == 0 {
      assert (n - 1) % COUNTERS == COUNTERS - 1;
    } else {
      assert (n - 1) % COUNTERS == n - 1;
      if n + 255 <= COUNTERS {
        OrdinaryUnique(n - 1, n % 256, n);
      } else {
        var r := n - (COUNTERS - 256);
        assert n % 256 == r && (n - 1) / 256 * 256 == COUNTERS - 256;
      }
    }
  }

  /** A resynchronisation moves on to the next multiple of 256. */
  lemma ResyncCounter(counter: Word64)
    ensures var n := NextCounter(counter, Resync);
      n % 256 == 0 && if counter >= COUNTERS - 256 then n == 0 else counter < n <= counter + 256
  {
    var sum := counter + 256;
    assert if sum >= COUNTERS then sum % COUNTERS == sum - COUNTERS < 256 else sum % COUNTERS == sum;
  }

  /** The check libnc_encode makes of its own packets succeeds, unless a
      resynchronisation wraps the counter around. */
  lemma SelfCheckIff(mac: Mac, counter: Word64, r: Request)
    ensures var n := NextCounter(counter, r);
      Authenticated(mac, (n - 1) % COUNTERS, PacketFor(mac, n, r))
      == if r.Resync? && counter >= COUNTERS - 256 then None else Some((n + 1) % COUNTERS)
  {
    var n := NextCounter(counter, r);
    if r.Resync? {
      ResyncCounter(counter);
      assert n == 0 ==> (n - 1) % COUNTERS == COUNTERS - 1;
      assert n > 0 ==> (n - 1) % COUNTERS == n - 1;
      hide Authenticated, PacketFor, NextCounter;
      ResyncAcceptedIff(mac, (n - 1) % COUNTERS, n);
    } else {
      SendBehindByOne(n);
      hide OrdinaryCandidate, NextCounter, ResyncCandidate, BytesOf;
    }
  }
}
