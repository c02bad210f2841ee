/** hmac433_authenticate and hmac433_encode on packets in memory. */
module Hmac433Methods {
  import opened Bits
  import opened Hmac433

  /** hmac433_packet_t. */
  class PacketBuffer {
    const payload: array<Byte>
    var counterLow: Byte
    const hmac: array<Byte>
    var resyncFlag: Byte

    ghost predicate Valid()
    {
      payload.Length == PACKET_PAYLOAD_SIZE && hmac.Length == PACKET_HMAC_SIZE && payload != hmac
    }

    ghost function Abs(): Packet
      requires Valid()
      reads this, payload, hmac
    {
      Packet(payload[..], counterLow, hmac[..], resyncFlag)
    }

    constructor ()
      ensures Valid() && fresh(payload) && fresh(hmac)
      ensures Abs() == Packet([0, 0, 0, 0, 0, 0], 0, [0, 0, 0, 0, 0, 0], 0)
    {
      payload := new Byte[PACKET_PAYLOAD_SIZE](_ => 0);
      hmac := new Byte[PACKET_HMAC_SIZE](_ => 0);
      counterLow, resyncFlag := 0, 0;
    }
  }

  lemma OrLowByte(h: nat, b: Byte)
    ensures Or(256 * h, b) == 256 * h + b
  {
    assert Pow2(8) == 256;
    ShiftLeftIsProduct(h, 8);
    OrDisjoint(h, b, 8);
  }

  lemma ReadStep(b: seq<Byte>, x: Byte)
    requires |b| <= 6
    ensures Or(256 * BigEndian(b), x) < COUNTERS
    ensures Or(256 * BigEndian(b), x) * 256 % COUNTERS == 256 * BigEndian(b + [x])
  {
    hide BigEndian, Or, Pow2;
    OrLowByte(BigEndian(b), x);
    BigEndianSnoc(b, x);
    FewBytes(b + [x]);
    var v := 256 * BigEndian(b) + x;
    assert v * 256 == 256 * BigEndian(b + [x]) < COUNTERS;
  }

  /** The shift and or loop over the payload and the low byte. */
  method ReadCounter(payload: array<Byte>, low: Byte) returns (n: Word64)
    requires payload.Length == PACKET_PAYLOAD_SIZE
    ensures n == ResyncCandidate(payload[..], low)
  {
    n := 0;
    assert BigEndian(payload[..0]) == 0;
    hide BigEndian, Or;
    for i := 0 to PACKET_PAYLOAD_SIZE
      invariant n == 256 * BigEndian(payload[..i])
    {
      ReadStep(payload[..i], payload[i]);
      assert payload[..i] + [payload[i]] == payload[..i + 1];
      n := Or(n, payload[i]);
      n := n * 256 % COUNTERS;
    }
    assert payload[..6] == payload[..];
    ReadStep(payload[..], low);
    n := Or(n, low);
    n := n * 256 % COUNTERS;
  }

  lemma BigEndianSnoc(b: seq<Byte>, x: Byte)
    ensures BigEndian(b + [x]) == 256 * BigEndian(b) + x
  {
    assert (b + [x])[..|b|] == b;
  }

  lemma {:induction false} FewBytes(b: seq<Byte>)
    requires |b| <= 7
    ensures 256 * BigEndian(b) < COUNTERS
    decreases 7 - |b|
  {
    if |b| < 7 {
      FewBytes([0] + b);
      LeadingZero(b);
    } else {
      SevenBytes(b);
    }
  }

  lemma {:induction false} LeadingZero(b: seq<Byte>)
    ensures BigEndian([0] + b) == BigEndian(b)
  {
    if b != [] {
      assert ([0] + b)[..|b|] == [0] + b[..|b| - 1];
      LeadingZero(b[..|b| - 1]);
    } else {
      assert [0] + b == [0];
    }
  }

  method Authenticate(mac: Mac, packet: PacketBuffer, counter: Word64) returns (ok: bool, newCounter: Word64)
    requires packet.Valid()
    ensures ok <==> Authenticated(mac, counter, packet.Abs()).Some?
    ensures newCounter == if ok then Authenticated(mac, counter, packet.Abs()).value else counter
  {
    var n: Word64;
    hide ResyncCandidate;
    if packet.resyncFlag == 0 {
      n := counter - counter % 256 + packet.counterLow;
      if n < counter {
        n := (n + 0x100) % COUNTERS;
      }
      assert n == OrdinaryCandidate(counter, packet.counterLow);
    } else {
      n := ReadCounter(packet.payload, packet.counterLow);
      if n < counter {
        return false, counter;
      }
    }
    hide OrdinaryCandidate;
    var digest := mac(n, packet.payload[..]);
    if digest != packet.hmac[..] {
      return false, counter;
    }
    return true, (n + 1) % COUNTERS;
  }

  /** n without its low j bytes. */
  function Above(n: nat, j: nat): nat
  {
    if j == 0 then n else Above(n, j - 1) / 256
  }

  /** The low j bytes of n. */
  function Below(n: nat, j: nat): (r: nat)
    ensures r < Pow256(j)
  {
    if j == 0 then 0
    else
      LowPart(Above(n, j - 1) % 256, Pow256(j - 1));
      Above(n, j - 1) % 256 * Pow256(j - 1) + Below(n, j - 1)
  }

  lemma LowPart(d: nat, p: nat)
    requires d < 256
    ensures 0 <= d * p && d * p + p <= 256 * p
  {
    Distribute(256, d, p);
    MulAtLeast(256 - d, p);
    RemainderProduct(d, p);
  }

  lemma {:induction false} AboveBelow(n: nat, j: nat)
    ensures n == Above(n, j) * Pow256(j) + Below(n, j)
  {
    if j > 0 {
      AboveBelow(n, j - 1);
      var m, p := Above(n, j - 1), Pow256(j - 1);
      var x, d := m / 256, m % 256;
      assert Above(n, j) == x && Pow256(j) == 256 * p && Below(n, j) == d * p + Below(n, j - 1);
      hide Above, Pow256, Below;
      SplitByte(m, x, d, p);
    }
  }

  lemma SplitByte(m: nat, x: nat, d: nat, p: nat)
    requires m == 256 * x + d
    ensures m * p == x * (256 * p) + d * p
  {
    DistributeAdd(256 * x, d, p);
    MulAssociative(x, 256, p);
  }

  lemma {:induction false} PowersOf256(a: nat, b: nat)
    ensures Pow256(a) * Pow256(b) == Pow256(a + b)
  {
    if a > 0 {
      PowersOf256(a - 1, b);
      MulAssociative(256, Pow256(a - 1), Pow256(b));
    }
  }

  /** After i shifts by eight bits. */
  function Shifted(n: Word64, i: nat): nat
    requires i <= 8
  {
    RemainderProduct(Below(n, 8 - i), Pow256(i));
    Below(n, 8 - i) * Pow256(i)
  }

  lemma ShiftedStep(n: Word64, i: nat)
    requires i < 8
    ensures Shifted(n, i) < COUNTERS
    ensures Shifted(n, i) / 0x100_0000_0000_0000 % 256 == Above(n, 7 - i) % 256
    ensures Shifted(n, i) * 256 % COUNTERS == Shifted(n, i + 1)
  {
    var k := 7 - i;
    var a, d, q, r, p := Below(n, k + 1), Above(n, k) % 256, Pow256(k), Below(n, k), Pow256(i);
    BytePowers();
    PowersOf256(k, i);
    assert a == d * q + r;
    assert Shifted(n, i) == a * p && Shifted(n, i + 1) == r * (256 * p);
    hide Above, Below, Pow256, Shifted;
    ShiftedArithmetic(a, d, q, r, p);
  }

  lemma ShiftedArithmetic(a: nat, d: nat, q: nat, r: nat, p: nat)
    requires a == d * q + r && r < q && d < 256 && p > 0 && q * p == 0x100_0000_0000_0000
    ensures a * p < COUNTERS && a * p / 0x100_0000_0000_0000 == d
    ensures a * p * 256 % COUNTERS == r * (256 * p)
  {
    var top := 0x100_0000_0000_0000;
    DistributeAdd(d * q, r, p);
    MulAssociative(d, q, p);
    assert a * p == d * top + r * p;
    Distribute(q, r, p);
    MulAtLeast(q - r, p);
    RemainderProduct(r, p);
    DivModUnique(a * p, top, d, r * p);
    assert r * (256 * p) == 256 * (r * p);
    DivModUnique(a * p * 256, COUNTERS, d, 256 * (r * p));
  }

  /** The first i bytes shifted out. */
  function BytesOut(n: Word64, i: nat): (b: seq<Byte>)
    requires i <= 8
    ensures |b| == i
  {
    BytesOf(Above(n, 8 - i), i)
  }

  lemma NothingShifted(n: Word64)
    ensures Shifted(n, 0) == n && BytesOut(n, 0) == []
  {
    BytePowers();
    AboveBelow(n, 8);
    assert Pow256(0) == 1;
    assert BytesOut(n, 0) == [];
    hide Above, Below, Pow256, BytesOf;
  }

  lemma BytesOutStep(n: Word64, i: nat)
    requires i < 8
    ensures Shifted(n, i) < COUNTERS && Shifted(n, i) * 256 % COUNTERS == Shifted(n, i + 1)
    ensures BytesOut(n, i + 1) == BytesOut(n, i) + [Shifted(n, i) / 0x100_0000_0000_0000 % 256]
  {
    var m := Above(n, 7 - i);
    assert Above(n, 8 - i) == m / 256;
    hide Shifted, Above;
    ShiftedStep(n, i);
    assert BytesOf(m, i + 1) == BytesOf(m / 256, i) + [m % 256];
    hide BytesOf;
  }

  lemma SixBytesOut(n: Word64)
    ensures BytesOut(n, 6) == BytesOf(n / 65536, 6)
    ensures Shifted(n, 6) < COUNTERS && Shifted(n, 6) / 0x100_0000_0000_0000 % 256 == n / 256 % 256
  {
    assert Above(n, 1) == n / 256 && Above(n, 2) == n / 256 / 256;
    assert n / 256 / 256 == n / 65536;
    hide Above, BytesOf, Shifted;
    ShiftedStep(n, 6);
  }

  /** Shift the counter out into the payload, most significant byte first. */
  method WriteCounter(payload: array<Byte>, n: Word64) returns (low: Byte)
    requires payload.Length == PACKET_PAYLOAD_SIZE
    modifies payload
    ensures payload[..] == BytesOf(n / 65536, 6) && low == n / 256 % 256
  {
    NothingShifted(n);
    SixBytesOut(n);
    hide Shifted, BytesOf, BytesOut;
    var tmp: Word64 := n;
    for i := 0 to PACKET_PAYLOAD_SIZE
      invariant tmp == Shifted(n, i)
      invariant payload[..i] == BytesOut(n, i)
    {
      BytesOutStep(n, i);
      ghost var before := payload[..i];
      payload[i] := tmp / 0x100_0000_0000_0000 % 256;
      tmp := tmp * 256 % COUNTERS;
      assert payload[..i + 1] == before + [payload[i]];
    }
    assert payload[..] == payload[..6];
    low := tmp / 0x100_0000_0000_0000 % 256;
  }

  /** The request a packet without counter and tag stands for. */
  function RequestOf(p: Packet): Request
  {
    if p.resyncFlag == 0 then Send(p.payload) else Resync
  }

  method Encode(mac: Mac, packet: PacketBuffer, counter: Word64) returns (newCounter: Word64)
    requires packet.Valid()
    modifies packet, packet.payload, packet.hmac
    ensures newCounter == NextCounter(counter, RequestOf(old(packet.Abs())))
    ensures packet.Abs()
         == PacketFor(mac, newCounter, RequestOf(old(packet.Abs()))).(resyncFlag := old(packet.resyncFlag))
  {
    if packet.resyncFlag == 0 {
      newCounter := (counter + 1) % COUNTERS;
      packet.counterLow := newCounter % 256;
    } else {
      newCounter := (counter + (1 * 256)) % COUNTERS;
      newCounter := newCounter - newCounter % 256;
      var low := WriteCounter(packet.payload, newCounter);
      packet.counterLow := low;
    }
    var digest := mac(newCounter, packet.payload[..]);
    forall k | 0 <= k < PACKET_HMAC_SIZE {
      packet.hmac[k] := digest[k];
    }
    assert packet.hmac[..] == digest;
  }
}
