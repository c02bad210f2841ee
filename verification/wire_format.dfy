/** Where everything is on the air: bytes of a packet, bits of a symbol, symbols
    of a message. */
module WireFormat {
  import opened Bits
  import opened BitTests
  import opened GF32
  import opened Encoding
  import opened Packing
  import opened Ncrs
  import opened Hmac433
  import opened Packets

  /** The fourteen bytes of a packet: six of payload, the low byte of the counter
      (of a resynchronisation the upper seven bytes in their place), six of
      authentication code, and the flag. */
  lemma PacketLayout(mac: Mac, n: Word64, r: Request, k: nat)
    requires k < 6
    ensures var b := PacketBytes(PacketFor(mac, n, r));
      match r
      case Send(payload) =>
        b[k] == payload[k] && b[6] == n % 256 && b[7 + k] == mac(n, payload)[k] && b[13] == 0
      case Resync =>
        && b[k] == n / PlaceValue(7 - k) % 256 && b[6] == n / 256 % 256 && b[7 + k] == mac(n, b[..6])[k]
        && b[13] == 0x80
  {
    hide BytesOf, PlaceValue;
    if r.Resync? {
      TopBytes(n, k);
      var p := PacketFor(mac, n, r);
      assert PacketBytes(p)[..6] == p.payload;
    }
  }

  lemma TopBytes(n: Word64, k: nat)
    requires k < 6
    ensures BytesOf(n / 65536, 6)[k] == n / PlaceValue(7 - k) % 256
  {
    BytesOfAt(n / 65536, 6, 5 - k);
    ByteAtIs(n, 7 - k);
    assert ByteAt(n, 7 - k) == ByteAt(n / 256, 6 - k) == ByteAt(n / 256 / 256, 5 - k);
    assert n / 256 / 256 == n / 65536;
  }

  /** Bit k of a message, the top bit of its first byte being the first, is bit
      k % 5 of data symbol k / 5, again from the top. */
  lemma BitLayout(m: seq<Byte>, k: nat)
    requires |m| == 14 && k < 105
    ensures TestBit(Pack(m)[k / 5], 4 - k % 5) == TestBit(m[k / 8], 7 - k % 8)
  {
    hide Pack, BitOf, TestBit;
    PackedBits(m, k);
    BitOfIsTestBit(Pack(m)[k / 5], 5, k % 5);
    BitOfIsTestBit(m[k / 8], 8, k % 8);
  }

  /** Two data symbols, then one for parity, ten times, and the last data symbol. */
  lemma SymbolLayout(m: seq<Byte>, q: nat)
    requires |m| == 14 && q < 10
    ensures Encoded(m)[3 * q] == Pack(m)[2 * q] && Encoded(m)[3 * q + 1] == Pack(m)[2 * q + 1]
    ensures Encoded(m)[3 * q + 2] == Parity(Pack(m))[q] && Encoded(m)[30] == Pack(m)[20]
  {
    hide Pack, Parity, Interleave;
    var d, p := Pack(m), Parity(Pack(m));
    assert Encoded(m) == Interleave(d + p);
    hide Encoded;
    InterleaveAt(d, p, q, 0);
    InterleaveAt(d, p, q, 1);
    InterleaveAt(d, p, q, 2);
    InterleaveAt(d, p, 10, 0);
  }

  lemma InterleaveAt(d: seq<Sym>, p: seq<Sym>, t: nat, u: nat)
    requires |d| == 21 && |p| == 10 && u < 3 && 3 * t + u < 31
    ensures Interleave(d + p)[3 * t + u] == if u == 2 then p[t] else d[2 * t + u]
  {
    DivModUnique(3 * t + u, 3, t, u);
  }
}
