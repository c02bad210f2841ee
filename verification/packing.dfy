/** Bit strings, most significant bit first, and the two packings of ncrs.c:
    fourteen bytes to twenty-one five-bit symbols and back. */
module Packing {
  import opened Bits
  import opened GF32
  import opened ReedSolomon

  const MESSAGE_BYTES := 14    // DECODED_DATA_BYTES
  const MESSAGE_BITS := 105    // DECODED_DATA_BITS

  function ValueOf(bits: seq<Bit>): (v: nat)
    ensures v < Pow2(|bits|)
  {
    if bits == [] then 0 else 2 * ValueOf(bits[..|bits| - 1]) + bits[|bits| - 1]
  }

  /** Bit t of a w bit number. */
  function BitOf(v: nat, w: nat, t: nat): Bit
    requires t < w
  {
    v / Pow2(w - 1 - t) % 2
  }

  lemma BitOfIsTestBit(v: nat, w: nat, t: nat)
    requires t < w
    ensures BitOf(v, w, t) == TestBit(v, w - 1 - t)
  {
  }

  function BitsOf(v: nat, w: nat): (bits: seq<Bit>)
    ensures |bits| == w
    ensures forall t :: 0 <= t < w ==> bits[t] == BitOf(v, w, t)
  {
    seq(w, t requires 0 <= t < w => BitOf(v, w, t))
  }

  lemma {:induction false} BitOfValue(bits: seq<Bit>, t: nat)
    requires t < |bits|
    ensures BitOf(ValueOf(bits), |bits|, t) == bits[t]
  {
    var w, h, b := |bits|, ValueOf(bits[..|bits| - 1]), bits[|bits| - 1];
    if t == w - 1 {
      assert Pow2(0) == 1;
    } else {
      BitOfValue(bits[..w - 1], t);
      assert Pow2(w - 1 - t) == 2 * Pow2(w - 2 - t);
      DivDouble(2 * h + b, Pow2(w - 2 - t));
      assert (2 * h + b) / 2 == h;
    }
  }

  lemma {:induction false} ValueOfBits(v: nat, w: nat)
    requires v < Pow2(w)
    ensures ValueOf(BitsOf(v, w)) == v
  {
    if w > 0 {
      var bits := BitsOf(v, w);
      ValueOfBits(v / 2, w - 1);
      assert Pow2(0) == 1;
      var high, half := bits[..w - 1], BitsOf(v / 2, w - 1);
      forall t | 0 <= t < w - 1
        ensures high[t] == half[t]
      {
        assert Pow2(w - 1 - t) == 2 * Pow2(w - 2 - t);
        DivDouble(v, Pow2(w - 2 - t));
      }
      assert high == half;
    }
  }

  // ----- bit fields filled from a stream -----

  /** The field of w bits that begins at bit a, filled from the first k bits
      of the stream; bits not yet there are zero. */
  function Field(bits: seq<Bit>, a: nat, w: nat, k: nat): nat
    requires k <= |bits|
  {
    if k <= a then 0
    else if k <= a + w then ShiftLeft(ValueOf(bits[a..k]), a + w - k)
    else ValueOf(bits[a..a + w])
  }

  /** Or-ing in the next bit of the stream. */
  lemma FieldStep(bits: seq<Bit>, a: nat, w: nat, k: nat)
    requires a <= k < a + w && k < |bits|
    ensures Field(bits, a, w, k + 1) == Or(Field(bits, a, w, k), ShiftLeft(bits[k], a + w - 1 - k))
  {
    var r := a + w - 1 - k;
    var h := ValueOf(bits[a..k]);
    assert bits[a..k + 1][..k - a] == bits[a..k];
    assert ValueOf(bits[a..k + 1]) == 2 * h + bits[k];
    assert k == a ==> bits[a..k] == [];
    ShiftZero(r + 1);
    OrAppends(h, bits[k], r);
  }

  lemma {:induction false} ShiftZero(k: nat)
    ensures ShiftLeft(0, k) == 0
  {
    if k > 0 {
      ShiftZero(k - 1);
    }
  }

  lemma FieldOther(bits: seq<Bit>, a: nat, w: nat, k: nat)
    requires (k < a || a + w <= k) && k < |bits|
    ensures Field(bits, a, w, k + 1) == Field(bits, a, w, k)
  {
    if k == a + w {
      assert ShiftLeft(ValueOf(bits[a..k]), 0) == ValueOf(bits[a..k]);
    }
  }

  lemma {:induction false} ShiftBelow(v: nat, m: nat, k: nat, w: nat)
    requires v < Pow2(m) && w == m + k
    ensures ShiftLeft(v, k) < Pow2(w)
  {
    if k > 0 {
      ShiftBelow(v, m, k - 1, w - 1);
    }
  }

  lemma FieldBelow(bits: seq<Bit>, a: nat, w: nat, k: nat)
    requires k <= |bits|
    ensures Field(bits, a, w, k) < Pow2(w)
  {
    hide ValueOf, Pow2;
    if a < k <= a + w {
      ShiftBelow(ValueOf(bits[a..k]), k - a, a + w - k, w);
    }
  }

  // ----- messages and symbols as bit streams -----

  function MessageBits(m: seq<Byte>): (bits: seq<Bit>)
    ensures |bits| == 8 * |m|
    ensures forall k :: 0 <= k < |bits| ==> bits[k] == BitOf(m[k / 8], 8, k % 8)
  {
    seq(8 * |m|, k requires 0 <= k < 8 * |m| => BitOf(m[k / 8], 8, k % 8))
  }

  function SymbolBits(d: seq<Sym>): (bits: seq<Bit>)
    ensures |bits| == 5 * |d|
    ensures forall k :: 0 <= k < |bits| ==> bits[k] == BitOf(d[k / 5], 5, k % 5)
  {
    seq(5 * |d|, k requires 0 <= k < 5 * |d| => BitOf(d[k / 5], 5, k % 5))
  }

  /** The data symbols for a message: five bits each, 105 in all. */
  function Pack(m: seq<Byte>): (d: seq<Sym>)
    requires |m| == MESSAGE_BYTES
    ensures |d| == MSG_SYMBOLS
    ensures forall i :: 0 <= i < MSG_SYMBOLS ==> d[i] == Field(MessageBits(m), 5 * i, 5, MESSAGE_BITS)
  {
    assert Pow2(5) == 32;
    seq(MSG_SYMBOLS, i requires 0 <= i < MSG_SYMBOLS =>
      (FieldBelow(MessageBits(m), 5 * i, 5, MESSAGE_BITS); Field(MessageBits(m), 5 * i, 5, MESSAGE_BITS)))
  }

  function Unpack(d: seq<Sym>): (m: seq<Byte>)
    requires |d| == MSG_SYMBOLS
    ensures |m| == MESSAGE_BYTES
    ensures forall q :: 0 <= q < MESSAGE_BYTES ==> m[q] == Field(SymbolBits(d), 8 * q, 8, MESSAGE_BITS)
  {
    assert Pow2(8) == 256;
    seq(MESSAGE_BYTES, q requires 0 <= q < MESSAGE_BYTES =>
      (FieldBelow(SymbolBits(d), 8 * q, 8, MESSAGE_BITS); Field(SymbolBits(d), 8 * q, 8, MESSAGE_BITS)))
  }

  /** Only 105 bits are carried: of the last byte the top bit survives. */
  function Carried(m: seq<Byte>): (r: seq<Byte>)
    requires |m| == MESSAGE_BYTES
    ensures |r| == MESSAGE_BYTES
  {
    m[MESSAGE_BYTES - 1 := m[MESSAGE_BYTES - 1] / 128 * 128]
  }

  lemma PackedBits(m: seq<Byte>, k: nat)
    requires |m| == MESSAGE_BYTES && k < MESSAGE_BITS
    ensures SymbolBits(Pack(m))[k] == MessageBits(m)[k]
  {
    var i, t, bits := k / 5, k % 5, MessageBits(m);
    var f := bits[5 * i..5 * i + 5];
    assert Pack(m)[i] == ValueOf(f) by {
      if MESSAGE_BITS <= 5 * i + 5 {
        assert ShiftLeft(ValueOf(f), 0) == ValueOf(f);
      }
    }
    BitOfValue(f, t);
    assert f[t] == bits[k];
  }

  lemma WholeByte(bits: seq<Bit>, a: nat, b: Byte)
    requires |bits| == MESSAGE_BITS && a + 8 <= MESSAGE_BITS
    requires forall t :: 0 <= t < 8 ==> bits[a + t] == BitOf(b, 8, t)
    ensures Field(bits, a, 8, MESSAGE_BITS) == b
  {
    assert Pow2(8) == 256;
    var f := bits[a..a + 8];
    assert f == BitsOf(b, 8);
    ValueOfBits(b, 8);
    assert ShiftLeft(ValueOf(f), 0) == ValueOf(f);
  }

  lemma LastByte(bits: seq<Bit>, b: Byte)
    requires |bits| == MESSAGE_BITS && bits[104] == BitOf(b, 8, 0)
    ensures Field(bits, 104, 8, MESSAGE_BITS) == b / 128 * 128
  {
    var f := bits[104..105];
    assert f == [bits[104]] && f[..0] == [];
    assert ValueOf(f) == bits[104];
    TopBit(b);
  }

  lemma MessageBitAt(m: seq<Byte>, q: nat, t: nat)
    requires q < |m| && t < 8
    ensures MessageBits(m)[8 * q + t] == BitOf(m[q], 8, t)
  {
    assert (8 * q + t) / 8 == q && (8 * q + t) % 8 == t;
  }

  lemma UnpackPackByte(m: seq<Byte>, q: nat)
    requires |m| == MESSAGE_BYTES && q < MESSAGE_BYTES
    ensures Unpack(Pack(m))[q] == Carried(m)[q]
  {
    var mb, sb := MessageBits(m), SymbolBits(Pack(m));
    hide Pack, Field, BitOf;
    forall t | 0 <= t < 8 && 8 * q + t < MESSAGE_BITS
      ensures sb[8 * q + t] == BitOf(m[q], 8, t)
    {
      MessageBitAt(m, q, t);
      PackedBits(m, 8 * q + t);
    }
    hide SymbolBits, MessageBits;
    if q < MESSAGE_BYTES - 1 {
      WholeByte(sb, 8 * q, m[q]);
    } else {
      assert sb[8 * q + 0] == BitOf(m[13], 8, 0);
      LastByte(sb, m[13]);
    }
  }

  lemma TopBit(b: Byte)
    ensures BitOf(b, 8, 0) == b / 128 && ShiftLeft(b / 128, 7) == b / 128 * 128
  {
    assert Pow2(7) == 128;
    ShiftLeftIsProduct(b / 128, 7);
  }

  /** Unpacking inverts packing on the 105 bits carried. */
  lemma UnpackPack(m: seq<Byte>)
    requires |m| == MESSAGE_BYTES
    ensures Unpack(Pack(m)) == Carried(m)
  {
    hide Pack, Unpack, Carried;
    forall q | 0 <= q < MESSAGE_BYTES
      ensures Unpack(Pack(m))[q] == Carried(m)[q]
    {
      UnpackPackByte(m, q);
    }
  }
}
