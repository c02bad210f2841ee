/** ncrs_encode and ncrs_decode over byte arrays. */
module NcrsCodec {
  import opened Bits
  import opened GF32
  import opened Poly
  import opened ReedSolomon
  import opened Encoding
  import opened RsTables
  import opened RsEncoder
  import opened RsDecoder
  import opened Packing
  import opened Ncrs
  import BM = BerlekampMassey

  function OrByte(a: Byte, b: Byte): (r: Byte)
    ensures r == Or(a, b)
  {
    assert Pow2(8) == 256;
    OrBelow(a, b, 8);
    Or(a, b)
  }

  /** One bit moved k places up, within a byte. */
  function BitAt(p: Bit, k: nat): (r: Byte)
    requires k < 8
    ensures r == ShiftLeft(p, k)
  {
    assert Pow2(8) == 256;
    ShiftBelow(p, 8 - k, k, 8);
    ShiftLeft(p, k)
  }

  /** The bit the encoder extracts: shift left in eight bits, keep the top. */
  function ShiftedTopBit(b: Byte, s: nat): Bit
    requires s < 8
  {
    b * Pow2(s) % 256 / 128
  }

  /** With p s = 128, shifting by s leaves bit p at the top of the byte. */
  lemma TopAfterShift(b: nat, p: nat, s: nat)
    requires p > 0 && s > 0 && p * s == 128
    ensures b * s % 256 / 128 == b / p % 2
  {
    CancelFactor(b, p, s);
    ByteTop(b * s);
  }

  lemma ByteTop(x: nat)
    ensures x % 256 / 128 == x / 128 % 2
  {
  }

  lemma ShiftedTopBitIsBit(b: Byte, s: nat)
    requires s < 8
    ensures ShiftedTopBit(b, s) == BitOf(b, 8, s)
  {
    assert Pow2(7) == 128;
    PowersOfTwo(7 - s, s);
    TopAfterShift(b, Pow2(7 - s), Pow2(s));
  }

  /** A bit below the mask is not affected by masking. */
  lemma {:induction false} MaskedBit(b: nat, k: nat, n: nat)
    requires k < n
    ensures b / Pow2(k) % 2 == b % Pow2(n) / Pow2(k) % 2
  {
    var m, p := b % Pow2(n), Pow2(n - 1);
    assert Pow2(n) == 2 * p;
    ModDouble(b, p);
    if k > 0 {
      assert Pow2(k) == 2 * Pow2(k - 1);
      DivDouble(b, Pow2(k - 1));
      DivDouble(m, Pow2(k - 1));
      MaskedBit(b / 2, k - 1, n - 1);
    }
  }

  /** The bit the decoder extracts sees only the low five bits. */
  lemma LowBit(b: Byte, j: nat)
    requires 1 <= j <= 5
    ensures b / Pow2(j - 1) % 2 == BitOf(b % 32, 5, 5 - j)
  {
    assert Pow2(5) == 32;
    MaskedBit(b, j - 1, 5);
  }

  /** data[q] holds its five-bit field of the first k bits, for every q. */
  ghost predicate SymbolsFilled(data: seq<Byte>, bits: seq<Bit>, k: nat)
    requires k <= |bits|
  {
    |data| == MSG_SYMBOLS && forall q :: 0 <= q < MSG_SYMBOLS ==> data[q] == Field(bits, 5 * q, 5, k)
  }

  lemma SymbolBitAdded(data: seq<Byte>, bits: seq<Bit>, i: nat, j: nat, k: nat, next: seq<Byte>)
    requires i < MSG_SYMBOLS && 1 <= j <= 5 && k == 5 * i + 5 - j < |bits|
    requires SymbolsFilled(data, bits, k)
    requires next == data[i := OrByte(data[i], BitAt(bits[k], j - 1))]
    ensures SymbolsFilled(next, bits, k + 1)
  {
    hide Field, Or, ShiftLeft;
    forall q | 0 <= q < MSG_SYMBOLS
      ensures next[q] == Field(bits, 5 * q, 5, k + 1)
    {
      if q == i {
        FieldStep(bits, 5 * i, 5, k);
      } else {
        FieldOther(bits, 5 * q, 5, k);
      }
    }
  }

  method PackBits(message: array<Byte>) returns (data: array<Byte>)
    requires message.Length == MESSAGE_BYTES
    ensures fresh(data) && data.Length == MSG_SYMBOLS && data[..] == Pack(message[..])
  {
    hide Field;
    ghost var bits := MessageBits(message[..]);
    data := new Byte[MSG_SYMBOLS](_ => 0);
    NothingFilled(bits, data[..]);
    var i, k := 0, 0;
    while i < MSG_SYMBOLS
      invariant 0 <= i <= MSG_SYMBOLS && k == 5 * i
      invariant SymbolsFilled(data[..], bits, k)
    {
      var j := SYMSIZE;
      while j > 0
        invariant 0 <= j <= 5 && k == 5 * i + 5 - j
        invariant SymbolsFilled(data[..], bits, k)
      {
        ghost var before := data[..];
        var b := ShiftedTopBit(message[k / 8], k % 8);
        ShiftedTopBitIsBit(message[k / 8], k % 8);
        assert b == bits[k];
        data[i] := OrByte(data[i], BitAt(b, j - 1));
        SymbolBitAdded(before, bits, i, j, k, data[..]);
        j, k := j - 1, k + 1;
      }
      i := i + 1;
    }
    FilledAtEnd(data[..], message[..], bits);
  }

  lemma NothingFilled(bits: seq<Bit>, data: seq<Byte>)
    requires |data| == MSG_SYMBOLS && forall q :: 0 <= q < MSG_SYMBOLS ==> data[q] == 0
    ensures SymbolsFilled(data, bits, 0)
  {
  }

  lemma FilledAtEnd(data: seq<Byte>, m: seq<Byte>, bits: seq<Bit>)
    requires |m| == MESSAGE_BYTES && bits == MessageBits(m) && SymbolsFilled(data, bits, MESSAGE_BITS)
    ensures data == Pack(m)
  {
    hide Field;
    assert forall q :: 0 <= q < MSG_SYMBOLS ==> data[q] == Pack(m)[q];
  }

  /** Copy data and parity to the channel, two and one at a time. */
  method InterleaveInto(encoded: array<Byte>, data: array<Byte>, parity: array<Word16>)
    requires encoded.Length == NN && data.Length == MSG_SYMBOLS && parity.Length == NROOTS
    requires encoded != data && AllSymbols(parity[..])
    requires forall q :: 0 <= q < MSG_SYMBOLS ==> data[q] < 32
    modifies encoded
    ensures encoded[..] == Interleave(data[..] + parity[..])
  {
    var i, j := 0, 0;
    while j < NROOTS * 2
      invariant 0 <= j <= 20 && j % 2 == 0 && i == j / 2 * 3
      invariant forall n :: 0 <= n < i ==>
        encoded[n] == if n % 3 == 2 then parity[n / 3] else data[n / 3 * 2 + n % 3]
    {
      encoded[i + 0] := data[j + 0];
      encoded[i + 1] := data[j + 1];
      encoded[i + 2] := parity[j / 2];
      i, j := i + 3, j + 2;
    }
    encoded[i] := data[j];
    ghost var w := data[..] + parity[..];
    assert encoded[..] == Interleave(w) by {
      forall n | 0 <= n < NN
        ensures encoded[n] == Interleave(w)[n]
      {
        assert n % 3 == 2 ==> w[MSG_SYMBOLS + n / 3] == parity[n / 3];
        assert n % 3 != 2 ==> w[n / 3 * 2 + n % 3] == data[n / 3 * 2 + n % 3];
      }
    }
  }

  method NcrsEncode(rs: RsControl, encoded: array<Byte>, message: array<Byte>)
    requires rs.Valid() && encoded.Length == NN && message.Length == MESSAGE_BYTES && encoded != message
    modifies encoded
    ensures encoded[..] == Encoded(message[..])
  {
    hide Pack, EncodeFrom, Interleave, RsControl.Valid;
    var data := PackBits(message);
    var parity := new Word16[NROOTS](_ => 0);
    assert parity[..] == BM.Zeros(NROOTS);
    var rc := EncodeRs8(rs, data, MSG_SYMBOLS, parity);
    assert data[..MSG_SYMBOLS] == data[..];
    MaskedSymbols(Pack(message[..]));
    InterleaveInto(encoded, data, parity);
  }

  // ----- decoding -----

  /** Copy the channel symbols from offset i on into data and parity. */
  method FillWindow(padded: array<Byte>, start: nat, data: array<Byte>, parity: array<Word16>)
    requires padded.Length == 2 * MAX_SHIFT_DISTANCE + NN && start + NN <= padded.Length
    requires data.Length == MSG_SYMBOLS && parity.Length == NROOTS && data != padded
    modifies data, parity
    ensures data[..] == DataOf(padded[start..start + NN])
    ensures parity[..] == ParityOf(padded[start..start + NN])
  {
    var i, j := start, 0;
    while j < NROOTS * 2
      invariant 0 <= j <= 20 && j % 2 == 0 && i == start + j / 2 * 3
      invariant forall n :: 0 <= n < j ==> data[n] == padded[start + (n / 2 * 3 + n % 2)]
      invariant forall t :: 0 <= t < j / 2 ==> parity[t] == padded[start + (3 * t + 2)]
    {
      data[j + 0] := padded[i + 0];
      data[j + 1] := padded[i + 1];
      parity[j / 2] := padded[i + 2];
      i, j := i + 3, j + 2;
    }
    data[j] := padded[i];
    ghost var w := padded[start..start + NN];
    assert forall n :: 0 <= n < MSG_SYMBOLS ==> data[n] == DataOf(w)[n];
    assert forall t :: 0 <= t < NROOTS ==> parity[t] == ParityOf(w)[t];
  }

  lemma ReceivedIsWord(v: seq<Byte>, a: nat, data: seq<Byte>, parity: seq<Word16>)
    requires |v| == NN && a < ATTEMPTS
    requires data == DataOf(Window(v, a)) && parity == ParityOf(Window(v, a))
    ensures Received(data, parity) == WordOf(Masked(Window(v, a)))
  {
    hide Window;
    assert Masked(data) == DataOf(Masked(Window(v, a)));
    assert Masked(parity) == ParityOf(Masked(Window(v, a)));
  }

  lemma CorrectedIsAttempt(v: seq<Byte>, a: nat, data: seq<Byte>, parity: seq<Word16>, fixed: seq<Byte>)
    requires |v| == NN && a < ATTEMPTS && |fixed| == MSG_SYMBOLS
    requires data == DataOf(Window(v, a)) && parity == ParityOf(Window(v, a))
    requires forall k :: 0 <= k < MSG_SYMBOLS ==> fixed[k] == Xor(data[k], Decode(Received(data, parity)).1[k])
    ensures Decode(Received(data, parity)).0 == Attempt(v, a).0
    ensures Masked(fixed) == Attempt(v, a).1
  {
    hide Decode, Window, Xor, DataOf, ParityOf;
    ReceivedIsWord(v, a, data, parity);
    var w := Received(data, parity);
    var e := Decode(w).1;
    forall k | 0 <= k < MSG_SYMBOLS
      ensures Masked(fixed)[k] == Attempt(v, a).1[k]
    {
      XorKeepsHighBits(data[k], e[k]);
      assert w[k] == data[k] % 32;
    }
  }

  /** One attempt: fill the buffers and decode them in place. */
  method TryAlignment(rs: RsControl, padded: array<Byte>, a: nat, data: array<Byte>, parity: array<Word16>,
                      ghost v: seq<Byte>)
    returns (corrections: int)
    requires rs.Valid() && data !in rs.Repr() && parity !in rs.Repr() && data != padded
    requires data.Length == MSG_SYMBOLS && parity.Length == NROOTS
    requires |v| == NN && padded[..] == Padded(v) && a < ATTEMPTS
    modifies data, parity
    ensures corrections == Attempt(v, a).0
    ensures Masked(data[..]) == Attempt(v, a).1
  {
    hide Attempt, DataOf, ParityOf, Decode, Xor, Received, RsControl.Valid, Masked;
    var start := if a % 2 == 1 then MAX_SHIFT_DISTANCE + a / 2 else MAX_SHIFT_DISTANCE - a / 2;
    assert padded[start..start + NN] == Window(v, a);
    FillWindow(padded, start, data, parity);
    ghost var d, p := data[..], parity[..];
    corrections := DecodeRs8(rs, data, parity);
    CorrectedIsAttempt(v, a, d, p, data[..]);
  }

  ghost predicate BytesFilled(m: seq<Byte>, bits: seq<Bit>, k: nat)
    requires k <= |bits|
  {
    |m| == MESSAGE_BYTES && forall q :: 0 <= q < MESSAGE_BYTES ==> m[q] == Field(bits, 8 * q, 8, k)
  }

  lemma MessageBitAdded(m: seq<Byte>, bits: seq<Bit>, k: nat, next: seq<Byte>)
    requires |bits| == MESSAGE_BITS && k < MESSAGE_BITS && BytesFilled(m, bits, k)
    requires next == m[k / 8 := OrByte(m[k / 8], BitAt(bits[k], 7 - k % 8))]
    ensures BytesFilled(next, bits, k + 1)
  {
    hide Field, Or, ShiftLeft;
    var i := k / 8;
    assert 8 * i <= k < 8 * i + 8 && k % 8 == k - 8 * i;
    forall q | 0 <= q < MESSAGE_BYTES
      ensures next[q] == Field(bits, 8 * q, 8, k + 1)
    {
      if q == i {
        FieldStep(bits, 8 * i, 8, k);
      } else {
        FieldOther(bits, 8 * q, 8, k);
      }
    }
  }

  method UnpackBits(message: array<Byte>, data: array<Byte>)
    requires message.Length == MESSAGE_BYTES && data.Length == MSG_SYMBOLS && message != data
    modifies message
    ensures message[..] == Unpack(Masked(data[..]))
  {
    hide Field;
    ghost var bytes := data[..];
    ghost var d := Masked(bytes);
    ghost var bits := SymbolBits(d);
    forall q | 0 <= q < MESSAGE_BYTES {
      message[q] := 0;
    }
    NoBytesFilled(bits, message[..]);
    var i, k := 0, 0;
    while i < MSG_SYMBOLS
      invariant 0 <= i <= MSG_SYMBOLS && k == 5 * i
      invariant BytesFilled(message[..], bits, k) && data[..] == bytes
    {
      var j := SYMSIZE;
      while j > 0
        invariant 0 <= j <= 5 && k == 5 * i + 5 - j
        invariant BytesFilled(message[..], bits, k) && data[..] == bytes
      {
        ghost var before := message[..];
        assert k / 5 == i && k % 5 == 5 - j;
        LowBit(data[i], j);
        var b: Bit := data[i] / Pow2(j - 1) % 2;
        assert b == bits[k];
        message[k / 8] := OrByte(message[k / 8], BitAt(b, 7 - k % 8));
        MessageBitAdded(before, bits, k, message[..]);
        j, k := j - 1, k + 1;
      }
      i := i + 1;
    }
    BytesAtEnd(message[..], d, bits);
  }

  lemma NoBytesFilled(bits: seq<Bit>, m: seq<Byte>)
    requires |m| == MESSAGE_BYTES && forall q :: 0 <= q < MESSAGE_BYTES ==> m[q] == 0
    ensures BytesFilled(m, bits, 0)
  {
  }

  lemma BytesAtEnd(m: seq<Byte>, d: seq<Sym>, bits: seq<Bit>)
    requires |d| == MSG_SYMBOLS && bits == SymbolBits(d) && BytesFilled(m, bits, MESSAGE_BITS)
    ensures m == Unpack(d)
  {
    hide Field;
    assert forall q :: 0 <= q < MESSAGE_BYTES ==> m[q] == Unpack(d)[q];
  }

  lemma FirstSuccessSkips(v: seq<Byte>, a: nat)
    requires |v| == NN && a <= ATTEMPTS && forall b :: 0 <= b < a ==> Attempt(v, b).0 < 0
    ensures FirstSuccess(v, 0) == FirstSuccess(v, a)
  {
    hide Attempt;
    if a > 0 {
      FirstSuccessSkips(v, a - 1);
    }
  }

  /** Zero when no alignment decodes; otherwise what was done to recover. */
  method NcrsDecode(rs: RsControl, message: array<Byte>, encoded: array<Byte>) returns (rc: int)
    requires rs.Valid() && message.Length == MESSAGE_BYTES && encoded.Length == NN
    requires message !in rs.Repr() && message != encoded
    modifies message
    ensures rc == Decoded(encoded[..]).0
    ensures rc != 0 ==> rc > 0 && message[..] == Decoded(encoded[..]).1
    ensures rc == 0 ==> message[..] == old(message[..])
    ensures rc == 0 <==> Undecodable(old(encoded[..]))
  {
    hide Attempt, Masked, Unpack, RsControl.Valid;
    ghost var v := encoded[..];
    var padded := new Byte[2 * MAX_SHIFT_DISTANCE + NN](_ => 0);
    forall i | 0 <= i < NN {
      padded[MAX_SHIFT_DISTANCE + i] := encoded[i];
    }
    assert padded[..] == Padded(v);
    var data := new Byte[MSG_SYMBOLS](_ => 0);
    var parity := new Word16[NROOTS](_ => 0);
    var corrections := -1;
    var attempt := 0;
    while attempt < ATTEMPTS
      invariant 0 <= attempt <= ATTEMPTS && corrections < 0
      invariant forall b :: 0 <= b < attempt ==> Attempt(v, b).0 < 0
      invariant padded[..] == Padded(v) && encoded[..] == v && message[..] == old(message[..])
    {
      corrections := TryAlignment(rs, padded, attempt, data, parity, v);
      if corrections >= 0 {
        break;
      }
      attempt := attempt + 1;
    }
    FirstSuccessSkips(v, attempt);
    UndecodableAttempts(v);
    hide Undecodable;
    if corrections < 0 {
      return 0;
    }
    UnpackBits(message, data);
    rc := 1 + attempt + corrections * 10;
  }
}
