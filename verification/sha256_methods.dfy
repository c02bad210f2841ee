/** sha256.c: hashing a message that arrives in pieces. */
module Sha256Methods {
  import opened Bits
  import opened Sha256

  /** The longest message, in bytes, whose length in bits fits 64 bits. */
  const TOO_LONG := 0x2000_0000_0000_0000

  /** The sixty-four words of the message schedule. */
  method ExpandSchedule(data: array<Byte>) returns (m: array<Word32>)
    requires data.Length == BLOCK
    ensures fresh(m) && m.Length == 64 && forall t :: 0 <= t < 64 ==> m[t] == Schedule(data[..], t)
  {
    hide Or32, Shl32, SmallSigma0, SmallSigma1, Plus;
    ghost var block := data[..];
    m := new Word32[64](_ => 0);
    var i, j := 0, 0;
    while i < 16
      invariant 0 <= i <= 16 && j == 4 * i && data[..] == block
      invariant forall t :: 0 <= t < i ==> m[t] == Schedule(block, t)
    {
      assert block[4 * i] == data[j] && block[4 * i + 1] == data[j + 1];
      assert block[4 * i + 2] == data[j + 2] && block[4 * i + 3] == data[j + 3];
      m[i] := Or32(Or32(Or32(Shl32(data[j], 24), Shl32(data[j + 1], 16)), Shl32(data[j + 2], 8)), data[j + 3]);
      assert m[i] == WordAt(block, i);
      i, j := i + 1, j + 4;
    }
    hide WordAt;
    while i < 64
      invariant 16 <= i <= 64 && data[..] == block
      invariant forall t :: 0 <= t < i ==> m[t] == Schedule(block, t)
    {
      m[i] := Plus(Plus(Plus(SmallSigma1(m[i - 2]), m[i - 7]), SmallSigma0(m[i - 15])), m[i - 16]);
      i := i + 1;
    }
  }

  /** The sixty-four rounds. */
  method RunRounds(v: Working, m: array<Word32>, ghost block: seq<Byte>) returns (r: Working)
    requires |block| == BLOCK && m.Length == 64 && forall t :: 0 <= t < 64 ==> m[t] == Schedule(block, t)
    ensures r == Rounds(v, block, 64)
  {
    hide BigSigma0, BigSigma1, Ch, Maj, Plus, Schedule, RoundConstants;
    var a, b, c, d, e, f, g, h := v.a, v.b, v.c, v.d, v.e, v.f, v.g, v.h;
    var k := RoundConstants();
    for i := 0 to 64
      invariant Working(a, b, c, d, e, f, g, h) == Rounds(v, block, i)
    {
      var t1 := Plus(Plus(Plus(Plus(h, BigSigma1(e)), Ch(e, f, g)), k[i]), m[i]);
      var t2 := Plus(BigSigma0(a), Maj(a, b, c));
      h, g, f, e := g, f, e, Plus(d, t1);
      d, c, b, a := c, b, a, Plus(t1, t2);
    }
    r := Working(a, b, c, d, e, f, g, h);
  }

  class Context {
    const data: array<Byte>
    var datalen: Word32
    var bitlen: Word64
    const state: array<Word32>
    ghost var message: seq<Byte>      // everything hashed so far

    ghost predicate Shaped()
    {
      data.Length == BLOCK && state.Length == 8
    }

    /** The whole blocks of the message have been hashed, the rest is buffered. */
    ghost predicate Valid()
      reads this, data, state
    {
      && Shaped() && datalen < BLOCK && datalen <= |message| < TOO_LONG
      && var whole := |message| - datalen;
      && whole % BLOCK == 0 && bitlen == 8 * whole
      && state[..] == HashBlocks(message[..whole]) && data[..datalen] == message[whole..]
    }

    /** sha256_init. */
    constructor ()
      ensures Valid() && message == [] && fresh(data) && fresh(state)
    {
      data := new Byte[BLOCK](_ => 0);
      state := new Word32[8](i requires 0 <= i < 8 => InitialHash()[i]);
      datalen, bitlen, message := 0, 0, [];
      new;
      assert state[..] == InitialHash();
    }

    /** sha256_transform on the buffered block. */
    method Transform()
      requires Shaped()
      modifies state
      ensures state[..] == Compress(old(state[..]), data[..])
    {
      hide Rounds, Schedule, AddTo;
      var m := ExpandSchedule(data);
      var v := RunRounds(Start(state[..]), m, data[..]);
      AddWorking(v);
    }

    method AddWorking(v: Working)
      requires state.Length == 8
      modifies state
      ensures state[..] == AddTo(old(state[..]), v)
    {
      hide Plus;
      state[0] := Plus(state[0], v.a);
      state[1] := Plus(state[1], v.b);
      state[2] := Plus(state[2], v.c);
      state[3] := Plus(state[3], v.d);
      state[4] := Plus(state[4], v.e);
      state[5] := Plus(state[5], v.f);
      state[6] := Plus(state[6], v.g);
      state[7] := Plus(state[7], v.h);
    }

    /** One more byte. */
    method AddByte(b: Byte)
      requires Valid() && |message| + 1 < TOO_LONG
      modifies this`datalen, this`bitlen, this`message, data, state
      ensures Valid() && message == old(message) + [b]
    {
      hide HashBlocks, Compress;
      ghost var whole := |message| - datalen;
      ghost var front := message[..whole];
      data[datalen] := b;
      message := message + [b];
      datalen := datalen + 1;
      assert message[..whole] == front && data[..datalen] == message[whole..];
      if datalen == BLOCK {
        assert data[..] == message[whole..];
        HashMore(front, data[..]);
        assert front + data[..] == message;
        Transform();
        bitlen := bitlen + 512;
        datalen := 0;
        assert message[..|message|] == message && message[|message|..] == [];
      }
    }

    /** sha256_update. */
    method Update(bytes: array<Byte>)
      requires Valid() && bytes != data && bytes.Length < WORDS && |message| + bytes.Length < TOO_LONG
      modifies this`datalen, this`bitlen, this`message, data, state
      ensures Valid() && message == old(message) + bytes[..]
    {
      hide Valid;
      var i := 0;
      while i < bytes.Length
        invariant 0 <= i <= bytes.Length
        invariant Valid() && message == old(message) + bytes[..i]
        invariant bytes[..] == old(bytes[..])
      {
        AddByte(bytes[i]);
        assert bytes[..i + 1] == bytes[..i] + [bytes[i]];
        i := i + 1;
      }
      assert bytes[..i] == bytes[..];
    }

    /** The one bit, then zeros up to byte end. */
    method PadTo(end: nat)
      requires Shaped() && datalen < end <= BLOCK
      modifies data
      ensures data[..end] == old(data[..datalen]) + [0x80] + ZeroBytes(end - datalen - 1)
      ensures data[end..] == old(data[end..])
    {
      var i: nat := datalen;
      data[i] := 0x80;
      i := i + 1;
      while i < end
        invariant datalen < i <= end
        invariant data[..i] == old(data[..datalen]) + [0x80] + ZeroBytes(i - datalen - 1)
        invariant data[end..] == old(data[end..])
      {
        data[i] := 0x00;
        i := i + 1;
      }
    }

    /** The length of the message in the last eight bytes. */
    method PutLength()
      requires Shaped()
      modifies data
      ensures data[..] == old(data[..56]) + BytesOf(bitlen, 8)
    {
      hide ByteAt;
      data[63] := ByteAt(bitlen, 0);
      data[62] := ByteAt(bitlen, 1);
      data[61] := ByteAt(bitlen, 2);
      data[60] := ByteAt(bitlen, 3);
      data[59] := ByteAt(bitlen, 4);
      data[58] := ByteAt(bitlen, 5);
      data[57] := ByteAt(bitlen, 6);
      data[56] := ByteAt(bitlen, 7);
      EightBytesOf(bitlen, data[56..]);
      assert data[..] == data[..56] + data[56..];
    }

    /** sha256_final. */
    method Final(hash: array<Byte>)
      requires Valid() && hash.Length == 32 && hash != data
      modifies this`bitlen, data, state, hash
      ensures hash[..] == Digest(message)
    {
      hide Compress, HashBlocks, Padding, BytesOf, BytesOfHash, ZeroBytes;
      ghost var n: nat, m := datalen, message;
      ghost var front, tail := m[..|m| - n], m[|m| - n..];
      ghost var h, head := HashBlocks(front), ZeroBytes(56);
      assert m == front + tail;
      if datalen < 56 {
        PadTo(56);
        head := tail + [0x80] + ZeroBytes(55 - n);
        OneLastBlock(m, front, tail);
      } else {
        PadTo(64);
        ghost var block := tail + [0x80] + ZeroBytes(63 - n);
        assert data[..] == data[..64] == block;
        Transform();
        forall i | 0 <= i < 56 {
          data[i] := 0;
        }
        assert data[..56] == head;
        h := Compress(h, block);
        TwoLastBlocks(m, front, tail);
      }
      assert HashBlocks(m + Padding(|m|)) == Compress(h, head + BytesOf(8 * |m|, 8));
      bitlen := bitlen + datalen * 8;
      assert bitlen == 8 * |m| && data[..56] == head && state[..] == h;
      PutLength();
      Transform();
      PutHash(hash);
    }

    /** Byte i of every word of the state. */
    method PutColumn(hash: array<Byte>, i: nat)
      requires Shaped() && hash.Length == 32 && i < 4
      modifies hash
      ensures Column(state[..], hash[..], i)
      ensures forall j :: 0 <= j < 4 && j != i && old(Column(state[..], hash[..], j)) ==> Column(state[..], hash[..], j)
    {
      hide ByteAt;
      hash[i] := ByteAt(state[0], 3 - i);
      hash[i + 4] := ByteAt(state[1], 3 - i);
      hash[i + 8] := ByteAt(state[2], 3 - i);
      hash[i + 12] := ByteAt(state[3], 3 - i);
      hash[i + 16] := ByteAt(state[4], 3 - i);
      hash[i + 20] := ByteAt(state[5], 3 - i);
      hash[i + 24] := ByteAt(state[6], 3 - i);
      hash[i + 28] := ByteAt(state[7], 3 - i);
    }

    /** The state, most significant bytes first. */
    method PutHash(hash: array<Byte>)
      requires Shaped() && hash.Length == 32
      modifies hash
      ensures hash[..] == BytesOfHash(state[..])
    {
      hide ByteAt;
      ghost var h := state[..];
      var i := 0;
      while i < 4
        invariant 0 <= i <= 4 && state[..] == h
        invariant forall j :: 0 <= j < i ==> Column(h, hash[..], j)
      {
        PutColumn(hash, i);
        i := i + 1;
      }
      HashBytesAre(h, hash[..]);
    }
  }

  /** Byte j of every word. */
  ghost predicate Column(h: seq<Word32>, b: seq<Byte>, j: nat)
    requires |h| == 8 && |b| == 32 && j < 4
  {
    && b[j] == ByteAt(h[0], 3 - j) && b[j + 4] == ByteAt(h[1], 3 - j)
    && b[j + 8] == ByteAt(h[2], 3 - j) && b[j + 12] == ByteAt(h[3], 3 - j)
    && b[j + 16] == ByteAt(h[4], 3 - j) && b[j + 20] == ByteAt(h[5], 3 - j)
    && b[j + 24] == ByteAt(h[6], 3 - j) && b[j + 28] == ByteAt(h[7], 3 - j)
  }

  lemma EightBytesOf(n: nat, b: seq<Byte>)
    requires |b| == 8 && forall i :: 0 <= i < 8 ==> b[i] == ByteAt(n, 7 - i)
    ensures b == BytesOf(n, 8)
  {
    hide ByteAt, BytesOf;
    forall i | 0 <= i < 8
      ensures b[i] == BytesOf(n, 8)[i]
    {
      BytesOfAt(n, 8, 7 - i);
    }
  }

  lemma ColumnAt(h: seq<Word32>, b: seq<Byte>, j: nat, q: nat)
    requires |h| == 8 && |b| == 32 && j < 4 && q < 8 && Column(h, b, j)
    ensures b[4 * q + j] == ByteAt(h[q], 3 - j)
  {
    hide ByteAt;
  }

  lemma HashBytesAre(h: seq<Word32>, b: seq<Byte>)
    requires |h| == 8 && |b| == 32 && forall j :: 0 <= j < 4 ==> Column(h, b, j)
    ensures b == BytesOfHash(h)
  {
    hide ByteAt, BytesOf, Column;
    forall k | 0 <= k < 32
      ensures b[k] == BytesOfHash(h)[k]
    {
      ColumnAt(h, b, k % 4, k / 4);
      BytesOfAt(h[k / 4], 4, 3 - k % 4);
    }
  }

  lemma RemainderOf(f: nat, t: nat)
    requires f % BLOCK == 0 && t < BLOCK
    ensures (f + t) % BLOCK == t
  {
    DivModUnique(f + t, BLOCK, f / BLOCK, t);
  }

  /** The padding of a message that leaves t bytes in its last block. */
  lemma PaddingIs(f: nat, t: nat)
    requires f % BLOCK == 0 && t < BLOCK
    ensures var zeros := if t < 56 then ZeroBytes(55 - t) else ZeroBytes(63 - t) + ZeroBytes(56);
      Padding(f + t) == [0x80] + zeros + BytesOf(8 * (f + t), 8)
  {
    hide BytesOf;
    RemainderOf(f, t);
    if t >= 56 {
      assert ZeroBytes(119 - t) == ZeroBytes(63 - t) + ZeroBytes(56);
    }
  }

  lemma Regroup(a: seq<Byte>, b: seq<Byte>, c: seq<Byte>, d: seq<Byte>, e: seq<Byte>)
    ensures (a + b) + (c + d + e) == a + (b + c + d + e)
  {
  }

  lemma RegroupInTwo(a: seq<Byte>, b: seq<Byte>, c: seq<Byte>, d: seq<Byte>, e: seq<Byte>, f: seq<Byte>)
    ensures (a + b) + (c + (d + e) + f) == (a + (b + c + d)) + (e + f)
  {
  }

  lemma EndsInOne(m: seq<Byte>, front: seq<Byte>, tail: seq<Byte>)
    requires m == front + tail && |front| % BLOCK == 0 && |tail| < 56
    ensures m + Padding(|m|) == front + (tail + [0x80] + ZeroBytes(55 - |tail|) + BytesOf(8 * |m|, 8))
  {
    hide BytesOf, ZeroBytes, Padding;
    PaddingIs(|front|, |tail|);
    Regroup(front, tail, [0x80], ZeroBytes(55 - |tail|), BytesOf(8 * |m|, 8));
  }

  lemma EndsInTwo(m: seq<Byte>, front: seq<Byte>, tail: seq<Byte>)
    requires m == front + tail && |front| % BLOCK == 0 && 56 <= |tail| < BLOCK
    ensures m + Padding(|m|)
         == (front + (tail + [0x80] + ZeroBytes(63 - |tail|))) + (ZeroBytes(56) + BytesOf(8 * |m|, 8))
  {
    hide BytesOf, ZeroBytes, Padding;
    PaddingIs(|front|, |tail|);
    RegroupInTwo(front, tail, [0x80], ZeroBytes(63 - |tail|), ZeroBytes(56), BytesOf(8 * |m|, 8));
  }

  lemma OneLastBlock(m: seq<Byte>, front: seq<Byte>, tail: seq<Byte>)
    requires m == front + tail && |front| % BLOCK == 0 && |tail| < 56
    ensures HashBlocks(m + Padding(|m|))
         == Compress(HashBlocks(front), tail + [0x80] + ZeroBytes(55 - |tail|) + BytesOf(8 * |m|, 8))
  {
    hide Compress, HashBlocks, BytesOf, ZeroBytes, Padding;
    EndsInOne(m, front, tail);
    HashMore(front, tail + [0x80] + ZeroBytes(55 - |tail|) + BytesOf(8 * |m|, 8));
  }

  lemma TwoLastBlocks(m: seq<Byte>, front: seq<Byte>, tail: seq<Byte>)
    requires m == front + tail && |front| % BLOCK == 0 && 56 <= |tail| < BLOCK
    ensures HashBlocks(m + Padding(|m|))
         == Compress(Compress(HashBlocks(front), tail + [0x80] + ZeroBytes(63 - |tail|)),
                     ZeroBytes(56) + BytesOf(8 * |m|, 8))
  {
    hide Compress, HashBlocks, BytesOf, ZeroBytes, Padding;
    EndsInTwo(m, front, tail);
    var b1 := tail + [0x80] + ZeroBytes(63 - |tail|);
    HashMore(front, b1);
    HashMore(front + b1, ZeroBytes(56) + BytesOf(8 * |m|, 8));
  }
}
