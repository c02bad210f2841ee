/** The constants and functions of SHA-256 tied to how FIPS 180-4 defines them:
    roots of primes, and what becomes of each bit. */
module Sha256Standard {
  import opened Bits
  import opened BitTests
  import opened Sha256
  import opened Hmac
  import Hmac433

  // ----- sections 4.2.2 and 5.3.3: fractional parts of roots -----

  /** The first sixty-four primes. */
  function Primes(): (p: seq<nat>)
    ensures |p| == 64
  {
    [2, 3, 5, 7, 11, 13, 17, 19, 23, 29, 31, 37, 41, 43, 47, 53]
    + [59, 61, 67, 71, 73, 79, 83, 89, 97, 101, 103, 107, 109, 113, 127, 131]
    + [137, 139, 149, 151, 157, 163, 167, 173, 179, 181, 191, 193, 197, 199, 211, 223]
    + [227, 229, 233, 239, 241, 251, 257, 263, 269, 271, 277, 281, 283, 293, 307, 311]
  }

  /** w holds the first 32 bits of the fractional part of the cube root of p,
      whose whole part is a. */
  predicate CubeRootBits(p: nat, a: nat, w: nat)
  {
    var x := a * 0x1_0000_0000 + w;
    a * a * a <= p < (a + 1) * (a + 1) * (a + 1)
    && x * x * x <= p * 0x1_0000_0000_0000_0000_0000_0000 < (x + 1) * (x + 1) * (x + 1)
  }

  predicate SquareRootBits(p: nat, a: nat, w: nat)
  {
    var x := a * 0x1_0000_0000 + w;
    a * a <= p < (a + 1) * (a + 1) && x * x <= p * 0x1_0000_0000_0000_0000 < (x + 1) * (x + 1)
  }

  function WholeCubeRoot(p: nat): nat
  {
    if p < 8 then 1 else if p < 27 then 2 else if p < 64 then 3 else if p < 125 then 4
    else if p < 216 then 5 else 6
  }

  function WholeSquareRoot(p: nat): nat
  {
    if p < 4 then 1 else if p < 9 then 2 else if p < 16 then 3 else 4
  }

  lemma Constants0To7(t: nat)
    requires 0 <= t < 8
    ensures CubeRootBits(Primes()[t], WholeCubeRoot(Primes()[t]), RoundConstants()[t])
  {
  }

  lemma Constants8To15(t: nat)
    requires 8 <= t < 16
    ensures CubeRootBits(Primes()[t], WholeCubeRoot(Primes()[t]), RoundConstants()[t])
  {
  }

  lemma Constants16To23(t: nat)
    requires 16 <= t < 24
    ensures CubeRootBits(Primes()[t], WholeCubeRoot(Primes()[t]), RoundConstants()[t])
  {
  }

  lemma Constants24To31(t: nat)
    requires 24 <= t < 32
    ensures CubeRootBits(Primes()[t], WholeCubeRoot(Primes()[t]), RoundConstants()[t])
  {
  }

  lemma Constants32To39(t: nat)
    requires 32 <= t < 40
    ensures CubeRootBits(Primes()[t], WholeCubeRoot(Primes()[t]), RoundConstants()[t])
  {
  }

  lemma Constants40To47(t: nat)
    requires 40 <= t < 48
    ensures CubeRootBits(Primes()[t], WholeCubeRoot(Primes()[t]), RoundConstants()[t])
  {
  }

  lemma Constants48To55(t: nat)
    requires 48 <= t < 56
    ensures CubeRootBits(Primes()[t], WholeCubeRoot(Primes()[t]), RoundConstants()[t])
  {
  }

  lemma Constants56To63(t: nat)
    requires 56 <= t < 64
    ensures CubeRootBits(Primes()[t], WholeCubeRoot(Primes()[t]), RoundConstants()[t])
  {
  }

  lemma RoundConstantsAre(t: nat)
    requires t < 64
    ensures CubeRootBits(Primes()[t], WholeCubeRoot(Primes()[t]), RoundConstants()[t])
  {
    hide CubeRootBits, Primes, RoundConstants, WholeCubeRoot;
    if t < 8 {
      Constants0To7(t);
    } else if t < 16 {
      Constants8To15(t);
    } else if t < 24 {
      Constants16To23(t);
    } else if t < 32 {
      Constants24To31(t);
    } else if t < 40 {
      Constants32To39(t);
    } else if t < 48 {
      Constants40To47(t);
    } else if t < 56 {
      Constants48To55(t);
    } else {
      Constants56To63(t);
    }
  }

  lemma InitialHashIs(t: nat)
    requires t < 8
    ensures SquareRootBits(Primes()[t], WholeSquareRoot(Primes()[t]), InitialHash()[t])
  {
  }

  // ----- sections 3.2 and 4.1.2: bit by bit -----

  lemma {:induction false} AndBitAt(a: nat, b: nat, i: nat)
    ensures TestBit(And(a, b), i) == if TestBit(a, i) == 1 && TestBit(b, i) == 1 then 1 else 0
  {
    hide TestBit;
    assert And(a, b) % 2 == (if a % 2 == 1 && b % 2 == 1 then 1 else 0) && And(a, b) / 2 == And(a / 2, b / 2);
    hide And;
    BitOfHalf(a, if i > 0 then i - 1 else 0);
    BitOfHalf(b, if i > 0 then i - 1 else 0);
    BitOfHalf(And(a, b), if i > 0 then i - 1 else 0);
    if i > 0 {
      AndBitAt(a / 2, b / 2, i - 1);
    }
  }

  /** ROTR takes bit i from n places up, around the end. */
  lemma RotrBitAt(x: Word32, n: nat, i: nat)
    requires 0 < n < 32 && i < 32
    ensures TestBit(Rotr(x, n), i) == TestBit(x, (i + n) % 32)
  {
    hide TestBit, Pow2, Or;
    WordPowers();
    var a, b := Shr32(x, n), Shl32(x, 32 - n);
    OrBitAt(a, b, i);
    ShiftedDownBitAt(x, n, Shr32(x, n), i);
    CutBitAt(x * Pow2(32 - n), 32, i);
    ShiftedUpBitAt(x, 32 - n, i);
    if i + n >= 32 {
      NoHighBits(x, 32, i + n);
    }
  }

  lemma ShrBitAt(x: Word32, n: nat, i: nat)
    requires i < 32
    ensures TestBit(Shr32(x, n), i) == if i + n < 32 then TestBit(x, i + n) else 0
  {
    hide TestBit, Pow2;
    WordPowers();
    ShiftedDownBitAt(x, n, Shr32(x, n), i);
    if i + n >= 32 {
      NoHighBits(x, 32, i + n);
    }
  }

  lemma NotBitAt(x: Word32, i: nat)
    requires i < 32
    ensures TestBit(Not(x), i) == 1 - TestBit(x, i)
  {
    WordPowers();
    hide TestBit, Pow2;
    NotBits(x, 32, i);
  }

  lemma {:induction false} NotBits(x: nat, w: nat, i: nat)
    requires i < w && x < Pow2(w)
    ensures TestBit(Pow2(w) - 1 - x, i) == 1 - TestBit(x, i)
  {
    hide TestBit;
    var p := Pow2(w - 1);
    assert Pow2(w) == 2 * p;
    hide Pow2;
    var y := 2 * p - 1 - x;
    assert y / 2 == p - 1 - x / 2 && y % 2 == 1 - x % 2;
    BitOfHalf(x, if i > 0 then i - 1 else 0);
    BitOfHalf(y, if i > 0 then i - 1 else 0);
    if i > 0 {
      NotBits(x / 2, w - 1, i - 1);
    }
  }

  lemma Xor3BitAt(a: Word32, b: Word32, c: Word32, i: nat)
    ensures TestBit(Xor32(Xor32(a, b), c), i) == (TestBit(a, i) + TestBit(b, i) + TestBit(c, i)) % 2
  {
    hide TestBit, Xor;
    XorBitAt(Xor32(a, b), c, i);
    XorBitAt(a, b, i);
  }

  /** Equations (4.4) and (4.5): sums of three rotations. */
  lemma BigSigmas(x: Word32, i: nat)
    requires i < 32
    ensures TestBit(BigSigma0(x), i)
         == (TestBit(x, (i + 2) % 32) + TestBit(x, (i + 13) % 32) + TestBit(x, (i + 22) % 32)) % 2
    ensures TestBit(BigSigma1(x), i)
         == (TestBit(x, (i + 6) % 32) + TestBit(x, (i + 11) % 32) + TestBit(x, (i + 25) % 32)) % 2
  {
    hide TestBit, Rotr, Xor32;
    RotrBitAt(x, 2, i);
    RotrBitAt(x, 13, i);
    RotrBitAt(x, 22, i);
    Xor3BitAt(Rotr(x, 2), Rotr(x, 13), Rotr(x, 22), i);
    RotrBitAt(x, 6, i);
    RotrBitAt(x, 11, i);
    RotrBitAt(x, 25, i);
    Xor3BitAt(Rotr(x, 6), Rotr(x, 11), Rotr(x, 25), i);
  }

  /** Equations (4.6) and (4.7): of two rotations and a shift. */
  lemma SmallSigmas(x: Word32, i: nat)
    requires i < 32
    ensures TestBit(SmallSigma0(x), i)
         == (TestBit(x, (i + 7) % 32) + TestBit(x, (i + 18) % 32) + if i + 3 < 32 then TestBit(x, i + 3) else 0) % 2
    ensures TestBit(SmallSigma1(x), i)
         == (TestBit(x, (i + 17) % 32) + TestBit(x, (i + 19) % 32) + if i + 10 < 32 then TestBit(x, i + 10) else 0) % 2
  {
    hide TestBit, Rotr, Xor32, Shr32;
    RotrBitAt(x, 7, i);
    RotrBitAt(x, 18, i);
    ShrBitAt(x, 3, i);
    Xor3BitAt(Rotr(x, 7), Rotr(x, 18), Shr32(x, 3), i);
    RotrBitAt(x, 17, i);
    RotrBitAt(x, 19, i);
    ShrBitAt(x, 10, i);
    Xor3BitAt(Rotr(x, 17), Rotr(x, 19), Shr32(x, 10), i);
  }

  /** Equations (4.2) and (4.3): choice and majority. */
  lemma ChooseAndMajority(x: Word32, y: Word32, z: Word32, i: nat)
    requires i < 32
    ensures TestBit(Ch(x, y, z), i) == if TestBit(x, i) == 1 then TestBit(y, i) else TestBit(z, i)
    ensures TestBit(Maj(x, y, z), i) == if TestBit(x, i) + TestBit(y, i) + TestBit(z, i) >= 2 then 1 else 0
  {
    hide TestBit, And, Not, Xor;
    XorBitAt(And(x, y), And(Not(x), z), i);
    AndBitAt(x, y, i);
    AndBitAt(Not(x), z, i);
    NotBitAt(x, i);
    hide Ch;
    Xor3BitAt(And(x, y), And(x, z), And(y, z), i);
    AndBitAt(x, z, i);
    AndBitAt(y, z, i);
  }

  // ----- section 6.2.2: words, schedule and rounds as sums modulo 2^32 -----

  /** A word of the block, first byte on top. */
  lemma WordIs(block: seq<Byte>, t: nat)
    requires 4 * t + 4 <= |block|
    ensures var a: nat, b: nat, c: nat, d: nat := block[4 * t], block[4 * t + 1], block[4 * t + 2], block[4 * t + 3];
      WordAt(block, t) == 0x100_0000 * a + 0x1_0000 * b + 0x100 * c + d
  {
    hide Or, Pow2;
    WordPowers();
    PowersOfTwo(16, 8);
    var a: nat, b: nat, c: nat, d: nat := block[4 * t], block[4 * t + 1], block[4 * t + 2], block[4 * t + 3];
    OrAdds(a, 0x1_0000 * b, 24);
    OrAdds(0x100 * a + b, 0x100 * c, 16);
    OrAdds(0x1_0000 * a + 0x100 * b + c, d, 8);
  }

  lemma OrAdds(h: nat, l: nat, k: nat)
    requires l < Pow2(k)
    ensures Or(h * Pow2(k), l) == h * Pow2(k) + l
  {
    hide Or, Pow2, ShiftLeft;
    ShiftLeftIsProduct(h, k);
    OrDisjoint(h, l, k);
    assert Pow2(k) * h == h * Pow2(k);
  }

  lemma SumMod(a: int, b: int)
    ensures (a % 0x1_0000_0000 + b) % 0x1_0000_0000 == (a + b) % 0x1_0000_0000
  {
    var q := a / 0x1_0000_0000;
    assert a % 0x1_0000_0000 + b + q * 0x1_0000_0000 == a + b;
  }

  lemma PlusPlus(a: int, b: Word32, c: Word32)
    requires b == a % 0x1_0000_0000
    ensures Plus(b, c) == (a + c) % 0x1_0000_0000
  {
    SumMod(a, c);
  }

  lemma FourSummands(a: Word32, b: Word32, c: Word32, d: Word32)
    ensures Plus(Plus(Plus(a, b), c), d) == (a + b + c + d) % 0x1_0000_0000
  {
    var x, y := Plus(a, b), Plus(Plus(a, b), c);
    assert x == (a + b) % 0x1_0000_0000;
    hide Plus;
    PlusPlus(a + b, x, c);
    PlusPlus(a + b + c, y, d);
  }

  lemma ScheduleIs(block: seq<Byte>, t: nat)
    requires |block| == 64 && 16 <= t
    ensures Schedule(block, t)
         == (SmallSigma1(Schedule(block, t - 2)) + Schedule(block, t - 7)
             + SmallSigma0(Schedule(block, t - 15)) + Schedule(block, t - 16)) % 0x1_0000_0000
  {
    hide SmallSigma0, SmallSigma1, Plus;
    FourSummands(SmallSigma1(Schedule(block, t - 2)), Schedule(block, t - 7), SmallSigma0(Schedule(block, t - 15)),
                 Schedule(block, t - 16));
  }

  /** One round, all sums taken at once. */
  lemma RoundIs(v: Working, k: Word32, w: Word32)
    ensures var sum := v.h + BigSigma1(v.e) + Ch(v.e, v.f, v.g) + k + w;
      Round(v, k, w)
      == Working((sum + BigSigma0(v.a) + Maj(v.a, v.b, v.c)) % 0x1_0000_0000, v.a, v.b, v.c,
                 (v.d + sum) % 0x1_0000_0000, v.e, v.f, v.g)
  {
    hide BigSigma0, BigSigma1, Ch, Maj, Plus;
    var s1, ch, s0, maj := BigSigma1(v.e), Ch(v.e, v.f, v.g), BigSigma0(v.a), Maj(v.a, v.b, v.c);
    var sum := v.h + s1 + ch + k + w;
    var t1 := Plus(Plus(Plus(Plus(v.h, s1), ch), k), w);
    FourSummands(v.h, s1, ch, k);
    PlusPlus(v.h + s1 + ch + k, Plus(Plus(Plus(v.h, s1), ch), k), w);
    TwoSums(sum, t1, s0, maj);
    OneSum(v.d, t1, sum);
  }

  lemma TwoSums(sum: int, t1: Word32, a: Word32, b: Word32)
    requires t1 == sum % 0x1_0000_0000
    ensures Plus(t1, Plus(a, b)) == (sum + a + b) % 0x1_0000_0000
  {
    SumMod(sum, Plus(a, b));
    SumMod(a + b, sum);
  }

  lemma OneSum(a: Word32, t1: Word32, sum: int)
    requires t1 == sum % 0x1_0000_0000
    ensures Plus(a, t1) == (a + sum) % 0x1_0000_0000
  {
    SumMod(sum, a);
  }

  /** The working variables start as the hash, and are added to it in the end. */
  lemma HashAndVariables(h: seq<Word32>, v: Working)
    requires |h| == 8
    ensures Start(h) == Working(h[0], h[1], h[2], h[3], h[4], h[5], h[6], h[7])
    ensures var last: seq<nat> := [v.a, v.b, v.c, v.d, v.e, v.f, v.g, v.h];
      forall i :: 0 <= i < 8 ==> AddTo(h, v)[i] == (h[i] + last[i]) % 0x1_0000_0000
  {
  }

  /** One block takes sixty-four rounds. */
  lemma CompressIs(h: seq<Word32>, block: seq<Byte>, rounds: nat)
    requires |h| == 8 && |block| == 64 && rounds == 64
    ensures Compress(h, block) == AddTo(h, Rounds(Start(h), block, rounds))
  {
    hide Rounds, AddTo, Start;
  }

  // ----- sections 5.1.1 and 6.2: bytes in, bytes out -----

  /** The byte after the message is 0x80, the last eight hold its length in bits,
      most significant first, and all between are zero. */
  lemma PaddingIs(length: nat, k: nat)
    requires k < |Padding(length)|
    ensures Padding(length)[k]
         == if k == 0 then 0x80
            else if k < |Padding(length)| - 8 then 0
            else 8 * length / PlaceValue(|Padding(length)| - 1 - k) % 256
  {
    hide BytesOf;
    var n := |Padding(length)|;
    if k >= n - 8 {
      BytesOfAt(8 * length, 8, n - 1 - k);
      ByteAtIs(8 * length, n - 1 - k);
    }
  }

  /** The digest is the hash word by word, most significant byte first. */
  lemma DigestIs(m: seq<Byte>, k: nat)
    requires k < 32
    ensures Digest(m)[k] == HashBlocks(m + Padding(|m|))[k / 4] / PlaceValue(3 - k % 4) % 256
  {
    hide HashBlocks, Padding, BytesOfHash;
    HashByte(HashBlocks(m + Padding(|m|)), k);
  }

  lemma HashByte(h: seq<Word32>, k: nat)
    requires |h| == 8 && k < 32
    ensures BytesOfHash(h)[k] == h[k / 4] / PlaceValue(3 - k % 4) % 256
  {
    hide PlaceValue, BytesOf, ByteAt;
    BytesOfAt(h[k / 4], 4, 3 - k % 4);
    ByteAtIs(h[k / 4], 3 - k % 4);
  }

  /** Blocks are hashed in order, from the initial value on. */
  lemma BlocksInOrder(m: seq<Byte>, block: seq<Byte>)
    requires |block| == 64
    ensures HashBlocks([]) == InitialHash() && HashBlocks(m + block) == Compress(HashBlocks(m), block)
  {
    HashMore(m, block);
    hide Compress;
  }

  // ----- section 2 of RFC 2104 -----

  /** The key is filled up with zeros; the inner pad is 0x36 and the outer 0x5c. */
  lemma HmacIs(key: seq<Byte>, text: seq<Byte>, inner: seq<Byte>, outer: seq<Byte>)
    requires |key| <= 64 && |inner| == |outer| == 64
    requires forall i :: 0 <= i < 64 ==> inner[i] == Xor(if i < |key| then key[i] else 0, 0x36)
    requires forall i :: 0 <= i < 64 ==> outer[i] == Xor(if i < |key| then key[i] else 0, 0x5c)
    ensures Rfc2104(key, text) == Digest(outer + Digest(inner + text))
  {
    hide Xor, Digest;
    assert inner == PaddedKey(key, IPAD) && outer == PaddedKey(key, OPAD);
  }

  /** Six bytes of the HMAC under at most fifty-six bytes of the secret and the
      counter, least significant byte first. */
  lemma TagIs(secret: seq<Byte>, n: Word64, payload: Hmac433.Payload, key: seq<Byte>)
    requires |key| == (if |secret| < 56 then |secret| else 56) + 8
    requires forall i :: 0 <= i < |key| - 8 ==> key[i] == secret[i]
    requires forall i :: 0 <= i < 8 ==> key[|key| - 8 + i] == n / PlaceValue(i) % 256
    ensures MacOf(secret)(n, payload) == Rfc2104(key, payload)[..6]
  {
    hide Rfc2104, PlaceValue, LittleBytes, KeyUsed;
    MacIs(secret, n, payload);
    forall i | 0 <= i < 8
      ensures LittleBytes(n, 8)[i] == n / PlaceValue(i) % 256
    {
      CounterBytes(n, i);
    }
    assert key == Secret(secret) + LittleBytes(n, 8);
  }
}
