/** SHA-256 as FIPS 180-4 defines it. */
module Sha256 {
  import opened Bits

  const BLOCK := 64
  const WORDS := 0x1_0000_0000

  // ----- operations on 32 bit words, section 3.2 -----

  function And(a: nat, b: nat): (r: nat)
    ensures r <= a
  {
    if a == 0 || b == 0 then 0 else (if a % 2 == 1 && b % 2 == 1 then 1 else 0) + 2 * And(a / 2, b / 2)
  }

  function Not(x: Word32): Word32
  {
    0xffffffff - x
  }

  function Xor32(a: Word32, b: Word32): Word32
  {
    WordPowers();
    XorBelow(a, b, 32);
    Xor(a, b)
  }

  function Or32(a: Word32, b: Word32): Word32
  {
    WordPowers();
    OrBelow(a, b, 32);
    Or(a, b)
  }

  function Shr32(x: Word32, n: nat): (r: Word32)
  {
    ShrBelow(x, n);
    x / Pow2(n)
  }

  lemma ShrBelow(x: nat, n: nat)
    ensures 0 <= x / Pow2(n) <= x
  {
    QuotientBelow(x, Pow2(n));
  }

  lemma QuotientBelow(x: nat, p: nat)
    requires p > 0
    ensures 0 <= x / p <= x
  {
    var q, r := x / p, x % p;
    assert x == q * p + r && 0 <= r;
    if q > 0 {
      MulAtLeast(p, q);
    }
  }

  function Shl32(x: Word32, n: nat): Word32
  {
    x * Pow2(n) % WORDS
  }

  function Rotr(x: Word32, n: nat): Word32
    requires n <= 32
  {
    Or32(Shr32(x, n), Shl32(x, 32 - n))
  }

  function Plus(a: Word32, b: Word32): Word32
  {
    (a + b) % WORDS
  }

  // ----- section 4.1.2 -----

  function Ch(x: Word32, y: Word32, z: Word32): Word32
  {
    Xor32(And(x, y), And(Not(x), z))
  }

  function Maj(x: Word32, y: Word32, z: Word32): Word32
  {
    Xor32(Xor32(And(x, y), And(x, z)), And(y, z))
  }

  function BigSigma0(x: Word32): Word32
  {
    Xor32(Xor32(Rotr(x, 2), Rotr(x, 13)), Rotr(x, 22))
  }

  function BigSigma1(x: Word32): Word32
  {
    Xor32(Xor32(Rotr(x, 6), Rotr(x, 11)), Rotr(x, 25))
  }

  function SmallSigma0(x: Word32): Word32
  {
    Xor32(Xor32(Rotr(x, 7), Rotr(x, 18)), Shr32(x, 3))
  }

  function SmallSigma1(x: Word32): Word32
  {
    Xor32(Xor32(Rotr(x, 17), Rotr(x, 19)), Shr32(x, 10))
  }

  // ----- section 4.2.2 -----

  function RoundConstants(): (k: seq<Word32>)
    ensures |k| == 64
  {
    [0x428a2f98, 0x71374491, 0xb5c0fbcf, 0xe9b5dba5, 0x3956c25b, 0x59f111f1, 0x923f82a4, 0xab1c5ed5]
    + [0xd807aa98, 0x12835b01, 0x243185be, 0x550c7dc3, 0x72be5d74, 0x80deb1fe, 0x9bdc06a7, 0xc19bf174]
    + [0xe49b69c1, 0xefbe4786, 0x0fc19dc6, 0x240ca1cc, 0x2de92c6f, 0x4a7484aa, 0x5cb0a9dc, 0x76f988da]
    + [0x983e5152, 0xa831c66d, 0xb00327c8, 0xbf597fc7, 0xc6e00bf3, 0xd5a79147, 0x06ca6351, 0x14292967]
    + [0x27b70a85, 0x2e1b2138, 0x4d2c6dfc, 0x53380d13, 0x650a7354, 0x766a0abb, 0x81c2c92e, 0x92722c85]
    + [0xa2bfe8a1, 0xa81a664b, 0xc24b8b70, 0xc76c51a3, 0xd192e819, 0xd6990624, 0xf40e3585, 0x106aa070]
    + [0x19a4c116, 0x1e376c08, 0x2748774c, 0x34b0bcb5, 0x391c0cb3, 0x4ed8aa4a, 0x5b9cca4f, 0x682e6ff3]
    + [0x748f82ee, 0x78a5636f, 0x84c87814, 0x8cc70208, 0x90befffa, 0xa4506ceb, 0xbef9a3f7, 0xc67178f2]
  }

  // ----- section 5.1.1 -----

  /** Zero bytes between the one bit and the length. */
  function ZerosFor(length: nat): (k: nat)
    ensures k < BLOCK && (length + 1 + k) % BLOCK == 56
  {
    if length % BLOCK < 56 then 55 - length % BLOCK else 119 - length % BLOCK
  }

  function ZeroBytes(k: nat): (b: seq<Byte>)
    ensures |b| == k
    ensures forall i :: 0 <= i < k ==> b[i] == 0
  {
    seq(k, _ => 0)
  }

  function Padding(length: nat): (b: seq<Byte>)
    ensures (length + |b|) % BLOCK == 0
  {
    [0x80] + ZeroBytes(ZerosFor(length)) + BytesOf(8 * length, 8)
  }

  // ----- section 5.3.3 -----

  function InitialHash(): (h: seq<Word32>)
    ensures |h| == 8
  {
    [0x6a09e667, 0xbb67ae85, 0x3c6ef372, 0xa54ff53a, 0x510e527f, 0x9b05688c, 0x1f83d9ab, 0x5be0cd19]
  }

  // ----- section 6.2.2 -----

  function WordAt(block: seq<Byte>, t: nat): Word32
    requires 4 * t + 4 <= |block|
  {
    Or32(Or32(Or32(Shl32(block[4 * t], 24), Shl32(block[4 * t + 1], 16)), Shl32(block[4 * t + 2], 8)), block[4 * t + 3])
  }

  /** The message schedule. */
  function Schedule(block: seq<Byte>, t: nat): Word32
    requires |block| == BLOCK
  {
    if t < 16 then WordAt(block, t)
    else
      Plus(Plus(Plus(SmallSigma1(Schedule(block, t - 2)), Schedule(block, t - 7)),
                SmallSigma0(Schedule(block, t - 15))),
           Schedule(block, t - 16))
  }

  datatype Working = Working(a: Word32, b: Word32, c: Word32, d: Word32, e: Word32, f: Word32, g: Word32, h: Word32)

  function Round(v: Working, k: Word32, w: Word32): Working
  {
    var t1 := Plus(Plus(Plus(Plus(v.h, BigSigma1(v.e)), Ch(v.e, v.f, v.g)), k), w);
    var t2 := Plus(BigSigma0(v.a), Maj(v.a, v.b, v.c));
    Working(Plus(t1, t2), v.a, v.b, v.c, Plus(v.d, t1), v.e, v.f, v.g)
  }

  function Rounds(v: Working, block: seq<Byte>, t: nat): Working
    requires |block| == BLOCK && t <= 64
  {
    if t == 0 then v else Round(Rounds(v, block, t - 1), RoundConstants()[t - 1], Schedule(block, t - 1))
  }

  function Start(h: seq<Word32>): Working
    requires |h| == 8
  {
    Working(h[0], h[1], h[2], h[3], h[4], h[5], h[6], h[7])
  }

  function AddTo(h: seq<Word32>, v: Working): (r: seq<Word32>)
    requires |h| == 8
    ensures |r| == 8
  {
    [Plus(h[0], v.a), Plus(h[1], v.b), Plus(h[2], v.c), Plus(h[3], v.d),
     Plus(h[4], v.e), Plus(h[5], v.f), Plus(h[6], v.g), Plus(h[7], v.h)]
  }

  function Compress(h: seq<Word32>, block: seq<Byte>): (r: seq<Word32>)
    requires |h| == 8 && |block| == BLOCK
    ensures |r| == 8
  {
    AddTo(h, Rounds(Start(h), block, 64))
  }

  /** The hash value of a message of whole blocks. */
  function HashBlocks(m: seq<Byte>): (h: seq<Word32>)
    ensures |h| == 8
  {
    if |m| < BLOCK then InitialHash() else Compress(HashBlocks(m[..|m| - BLOCK]), m[|m| - BLOCK..])
  }

  /** The words, most significant bytes first. */
  function BytesOfHash(h: seq<Word32>): (b: seq<Byte>)
    requires |h| == 8
    ensures |b| == 32
  {
    seq(32, k requires 0 <= k < 32 => BytesOf(h[k / 4], 4)[k % 4])
  }

  /** The digest of a message of less than 2^61 bytes. */
  function Digest(m: seq<Byte>): (b: seq<Byte>)
    ensures |b| == 32
  {
    BytesOfHash(HashBlocks(m + Padding(|m|)))
  }

  /** One more block. */
  lemma HashMore(m: seq<Byte>, block: seq<Byte>)
    requires |block| == BLOCK
    ensures HashBlocks(m + block) == Compress(HashBlocks(m), block)
  {
    assert (m + block)[..|m + block| - BLOCK] == m && (m + block)[|m + block| - BLOCK..] == block;
    hide Compress;
  }

  // ----- the shape of the padding -----

  /** The padding is the shortest that fits: it adds one block or none. */
  lemma PaddingIsShortest(length: nat)
    ensures var n := length + |Padding(length)|;
      n % BLOCK == 0 && length + 9 <= n < length + 9 + BLOCK
  {
  }

  lemma {:induction false} LengthIsInjective(a: nat, b: nat, k: nat)
    requires BytesOf(a, k) == BytesOf(b, k) && a < Pow256(k) && b < Pow256(k)
    ensures a == b
  {
    if k > 0 {
      var x, y := BytesOf(a, k), BytesOf(b, k);
      assert x[..k - 1] == BytesOf(a / 256, k - 1) && y[..k - 1] == BytesOf(b / 256, k - 1);
      assert x[k - 1] == y[k - 1];
      LengthIsInjective(a / 256, b / 256, k - 1);
    }
  }

  /** Different messages are padded to different blocks. */
  lemma PaddingIsInjective(m: seq<Byte>, n: seq<Byte>)
    requires |m| < 0x2000_0000_0000_0000 && |n| < 0x2000_0000_0000_0000
    requires m + Padding(|m|) == n + Padding(|n|)
    ensures m == n
  {
    hide BytesOf, Pow256;
    var x, y := m + Padding(|m|), n + Padding(|n|);
    assert x[|x| - 8..] == BytesOf(8 * |m|, 8) && y[|y| - 8..] == BytesOf(8 * |n|, 8);
    BytePowers();
    hide Padding;
    LengthIsInjective(8 * |m|, 8 * |n|, 8);
    assert x[..|m|] == m && y[..|n|] == n;
  }
}
