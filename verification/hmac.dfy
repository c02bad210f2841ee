/** HMAC-SHA-256 with a key that ends in the message counter (hmac.c). */
module Hmac {
  import opened Bits
  import opened Sha256
  import opened Sha256Methods
  import Hmac433

  const DIGEST_SIZE := 32
  const IPAD: Byte := 0x36
  const OPAD: Byte := 0x5c

  // ----- RFC 2104, section 2 -----

  function KeyByte(key: seq<Byte>, i: nat): Byte
  {
    if i < |key| then key[i] else 0
  }

  /** The key, filled up with zeros to the length of a block, xored with a pad. */
  function PaddedKey(key: seq<Byte>, pad: Byte): (k: seq<Byte>)
    requires |key| <= BLOCK
    ensures |k| == BLOCK
  {
    seq(BLOCK, i requires 0 <= i < BLOCK => XorByte(KeyByte(key, i), pad))
  }

  function Rfc2104(key: seq<Byte>, text: seq<Byte>): (digest: seq<Byte>)
    requires |key| <= BLOCK
    ensures |digest| == DIGEST_SIZE
  {
    Digest(PaddedKey(key, OPAD) + Digest(PaddedKey(key, IPAD) + text))
  }

  /** The key with the counter behind it, as much as fits. */
  function KeyUsed(key: seq<Byte>, counter: Word64): (k: seq<Byte>)
    ensures |k| <= BLOCK
  {
    var all := key + LittleBytes(counter, 8);
    if |all| <= BLOCK then all else all[..BLOCK]
  }

  /** Changing one pad into the other. */
  lemma Repad(x: nat, a: nat, b: nat)
    ensures Xor(Xor(x, a), Xor(b, a)) == Xor(x, b)
  {
    hide Xor;
    XorAssoc(x, a, Xor(b, a));
    XorComm(b, a);
    XorAssoc(a, a, b);
    XorSelf(a);
    XorZero(b);
  }

  /** Key, counter and zeros, each byte xored with the inner pad. */
  method FillPad(pad: array<Byte>, key: array<Byte>, counter: Word64)
    requires pad.Length == BLOCK && pad != key
    modifies pad
    ensures pad[..] == PaddedKey(KeyUsed(key[..], counter), IPAD)
  {
    hide XorByte, LittleBytes;
    ghost var used := KeyUsed(key[..], counter);
    ghost var whole := PaddedKey(used, IPAD);
    var counterData := LittleBytes(counter, 8);
    var i := 0;
    while i < key.Length && i < BLOCK
      invariant 0 <= i <= BLOCK && i <= key.Length
      invariant pad[..i] == whole[..i]
    {
      pad[i] := XorByte(key[i], IPAD);
      assert pad[..i + 1] == whole[..i] + [pad[i]] == whole[..i + 1];
      i := i + 1;
    }
    var j := 0;
    while j < 8 && i < BLOCK
      invariant 0 <= j <= 8 && i <= BLOCK && (i == key.Length + j || (i == BLOCK && j == 0 && key.Length >= BLOCK))
      invariant pad[..i] == whole[..i]
    {
      assert used[i] == counterData[j];
      pad[i] := XorByte(counterData[j], IPAD);
      assert pad[..i + 1] == whole[..i] + [pad[i]] == whole[..i + 1];
      i, j := i + 1, j + 1;
    }
    assert i < BLOCK ==> i == |used|;
    ZeroXor();
    while i < BLOCK
      invariant i <= BLOCK && (i < BLOCK ==> i >= |used|)
      invariant pad[..i] == whole[..i]
    {
      pad[i] := IPAD;
      assert pad[..i + 1] == whole[..i] + [pad[i]] == whole[..i + 1];
      i := i + 1;
    }
    assert pad[..] == pad[..BLOCK] == whole[..BLOCK] == whole;
  }

  lemma ZeroXor()
    ensures XorByte(0, IPAD) == IPAD
  {
  }

  /** From the inner pad to the outer one, in place. */
  method ToOuterPad(pad: array<Byte>, ghost key: seq<Byte>)
    requires pad.Length == BLOCK && |key| <= BLOCK && pad[..] == PaddedKey(key, IPAD)
    modifies pad
    ensures pad[..] == PaddedKey(key, OPAD)
  {
    hide XorByte;
    ghost var inner, outer := pad[..], PaddedKey(key, OPAD);
    var i := 0;
    while i < BLOCK
      invariant 0 <= i <= BLOCK
      invariant pad[..i] == outer[..i] && pad[i..] == inner[i..]
    {
      assert pad[i] == pad[i..][0] == inner[i];
      RepadByte(KeyByte(key, i), IPAD, OPAD);
      pad[i] := XorByte(pad[i], XorByte(OPAD, IPAD));
      assert pad[..i + 1] == outer[..i] + [pad[i]] == outer[..i + 1];
      i := i + 1;
    }
    assert pad[..] == pad[..BLOCK] == outer[..BLOCK] == outer;
  }

  lemma RepadByte(x: Byte, a: Byte, b: Byte)
    ensures XorByte(XorByte(x, a), XorByte(b, a)) == XorByte(x, b)
  {
    hide Xor;
    Repad(x, a, b);
  }

  /** The hash of a block and a text. */
  method HashOf(pad: array<Byte>, text: array<Byte>, digest: array<Byte>)
    requires pad.Length == BLOCK && digest.Length == DIGEST_SIZE && pad != digest
    requires text.Length < WORDS && pad != text
    modifies digest
    ensures digest[..] == Digest(pad[..] + old(text[..]))
  {
    var ctx := new Context();
    hide Context.Valid, Digest;
    ctx.Update(pad);
    ctx.Update(text);
    assert ctx.message == pad[..] + text[..];
    ctx.Final(digest);
  }

  /** hmac_sha256; the digest buffer holds the inner hash on the way. */
  method HmacSha256(key: array<Byte>, counter: Word64, message: array<Byte>, digest: array<Byte>)
    requires digest.Length == DIGEST_SIZE && message.Length < WORDS && key != digest
    modifies digest
    ensures digest[..] == Rfc2104(KeyUsed(key[..], counter), old(message[..]))
  {
    hide PaddedKey, Digest;
    ghost var used := KeyUsed(key[..], counter);
    hide KeyUsed;
    var pad := new Byte[BLOCK](_ => 0);
    FillPad(pad, key, counter);
    HashOf(pad, message, digest);
    ToOuterPad(pad, used);
    HashOf(pad, digest, digest);
  }

  // ----- as the code of hmac433.c -----

  const KEY_SIZE_MAX := BLOCK - 8

  /** A key of at most fifty-six bytes and the counter both fit. */
  lemma KeyFits(key: seq<Byte>, counter: Word64)
    requires |key| <= KEY_SIZE_MAX
    ensures KeyUsed(key, counter) == key + LittleBytes(counter, 8)
  {
    hide LittleBytes;
  }

  /** What hmac433 uses of the secret. */
  function Secret(secret: seq<Byte>): (key: seq<Byte>)
    ensures |key| <= KEY_SIZE_MAX
  {
    if |secret| > KEY_SIZE_MAX then secret[..KEY_SIZE_MAX] else secret
  }

  /** The authentication code of a packet: the first six bytes of the digest. */
  function MacOf(secret: seq<Byte>): Hmac433.Mac
  {
    (n: Word64, payload: Hmac433.Payload) => Rfc2104(KeyUsed(Secret(secret), n), payload)[..6]
  }

  /** It is RFC 2104 under the secret followed by all eight counter bytes. */
  lemma MacIs(secret: seq<Byte>, n: Word64, payload: Hmac433.Payload)
    ensures var key := Secret(secret) + LittleBytes(n, 8);
      |key| <= BLOCK && MacOf(secret)(n, payload) == Rfc2104(key, payload)[..6]
  {
    KeyFits(Secret(secret), n);
    hide KeyUsed, LittleBytes, Rfc2104, Secret;
  }

  lemma {:induction false} LittleBytesInjective(m: nat, n: nat, k: nat)
    requires m < Pow256(k) && n < Pow256(k) && LittleBytes(m, k) == LittleBytes(n, k)
    ensures m == n
  {
    if k > 0 {
      var x, y := LittleBytes(m, k), LittleBytes(n, k);
      assert x[0] == y[0] && x[1..] == LittleBytes(m / 256, k - 1) && y[1..] == LittleBytes(n / 256, k - 1);
      LittleBytesInjective(m / 256, n / 256, k - 1);
    }
  }

  /** No two counters share a key. */
  lemma KeysDiffer(secret: seq<Byte>, m: Word64, n: Word64)
    requires m != n
    ensures KeyUsed(Secret(secret), m) != KeyUsed(Secret(secret), n)
  {
    var s := Secret(secret);
    KeyFits(s, m);
    KeyFits(s, n);
    BytePowers();
    hide Pow256, KeyUsed, LittleBytes, Secret;
    var x, y := s + LittleBytes(m, 8), s + LittleBytes(n, 8);
    if x == y {
      assert x[|s|..] == LittleBytes(m, 8) && y[|s|..] == LittleBytes(n, 8);
      LittleBytesInjective(m, n, 8);
    }
  }
}
