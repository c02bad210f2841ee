/** Exclusive or and the other bit operations of the sources, on unbounded
    naturals, so that one definition serves every integer width. */
module Bits {

  type Byte = x: int | 0 <= x < 256
  type Word16 = x: int | 0 <= x < 0x1_0000
  type Word32 = x: int | 0 <= x < 0x1_0000_0000
  type Word64 = x: int | 0 <= x < 0x1_0000_0000_0000_0000

  function Xor(a: nat, b: nat): nat
    decreases a + b
  {
    if a == 0 then b
    else if b == 0 then a
    else (if a % 2 == b % 2 then 0 else 1) + 2 * Xor(a / 2, b / 2)
  }

  function Pow2(k: nat): (r: nat)
    ensures r > 0
  {
    if k == 0 then 1 else 2 * Pow2(k - 1)
  }

  lemma {:induction false} XorComm(a: nat, b: nat)
    ensures Xor(a, b) == Xor(b, a)
    decreases a + b
  {
    if a != 0 && b != 0 {
      XorComm(a / 2, b / 2);
    }
  }

  lemma XorZero(a: nat)
    ensures Xor(a, 0) == a && Xor(0, a) == a
  {
  }

  lemma {:induction false} XorSelf(a: nat)
    ensures Xor(a, a) == 0
  {
    if a != 0 {
      XorSelf(a / 2);
    }
  }

  /** The unrolled form that holds without the zero cases. */
  lemma XorUnroll(a: nat, b: nat)
    ensures Xor(a, b) == (if a % 2 == b % 2 then 0 else 1) + 2 * Xor(a / 2, b / 2)
  {
    if a == 0 {
    } else if b == 0 {
    } else {
    }
  }

  /** Lowest bit and remaining bits. */
  lemma XorParts(a: nat, b: nat)
    ensures Xor(a, b) % 2 == (a % 2 + b % 2) % 2
    ensures Xor(a, b) / 2 == Xor(a / 2, b / 2)
  {
    hide Xor;
    XorUnroll(a, b);
  }

  type Bit = x: int | 0 <= x < 2

  /** (v >> i) & 1 */
  function TestBit(v: nat, i: nat): Bit
  {
    v / Pow2(i) % 2
  }

  /** The step with the low bits already split off. */
  lemma XorBits(a: nat, p: Bit, b: nat, q: Bit)
    ensures Xor(2 * a + p, 2 * b + q) == (if p == q then 0 else 1) + 2 * Xor(a, b)
  {
    var x, y := 2 * a + p, 2 * b + q;
    assert x / 2 == a && x % 2 == p && y / 2 == b && y % 2 == q;
    XorUnroll(x, y);
  }

  lemma XorDouble(a: nat, b: nat)
    ensures Xor(2 * a, 2 * b) == 2 * Xor(a, b)
  {
    XorBits(a, 0, b, 0);
  }

  lemma {:induction false} XorAssoc(a: nat, b: nat, c: nat)
    ensures Xor(Xor(a, b), c) == Xor(a, Xor(b, c))
    decreases a + b + c
  {
    if a != 0 && b != 0 && c != 0 {
      hide Xor;
      var ab, bc := Xor(a, b), Xor(b, c);
      var l, r := Xor(ab, c), Xor(a, bc);
      XorParts(a, b);
      XorParts(b, c);
      XorParts(ab, c);
      XorParts(a, bc);
      XorAssoc(a / 2, b / 2, c / 2);
      assert l / 2 == r / 2;
      ParityAssoc(a % 2, b % 2, c % 2);
      assert l % 2 == r % 2;
      assert l == 2 * (l / 2) + l % 2 && r == 2 * (r / 2) + r % 2;
    }
  }

  lemma ParityAssoc(x: nat, y: nat, z: nat)
    requires x < 2 && y < 2 && z < 2
    ensures ((x + y) % 2 + z) % 2 == (x + (y + z) % 2) % 2
  {
  }

  lemma {:induction false} XorBelow(a: nat, b: nat, k: nat)
    requires a < Pow2(k) && b < Pow2(k)
    ensures Xor(a, b) < Pow2(k)
  {
    if a != 0 && b != 0 {
      XorBelow(a / 2, b / 2, k - 1);
    }
  }

  /** Masking commutes with exclusive or. */
  lemma {:induction false} XorMod(a: nat, b: nat, k: nat)
    ensures Xor(a, b) % Pow2(k) == Xor(a % Pow2(k), b % Pow2(k))
  {
    hide Xor;
    if k == 0 {
      assert Pow2(0) == 1;
      XorZero(0);
    } else {
      var p := Pow2(k - 1);
      assert Pow2(k) == 2 * p;
      hide Pow2;
      ModDouble(a, p);
      ModDouble(b, p);
      ModDouble(Xor(a, b), p);
      XorMod(a / 2, b / 2, k - 1);
      XorUnroll(a, b);
      XorUnroll(a % (2 * p), b % (2 * p));
    }
  }

  function ShiftLeft(h: nat, k: nat): nat
  {
    if k == 0 then h else 2 * ShiftLeft(h, k - 1)
  }

  lemma {:induction false} ShiftLeftIsProduct(h: nat, k: nat)
    ensures ShiftLeft(h, k) == Pow2(k) * h
  {
    if k > 0 {
      ShiftLeftIsProduct(h, k - 1);
    }
  }

  /** Without overlap exclusive or is addition. */
  lemma {:induction false} XorDisjoint(h: nat, l: nat, k: nat)
    requires l < Pow2(k)
    ensures Xor(ShiftLeft(h, k), l) == ShiftLeft(h, k) + l
  {
    if k == 0 {
      XorZero(h);
    } else {
      XorDisjoint(h, l / 2, k - 1);
      hide Xor;
      XorBits(ShiftLeft(h, k - 1), 0, l / 2, l % 2);
    }
  }

  lemma DivDouble(a: nat, p: nat)
    requires p > 0
    ensures a / (2 * p) == a / 2 / p
  {
    ModDouble(a, p);
    var q, m := a / 2 / p, a / 2 % p;
    assert a / 2 == q * p + m;
    assert 2 * (q * p) == q * (2 * p);
    DivModUnique(a, 2 * p, q, a % 2 + 2 * m);
  }

  lemma ModDouble(a: nat, p: nat)
    requires p > 0
    ensures a % (2 * p) == a % 2 + 2 * (a / 2 % p)
    ensures a % (2 * p) % 2 == a % 2
    ensures a % (2 * p) / 2 == a / 2 % p
  {
    var q, m := a / 2 / p, a / 2 % p;
    assert a / 2 == q * p + m;
    assert a == q * (2 * p) + (a % 2 + 2 * m) by {
      assert a == 2 * (a / 2) + a % 2;
      assert 2 * (q * p) == q * (2 * p);
    }
    DivModUnique(a, 2 * p, q, a % 2 + 2 * m);
  }

  lemma DivModUnique(a: nat, d: nat, q: nat, r: nat)
    requires d > 0 && r < d && a == q * d + r
    ensures a / d == q && a % d == r
  {
    var q', r' := a / d, a % d;
    assert a == q' * d + r' && 0 <= r' < d;
    Distribute(q, q', d);
    Distribute(q', q, d);
    if q' < q {
      MulAtLeast(q - q', d);
    } else if q < q' {
      MulAtLeast(q' - q, d);
    }
  }

  /** A common factor cancels in a quotient. */
  lemma CancelFactor(v: nat, p: nat, s: nat)
    requires p > 0 && s > 0
    ensures p * s > 0 && v * s / (p * s) == v / p
  {
    var q, r, d := v / p, v % p, p * s;
    MulAtLeast(p, s);
    MulAtLeast(p - r, s);
    Distribute(p, r, s);
    assert v * s == q * d + r * s by {
      assert v == q * p + r;
      DistributeAdd(q * p, r, s);
      MulAssociative(q, p, s);
    }
    RemainderProduct(r, s);
    DivModUnique(v * s, d, q, r * s);
  }

  lemma DistributeAdd(x: int, y: int, d: int)
    ensures (x + y) * d == x * d + y * d
  {
  }

  lemma MulAssociative(x: int, y: int, z: int)
    ensures (x * y) * z == x * (y * z)
  {
  }

  lemma RemainderProduct(r: nat, s: nat)
    ensures r * s >= 0
  {
  }

  lemma MulAtLeast(k: nat, d: nat)
    requires k > 0
    ensures k * d >= d
  {
    assert k * d == d + (k - 1) * d;
  }

  lemma Distribute(x: int, y: int, d: int)
    ensures (x - y) * d == x * d - y * d
  {
  }

  lemma {:induction false} PowersOfTwo(a: nat, b: nat)
    ensures Pow2(a + b) == Pow2(a) * Pow2(b)
  {
    if a > 0 {
      PowersOfTwo(a - 1, b);
    }
  }

  // ----- inclusive or -----

  function Or(a: nat, b: nat): nat
    decreases a + b
  {
    if a == 0 then b
    else if b == 0 then a
    else (if a % 2 == 1 || b % 2 == 1 then 1 else 0) + 2 * Or(a / 2, b / 2)
  }

  lemma OrUnroll(a: nat, p: Bit, b: nat, q: Bit)
    ensures Or(2 * a + p, 2 * b + q) == (if p == 1 || q == 1 then 1 else 0) + 2 * Or(a, b)
  {
    var x, y := 2 * a + p, 2 * b + q;
    assert x / 2 == a && x % 2 == p && y / 2 == b && y % 2 == q;
    if x == 0 {
    } else if y == 0 {
    } else {
    }
  }

  /** Or-ing a bit just below the bits already there appends it. */
  lemma {:induction false} OrAppends(h: nat, p: Bit, k: nat)
    ensures Or(ShiftLeft(h, k + 1), ShiftLeft(p, k)) == ShiftLeft(2 * h + p, k)
  {
    if k == 0 {
      assert ShiftLeft(h, 1) == 2 * ShiftLeft(h, 0) == 2 * h;
      OrUnroll(h, 0, 0, p);
    } else {
      OrAppends(h, p, k - 1);
      OrUnroll(ShiftLeft(h, k), 0, ShiftLeft(p, k - 1), 0);
    }
  }

  lemma {:induction false} OrBelow(a: nat, b: nat, k: nat)
    requires a < Pow2(k) && b < Pow2(k)
    ensures Or(a, b) < Pow2(k)
  {
    if a != 0 && b != 0 {
      OrBelow(a / 2, b / 2, k - 1);
    }
  }

  /** Without overlap inclusive or is addition. */
  lemma {:induction false} OrDisjoint(h: nat, l: nat, k: nat)
    requires l < Pow2(k)
    ensures Or(ShiftLeft(h, k), l) == ShiftLeft(h, k) + l
  {
    if k > 0 {
      OrDisjoint(h, l / 2, k - 1);
      OrUnroll(ShiftLeft(h, k - 1), 0, l / 2, l % 2);
      hide Or;
    }
  }

  // ----- bytes -----

  /** The low k bytes of n, most significant first. */
  function BytesOf(n: nat, k: nat): (b: seq<Byte>)
    ensures |b| == k
  {
    if k == 0 then [] else BytesOf(n / 256, k - 1) + [n % 256]
  }

  /** (uint8_t) (n >> 8 i) */
  function ByteAt(n: nat, i: nat): Byte
  {
    if i == 0 then n % 256 else ByteAt(n / 256, i - 1)
  }

  lemma {:induction false} BytesOfAt(n: nat, k: nat, i: nat)
    requires i < k
    ensures BytesOf(n, k)[k - 1 - i] == ByteAt(n, i)
  {
    if i > 0 {
      BytesOfAt(n / 256, k - 1, i - 1);
    }
  }

  /** The low k bytes of n, least significant first: how the processor keeps it. */
  function LittleBytes(n: nat, k: nat): (b: seq<Byte>)
    ensures |b| == k
  {
    if k == 0 then [] else [n % 256] + LittleBytes(n / 256, k - 1)
  }

  function XorByte(a: Byte, b: Byte): (r: Byte)
    ensures r == Xor(a, b)
  {
    assert Pow2(8) == 256;
    XorBelow(a, b, 8);
    Xor(a, b)
  }

  // ----- the sizes of machine words -----

  lemma WordPowers()
    ensures Pow2(8) == 0x100 && Pow2(16) == 0x1_0000 && Pow2(32) == 0x1_0000_0000
    ensures Pow2(56) == 0x100_0000_0000_0000 && Pow2(64) == 0x1_0000_0000_0000_0000
  {
    assert Pow2(8) == 0x100;
    hide Pow2;
    assert Pow2(16) == 0x1_0000 by { PowersOfTwo(8, 8); }
    assert Pow2(32) == 0x1_0000_0000 by { PowersOfTwo(16, 16); }
    assert Pow2(48) == 0x1_0000_0000_0000 by { PowersOfTwo(32, 16); }
    assert Pow2(56) == 0x100_0000_0000_0000 by { PowersOfTwo(48, 8); }
    assert Pow2(64) == 0x1_0000_0000_0000_0000 by { PowersOfTwo(56, 8); }
  }

  function Pow256(j: nat): (p: nat)
    ensures p > 0
  {
    if j == 0 then 1 else 256 * Pow256(j - 1)
  }

  lemma BytePowers()
    ensures Pow256(7) == 0x100_0000_0000_0000 && Pow256(8) == 0x1_0000_0000_0000_0000
  {
    assert Pow256(2) == 256 * Pow256(1) == 256 * 256;
    assert Pow256(4) == 256 * Pow256(3) == 256 * (256 * Pow256(2));
    assert Pow256(6) == 256 * Pow256(5) == 256 * (256 * Pow256(4));
    assert Pow256(8) == 256 * Pow256(7) == 256 * (256 * Pow256(6));
  }
}
