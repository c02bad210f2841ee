/** Numbers bit by bit and byte by byte: what the operations of the sources do to
    each bit, and where each byte goes. */
module BitTests {
  import opened Bits

  lemma BitOfHalf(x: nat, i: nat)
    ensures TestBit(x, 0) == x % 2 && TestBit(x, i + 1) == TestBit(x / 2, i)
  {
    assert Pow2(0) == 1 && Pow2(i + 1) == 2 * Pow2(i);
    DivDouble(x, Pow2(i));
  }

  lemma {:induction false} XorBitAt(a: nat, b: nat, i: nat)
    ensures TestBit(Xor(a, b), i) == (TestBit(a, i) + TestBit(b, i)) % 2
  {
    hide Xor, TestBit;
    XorParts(a, b);
    BitOfHalf(a, if i > 0 then i - 1 else 0);
    BitOfHalf(b, if i > 0 then i - 1 else 0);
    BitOfHalf(Xor(a, b), if i > 0 then i - 1 else 0);
    if i > 0 {
      XorBitAt(a / 2, b / 2, i - 1);
    }
  }

  lemma {:induction false} OrBitAt(a: nat, b: nat, i: nat)
    ensures TestBit(Or(a, b), i) == if TestBit(a, i) == 1 || TestBit(b, i) == 1 then 1 else 0
  {
    hide TestBit;
    OrUnroll(a / 2, a % 2, b / 2, b % 2);
    hide Or;
    assert Or(a, b) % 2 == (if a % 2 == 1 || b % 2 == 1 then 1 else 0) && Or(a, b) / 2 == Or(a / 2, b / 2);
    BitOfHalf(a, if i > 0 then i - 1 else 0);
    BitOfHalf(b, if i > 0 then i - 1 else 0);
    BitOfHalf(Or(a, b), if i > 0 then i - 1 else 0);
    if i > 0 {
      OrBitAt(a / 2, b / 2, i - 1);
    }
  }

  lemma {:induction false} NoHighBits(x: nat, w: nat, i: nat)
    requires x < Pow2(w) && i >= w
    ensures TestBit(x, i) == 0
    decreases w
  {
    hide TestBit;
    if w == 0 {
      assert x == 0;
      ZeroBitAt(i);
    } else {
      BitOfHalf(x, i - 1);
      NoHighBits(x / 2, w - 1, i - 1);
    }
  }

  lemma ZeroBitAt(i: nat)
    ensures TestBit(0, i) == 0
  {
  }

  /** A right shift moves the bits down. */
  lemma {:induction false} ShiftedDownBitAt(x: nat, n: nat, y: nat, i: nat)
    requires y == x / Pow2(n)
    ensures TestBit(y, i) == TestBit(x, i + n)
  {
    hide TestBit;
    if n == 0 {
      assert Pow2(0) == 1;
    } else {
      assert Pow2(n) == 2 * Pow2(n - 1);
      DivDouble(x, Pow2(n - 1));
      ShiftedDownBitAt(x / 2, n - 1, y, i);
      BitOfHalf(x, i + n - 1);
    }
  }

  /** A left shift moves them up. */
  lemma {:induction false} ShiftedUpBitAt(x: nat, n: nat, i: nat)
    ensures TestBit(x * Pow2(n), i) == if i < n then 0 else TestBit(x, i - n)
  {
    hide TestBit;
    if n == 0 {
      assert Pow2(0) == 1;
    } else {
      var p := x * Pow2(n - 1);
      assert x * Pow2(n) == 2 * p by {
        assert Pow2(n) == 2 * Pow2(n - 1);
        MulAssociative(x, 2, Pow2(n - 1));
      }
      hide Pow2;
      BitOfHalf(2 * p, if i > 0 then i - 1 else 0);
      if i > 0 {
        ShiftedUpBitAt(x, n - 1, i - 1);
      }
    }
  }

  /** Cutting to w bits keeps those. */
  lemma {:induction false} CutBitAt(x: nat, w: nat, i: nat)
    requires i < w
    ensures TestBit(x % Pow2(w), i) == TestBit(x, i)
  {
    hide TestBit;
    var p := Pow2(w - 1);
    assert Pow2(w) == 2 * p;
    ModDouble(x, p);
    hide Pow2;
    BitOfHalf(x, if i > 0 then i - 1 else 0);
    BitOfHalf(x % (2 * p), if i > 0 then i - 1 else 0);
    if i > 0 {
      CutBitAt(x / 2, w - 1, i - 1);
    }
  }

  /** A power of two has one bit. */
  lemma PowerBitAt(n: nat, i: nat)
    ensures TestBit(Pow2(n), i) == if i == n then 1 else 0
  {
    hide TestBit, Pow2;
    ShiftedUpBitAt(1, n, i);
    OneBitAt(if i > n then i - n else 0);
  }

  lemma {:induction false} OneBitAt(i: nat)
    ensures TestBit(1, i) == if i == 0 then 1 else 0
  {
    hide TestBit;
    BitOfHalf(1, if i > 0 then i - 1 else 0);
    if i > 0 {
      ZeroBitAt(i - 1);
    }
  }

  // ----- byte by byte -----

  function PlaceValue(i: nat): (p: nat)
    requires i < 8
    ensures p > 0
  {
    [0x1, 0x100, 0x1_0000, 0x100_0000, 0x1_0000_0000, 0x100_0000_0000, 0x1_0000_0000_0000, 0x100_0000_0000_0000][i]
  }

  lemma DivideTwice(n: nat, p: nat)
    requires p > 0
    ensures n / 256 / p == n / (256 * p)
  {
    var q, r := n / 256 / p, n / 256 % p;
    assert n / 256 == q * p + r && n == 256 * (n / 256) + n % 256;
    assert 256 * (q * p) == q * (256 * p);
    DivModUnique(n, 256 * p, q, 256 * r + n % 256);
  }

  lemma {:induction false} ByteAtIs(n: nat, i: nat)
    requires i < 8
    ensures ByteAt(n, i) == n / PlaceValue(i) % 256
  {
    if i > 0 {
      ByteAtIs(n / 256, i - 1);
      DivideTwice(n, PlaceValue(i - 1));
      assert PlaceValue(i) == 256 * PlaceValue(i - 1);
    }
  }

  lemma {:induction false} LittleBytesAt(n: nat, k: nat, i: nat)
    requires i < k
    ensures LittleBytes(n, k)[i] == ByteAt(n, i)
  {
    if i > 0 {
      LittleBytesAt(n / 256, k - 1, i - 1);
    }
  }

  /** A counter in memory and in a key: byte i counts 256^i. */
  lemma CounterBytes(n: Word64, i: nat)
    requires i < 8
    ensures LittleBytes(n, 8)[i] == n / PlaceValue(i) % 256
  {
    LittleBytesAt(n, 8, i);
    ByteAtIs(n, i);
  }
}
