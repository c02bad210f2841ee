/** The field the codec works in: bit vectors of five bits with exclusive or,
    multiplied through the antilog table built by rs_init. */
module GF32 {
  import opened Bits

  const NN := 31           // symbols per block, and the order of alpha
  const GFPOLY := 0x25     // x^5 + x^2 + 1

  type Sym = x: int | 0 <= x < 32

  function Add(a: Sym, b: Sym): Sym
  {
    assert Pow2(5) == 32;
    XorBelow(a, b, 5);
    Xor(a, b)
  }

  /** One step of the table generator: shift left, reduce, mask. */
  function TimesX(a: Sym): Sym
  {
    (if 2 * a >= 32 then Xor(2 * a, GFPOLY) else 2 * a) % 32
  }

  function Shl(i: nat, b: Sym): Sym
  {
    if i == 0 then b else TimesX(Shl(i - 1, b))
  }

  /** The antilog: alpha^i. */
  function Exp(i: nat): Sym
  {
    Shl(i, 1)
  }

  /** The logarithm, with nn standing for the logarithm of zero. */
  ghost function Log(x: Sym): (i: nat)
    ensures i <= NN
    ensures i == NN <==> x == 0
    ensures x != 0 ==> Exp(i) == x
  {
    if x == 0 then NN
    else
      ExpOnto(x);
      var i :| 0 <= i < NN && Exp(i) == x;
      i
  }

  /** The table product. */
  ghost function Mul(a: Sym, b: Sym): Sym
  {
    if a == 0 || b == 0 then 0 else Exp((Log(a) + Log(b)) % NN)
  }

  ghost function Inv(a: Sym): Sym
    requires a != 0
  {
    Exp(NN - Log(a))
  }

  // ----- the powers of alpha -----

  lemma ExpStep(i: nat, x: Sym)
    requires Exp(i) == x
    ensures Exp(i + 1) == TimesX(x)
  {
  }

  /** The 31 powers, one after the other. */
  lemma ExpTable()
    ensures Exp(0) == 1 && Exp(1) == 2 && Exp(2) == 4 && Exp(3) == 8 && Exp(4) == 16
    ensures Exp(5) == 5 && Exp(6) == 10 && Exp(7) == 20 && Exp(8) == 13 && Exp(9) == 26
    ensures Exp(10) == 17 && Exp(11) == 7 && Exp(12) == 14 && Exp(13) == 28 && Exp(14) == 29
    ensures Exp(15) == 31 && Exp(16) == 27 && Exp(17) == 19 && Exp(18) == 3 && Exp(19) == 6
    ensures Exp(20) == 12 && Exp(21) == 24 && Exp(22) == 21 && Exp(23) == 15 && Exp(24) == 30
    ensures Exp(25) == 25 && Exp(26) == 23 && Exp(27) == 11 && Exp(28) == 22 && Exp(29) == 9
    ensures Exp(30) == 18 && Exp(31) == 1
  {
    assert Exp(0) == 1;
    TimesXTable();
    hide Exp, TimesX;
    ExpSteps(0, 1, 2, 4, 8, 16, 5);
    ExpSteps(5, 5, 10, 20, 13, 26, 17);
    ExpSteps(10, 17, 7, 14, 28, 29, 31);
    ExpSteps(15, 31, 27, 19, 3, 6, 12);
    ExpSteps(20, 12, 24, 21, 15, 30, 25);
    ExpSteps(25, 25, 23, 11, 22, 9, 18);
    ExpStep(30, 18);
  }

  // The generator step, bit by bit, on the symbols whose top bit is shifted out.

  lemma XorNine()
    ensures Xor(8, 9) == 1 && Xor(9, 9) == 0 && Xor(10, 9) == 3 && Xor(11, 9) == 2
    ensures Xor(12, 9) == 5 && Xor(13, 9) == 4 && Xor(14, 9) == 7 && Xor(15, 9) == 6
  {
    XorSelf(0);
    hide Xor;
    XorUnroll(1, 1); XorUnroll(2, 2); XorUnroll(3, 2); XorUnroll(1, 0); XorUnroll(4, 4); XorUnroll(5, 4);
    XorUnroll(6, 4); XorUnroll(7, 4); XorUnroll(8, 9); XorUnroll(9, 9); XorUnroll(10, 9); XorUnroll(11, 9);
    XorUnroll(12, 9); XorUnroll(13, 9); XorUnroll(14, 9); XorUnroll(15, 9);
  }

  lemma TimesXLow()
    ensures TimesX(16) == 5 && TimesX(17) == 7 && TimesX(18) == 1 && TimesX(19) == 3
    ensures TimesX(20) == 13 && TimesX(21) == 15 && TimesX(22) == 9 && TimesX(23) == 11
  {
    hide Xor;
    XorNine();
    XorUnroll(16, 18); XorUnroll(17, 18); XorUnroll(18, 18); XorUnroll(19, 18); XorUnroll(20, 18);
    XorUnroll(21, 18); XorUnroll(22, 18); XorUnroll(23, 18); XorUnroll(32, 37); XorUnroll(34, 37);
    XorUnroll(36, 37); XorUnroll(38, 37); XorUnroll(40, 37); XorUnroll(42, 37); XorUnroll(44, 37);
    XorUnroll(46, 37);
  }

  lemma TimesXHigh()
    ensures TimesX(24) == 21 && TimesX(25) == 23 && TimesX(26) == 17 && TimesX(27) == 19
    ensures TimesX(28) == 29 && TimesX(29) == 31 && TimesX(30) == 25 && TimesX(31) == 27
  {
    hide Xor;
    XorNine();
    XorUnroll(24, 18); XorUnroll(25, 18); XorUnroll(26, 18); XorUnroll(27, 18); XorUnroll(28, 18);
    XorUnroll(29, 18); XorUnroll(30, 18); XorUnroll(31, 18); XorUnroll(48, 37); XorUnroll(50, 37);
    XorUnroll(52, 37); XorUnroll(54, 37); XorUnroll(56, 37); XorUnroll(58, 37); XorUnroll(60, 37);
    XorUnroll(62, 37);
  }

  lemma TimesXSmall()
    ensures forall a: Sym :: a < 16 ==> TimesX(a) == 2 * a
  {
    hide Xor;
  }

  /** The generator step on all 31 nonzero symbols. */
  lemma TimesXTable()
    ensures TimesX(1) == 2 && TimesX(2) == 4 && TimesX(3) == 6 && TimesX(4) == 8
    ensures TimesX(5) == 10 && TimesX(6) == 12 && TimesX(7) == 14 && TimesX(8) == 16
    ensures TimesX(9) == 18 && TimesX(10) == 20 && TimesX(11) == 22 && TimesX(12) == 24
    ensures TimesX(13) == 26 && TimesX(14) == 28 && TimesX(15) == 30 && TimesX(16) == 5
    ensures TimesX(17) == 7 && TimesX(18) == 1 && TimesX(19) == 3 && TimesX(20) == 13
    ensures TimesX(21) == 15 && TimesX(22) == 9 && TimesX(23) == 11 && TimesX(24) == 21
    ensures TimesX(25) == 23 && TimesX(26) == 17 && TimesX(27) == 19 && TimesX(28) == 29
    ensures TimesX(29) == 31 && TimesX(30) == 25 && TimesX(31) == 27
  {
    hide Xor, TimesX;
    TimesXSmall();
    TimesXLow();
    TimesXHigh();
  }

  lemma ExpSteps(i: nat, x0: Sym, x1: Sym, x2: Sym, x3: Sym, x4: Sym, x5: Sym)
    requires Exp(i) == x0
    requires x1 == TimesX(x0) && x2 == TimesX(x1) && x3 == TimesX(x2) && x4 == TimesX(x3) && x5 == TimesX(x4)
    ensures Exp(i + 1) == x1 && Exp(i + 2) == x2 && Exp(i + 3) == x3 && Exp(i + 4) == x4 && Exp(i + 5) == x5
  {
    hide TimesX;
    ExpStep(i, x0);
    ExpStep(i + 1, x1);
    ExpStep(i + 2, x2);
    ExpStep(i + 3, x3);
    ExpStep(i + 4, x4);
  }

  lemma ExpOnto(x: Sym)
    requires x != 0
    ensures exists i :: 0 <= i < NN && Exp(i) == x
  {
    ExpTable();
  }

  lemma ExpInjective(i: nat, j: nat)
    requires i < NN && j < NN && Exp(i) == Exp(j)
    ensures i == j
  {
    ExpTable();
    hide Exp;
  }

  lemma ExpNonzero(i: nat)
    ensures Exp(i) != 0
  {
    ExpMod(i);
    ExpTable();
    hide Exp;
  }

  lemma {:induction false} ShlAdd(i: nat, j: nat, b: Sym)
    ensures Shl(i + j, b) == Shl(i, Shl(j, b))
  {
    hide TimesX;
    if i > 0 {
      ShlAdd(i - 1, j, b);
    }
  }

  lemma {:induction false} ShlZero(i: nat)
    ensures Shl(i, 0) == 0
  {
    assert TimesX(0) == 0;
    if i > 0 {
      ShlZero(i - 1);
    }
  }

  lemma ExpPeriod(i: nat)
    ensures Exp(i + NN) == Exp(i)
  {
    ShlAdd(i, NN, 1);
    assert Exp(NN) == 1 by { ExpTable(); }
  }

  lemma {:induction false} ExpMod(i: nat)
    ensures Exp(i) == Exp(i % NN)
  {
    hide Exp;
    if i >= NN {
      var j := i - NN;
      ExpPeriod(j);
      ExpMod(j);
      assert (j + NN) % NN == j % NN;
    }
  }

  lemma LogExp(i: nat)
    ensures Log(Exp(i)) == i % NN
  {
    hide Exp;
    ExpNonzero(i);
    ExpMod(i);
    ExpInjective(Log(Exp(i)), i % NN);
  }

  // ----- exclusive or as addition -----

  lemma AddComm(a: Sym, b: Sym)
    ensures Add(a, b) == Add(b, a)
  {
    XorComm(a, b);
  }

  lemma AddAssoc(a: Sym, b: Sym, c: Sym)
    ensures Add(Add(a, b), c) == Add(a, Add(b, c))
  {
    XorAssoc(a, b, c);
  }

  lemma AddZero(a: Sym)
    ensures Add(a, 0) == a && Add(0, a) == a
  {
  }

  lemma AddSelf(a: Sym)
    ensures Add(a, a) == 0
  {
    XorSelf(a);
  }

  lemma AddCancel(a: Sym, b: Sym)
    ensures Add(Add(a, b), b) == a
    ensures Add(a, b) == 0 <==> a == b
  {
    hide Add;
    AddAssoc(a, b, b);
    AddSelf(b);
    AddZero(a);
    AddZero(b);
  }

  lemma AddSwap(a: Sym, b: Sym, c: Sym, d: Sym)
    ensures Add(Add(a, b), Add(c, d)) == Add(Add(a, c), Add(b, d))
  {
    hide Add;
    AddAssoc(a, b, Add(c, d));
    AddAssoc(b, c, d);
    AddComm(b, c);
    AddAssoc(c, b, d);
    AddAssoc(a, c, Add(b, d));
  }

  // ----- the generator step is linear -----

  lemma XorQuarter(a: nat, b: nat)
    ensures Xor(a, b) / 4 == Xor(a / 4, b / 4)
  {
    hide Xor;
    XorParts(a, b);
    XorParts(a / 2, b / 2);
    QuarterIsHalfTwice(a);
    QuarterIsHalfTwice(b);
    QuarterIsHalfTwice(Xor(a, b));
  }

  lemma QuarterIsHalfTwice(a: nat)
    ensures a / 4 == a / 2 / 2
  {
  }

  lemma XorHighBit(a: Sym, b: Sym)
    ensures Xor(a, b) / 16 == Xor(a / 16, b / 16)
  {
    hide Xor;
    XorQuarter(a, b);
    XorQuarter(a / 4, b / 4);
    assert a / 16 == a / 4 / 4 && b / 16 == b / 4 / 4;
    var c := Xor(a, b);
    assert c / 16 == c / 4 / 4;
  }

  /** What the reduction xors in. */
  function Overflow(a: Sym): nat
  {
    if a >= 16 then GFPOLY else 0
  }

  lemma TimesXForm(a: Sym)
    ensures TimesX(a) == Xor(2 * a, Overflow(a)) % 32
  {
  }

  lemma OverflowXor(a: Sym, b: Sym)
    ensures Overflow(Add(a, b)) == Xor(Overflow(a), Overflow(b))
  {
    XorHighBit(a, b);
    XorSelf(1);
    XorSelf(GFPOLY);
    assert Xor(0, GFPOLY) == GFPOLY == Xor(GFPOLY, 0);
  }

  lemma TimesXAdd(a: Sym, b: Sym)
    ensures TimesX(Add(a, b)) == Add(TimesX(a), TimesX(b))
  {
    var c: nat := Add(a, b);
    assert Pow2(5) == 32;
    hide Xor, TimesX, Overflow;
    OverflowXor(a, b);
    XorBits(a, 0, b, 0);
    TimesXForm(a);
    TimesXForm(b);
    TimesXForm(c);
    XorMod(Xor(2 * a, Overflow(a)), Xor(2 * b, Overflow(b)), 5);
    XorSwap(2 * a, Overflow(a), 2 * b, Overflow(b));
  }

  lemma XorSwap(a: nat, b: nat, c: nat, d: nat)
    ensures Xor(Xor(a, b), Xor(c, d)) == Xor(Xor(a, c), Xor(b, d))
  {
    hide Xor;
    XorAssoc(a, b, Xor(c, d));
    XorAssoc(b, c, d);
    XorComm(b, c);
    XorAssoc(c, b, d);
    XorAssoc(a, c, Xor(b, d));
  }

  lemma {:induction false} ShlLinear(i: nat, a: Sym, b: Sym)
    ensures Shl(i, Add(a, b)) == Add(Shl(i, a), Shl(i, b))
  {
    hide TimesX, Add;
    if i > 0 {
      ShlLinear(i - 1, a, b);
      TimesXAdd(Shl(i - 1, a), Shl(i - 1, b));
    }
  }

  // ----- the field laws -----

  lemma MulIsShl(a: Sym, b: Sym)
    requires a != 0
    ensures Mul(a, b) == Shl(Log(a), b)
  {
    if b == 0 {
      ShlZero(Log(a));
    } else {
      ExpMod(Log(a) + Log(b));
      ShlAdd(Log(a), Log(b), 1);
    }
  }

  lemma MulComm(a: Sym, b: Sym)
    ensures Mul(a, b) == Mul(b, a)
  {
    hide Exp;
  }

  lemma MulZero(a: Sym)
    ensures Mul(a, 0) == 0 && Mul(0, a) == 0
  {
  }

  lemma MulNonzero(a: Sym, b: Sym)
    ensures Mul(a, b) == 0 <==> a == 0 || b == 0
  {
    hide Exp;
    if a != 0 && b != 0 {
      ExpNonzero((Log(a) + Log(b)) % NN);
    }
  }

  lemma MulOne(a: Sym)
    ensures Mul(a, 1) == a && Mul(1, a) == a
  {
    assert Exp(0) == 1;
    hide Exp;
    LogExp(0);
    assert Log(1) == 0;
    MulComm(a, 1);
    if a != 0 {
      var l := Log(a);
      assert (l + 0) % NN == l;
    }
  }

  lemma LogMul(a: Sym, b: Sym)
    requires a != 0 && b != 0
    ensures Mul(a, b) != 0 && Log(Mul(a, b)) == (Log(a) + Log(b)) % NN
  {
    hide Exp;
    ExpNonzero((Log(a) + Log(b)) % NN);
    LogExp((Log(a) + Log(b)) % NN);
  }

  lemma MulAssoc(a: Sym, b: Sym, c: Sym)
    ensures Mul(Mul(a, b), c) == Mul(a, Mul(b, c))
  {
    hide Exp;
    if a != 0 && b != 0 && c != 0 {
      LogMul(a, b);
      LogMul(b, c);
      ModAddAssoc(Log(a), Log(b), Log(c));
    }
  }

  lemma ModAddAssoc(x: nat, y: nat, z: nat)
    requires x < NN && y < NN && z < NN
    ensures ((x + y) % NN + z) % NN == (x + (y + z) % NN) % NN
  {
  }

  /** Distributivity, the one law that ties the tables to exclusive or. */
  lemma MulAdd(a: Sym, b: Sym, c: Sym)
    ensures Mul(a, Add(b, c)) == Add(Mul(a, b), Mul(a, c))
    ensures Mul(Add(b, c), a) == Add(Mul(b, a), Mul(c, a))
  {
    MulComm(a, Add(b, c));
    MulComm(a, b);
    MulComm(a, c);
    if a == 0 {
      AddZero(0);
    } else {
      MulIsShl(a, b);
      MulIsShl(a, c);
      MulIsShl(a, Add(b, c));
      ShlLinear(Log(a), b, c);
    }
  }

  lemma ModSum(i: nat, j: nat)
    ensures (i % NN + j % NN) % NN == (i + j) % NN
  {
    var x, y := i % NN, j % NN;
    var q := (x + y) / NN;
    DivModUnique(i + j, NN, i / NN + j / NN + q, (x + y) % NN);
  }

  lemma MulExp(i: nat, j: nat)
    ensures Mul(Exp(i), Exp(j)) == Exp(i + j)
  {
    hide Exp;
    ExpNonzero(i);
    ExpNonzero(j);
    LogExp(i);
    LogExp(j);
    ExpMod(i + j);
    ModSum(i, j);
  }

  lemma MulInv(a: Sym)
    requires a != 0
    ensures Inv(a) != 0 && Mul(a, Inv(a)) == 1 && Mul(Inv(a), a) == 1
  {
    assert Exp(0) == 1;
    hide Exp, Mul;
    var l := Log(a);
    ExpNonzero(NN - l);
    MulExp(l, NN - l);
    ExpMod(NN);
    MulComm(a, Inv(a));
  }

  lemma MulCancel(a: Sym, b: Sym, c: Sym)
    requires a != 0 && Mul(a, b) == Mul(a, c)
    ensures b == c
  {
    hide Mul, Inv;
    MulInv(a);
    MulAssoc(Inv(a), a, b);
    MulAssoc(Inv(a), a, c);
    MulOne(b);
    MulOne(c);
  }
}
