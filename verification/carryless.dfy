/** The table product is multiplication of bit polynomials modulo
    x^5 + x^2 + 1. */
module Carryless {
  import opened Bits
  import opened GF32

  /** Multiplication without carries: bit i of a adds b shifted i places. */
  function Clmul(a: nat, b: nat): nat
  {
    if a == 0 then 0 else Xor(if a % 2 == 1 then b else 0, 2 * Clmul(a / 2, b))
  }

  lemma ClmulUnroll(h: nat, p: Bit, b: nat)
    ensures Clmul(2 * h + p, b) == Xor(if p == 1 then b else 0, 2 * Clmul(h, b))
  {
    var a := 2 * h + p;
    assert a / 2 == h && a % 2 == p;
    if a == 0 {
      assert Clmul(h, b) == 0 && Xor(0, 0) == 0;
    }
  }

  /** Shifting the top bit out leaves five bits. */
  lemma ShiftedOut(a: Sym)
    requires a >= 16
    ensures Xor(2 * a, GFPOLY) < 32
  {
    XorSelf(1);
    hide Xor;
    XorQuarter(2 * a, GFPOLY);
    XorQuarter(a / 2, 9);
    XorParts(a / 8, 2);
    assert 2 * a / 4 == a / 2 && a / 2 / 4 == a / 8 && a / 8 / 2 == 1;
  }

  lemma DoubleIsTimesX(a: Sym)
    ensures 2 * a == Xor(TimesX(a), Overflow(a))
  {
    hide Xor, TimesX;
    TimesXForm(a);
    XorZero(2 * a);
    XorZero(TimesX(a));
    if a >= 16 {
      ShiftedOut(a);
      XorAssoc(2 * a, GFPOLY, GFPOLY);
      XorSelf(GFPOLY);
    }
  }

  lemma ShlOne(b: Sym)
    ensures Shl(1, b) == TimesX(b)
  {
    assert Shl(0, b) == b;
    hide TimesX;
  }

  lemma MulTimesX(c: Sym, b: Sym)
    ensures Mul(TimesX(c), b) == TimesX(Mul(c, b))
  {
    assert Exp(1) == 2 by { ExpTable(); }
    hide Exp, Mul, TimesX, Shl;
    LogExp(1);
    ShlOne(c);
    ShlOne(Mul(c, b));
    MulIsShl(2, c);
    MulIsShl(2, Mul(c, b));
    MulAssoc(2, c, b);
  }

  lemma MulStep(a: Sym, b: Sym)
    ensures a / 2 < 16
    ensures Mul(a, b) == Add(if a % 2 == 1 then b else 0, TimesX(Mul(a / 2, b)))
  {
    var h, p := a / 2, a % 2;
    assert TimesX(h) == 2 * h by { TimesXSmall(); }
    XorBits(0, p, h, 0);
    hide Mul, TimesX;
    assert Add(p, TimesX(h)) == a;
    MulAdd(b, p, TimesX(h));
    MulTimesX(h, b);
    MulOne(b);
    MulZero(b);
  }

  lemma CarrylessStep(h: nat, p: Bit, b: Sym, q: nat, r: Sym) returns (q': nat)
    requires Clmul(h, b) == Xor(Clmul(q, GFPOLY), r)
    ensures Clmul(2 * h + p, b)
         == Xor(Clmul(q', GFPOLY), Xor(if p == 1 then b else 0, TimesX(r)))
  {
    var g: Bit := if r >= 16 then 1 else 0;
    assert Overflow(r) == if g == 1 then GFPOLY else 0;
    hide Clmul, Xor, TimesX, Overflow;
    q' := 2 * q + g;
    ClmulUnroll(h, p, b);
    ClmulUnroll(q, g, GFPOLY);
    XorDouble(Clmul(q, GFPOLY), r);
    DoubleIsTimesX(r);
    XorInterchange(if p == 1 then b else 0, 2 * Clmul(q, GFPOLY), TimesX(r), Overflow(r));
  }

  lemma {:induction false} MulIsCarryless(a: Sym, b: Sym)
    ensures exists q: nat :: Clmul(a, b) == Xor(Clmul(q, GFPOLY), Mul(a, b))
  {
    if a == 0 {
      assert Clmul(a, b) == Xor(Clmul(0, GFPOLY), Mul(a, b));
    } else {
      hide Mul, Clmul, Xor, TimesX;
      var h := a / 2;
      MulIsCarryless(h, b);
      var q: nat :| Clmul(h, b) == Xor(Clmul(q, GFPOLY), Mul(h, b));
      MulStep(a, b);
      var q' := CarrylessStep(h, a % 2, b, q, Mul(h, b));
      assert 2 * h + a % 2 == a;
    }
  }

  lemma XorInterchange(x: nat, c: nat, t: nat, o: nat)
    ensures Xor(x, Xor(c, Xor(t, o))) == Xor(Xor(o, c), Xor(x, t))
  {
    hide Xor;
    XorAssoc(c, t, o);
    XorComm(Xor(c, t), o);
    XorAssoc(o, c, t);
    XorAssoc(x, Xor(o, c), t);
    XorComm(x, Xor(o, c));
    XorAssoc(Xor(o, c), x, t);
  }
}
