/** Polynomials over the field as coefficient sequences, lowest degree first,
    and the sums the Reed-Solomon argument is made of. */
module Poly {
  import opened GF32

  function Coef(p: seq<Sym>, i: int): Sym
  {
    if 0 <= i < |p| then p[i] else 0
  }

  ghost function Pow(x: Sym, n: nat): Sym
  {
    if n == 0 then 1 else Mul(x, Pow(x, n - 1))
  }

  /** p[0] + p[1] x + p[2] x^2 + ... */
  ghost function Eval(p: seq<Sym>, x: Sym): Sym
  {
    if p == [] then 0
    else Add(Eval(p[..|p| - 1], x), Mul(p[|p| - 1], Pow(x, |p| - 1)))
  }

  /** Horner's rule: the first coefficient belongs to the highest power. */
  ghost function Horner(p: seq<Sym>, x: Sym): Sym
  {
    if p == [] then 0
    else Add(Mul(x, Horner(p[..|p| - 1], x)), p[|p| - 1])
  }

  /** Coefficient n of the product of p and the series s. */
  ghost function Conv(p: seq<Sym>, s: seq<Sym>, n: int): Sym
  {
    if p == [] then 0
    else Add(Conv(p[..|p| - 1], s, n), Mul(p[|p| - 1], Coef(s, n - (|p| - 1))))
  }

  /** The sum of ys[l] * xs[l]^n. */
  ghost function PowSum(xs: seq<Sym>, ys: seq<Sym>, n: nat): Sym
    requires |xs| == |ys|
  {
    if xs == [] then 0
    else Add(Mul(ys[0], Pow(xs[0], n)), PowSum(xs[1..], ys[1..], n))
  }

  ghost predicate Distinct(xs: seq<Sym>)
  {
    forall i, j :: 0 <= i < j < |xs| ==> xs[i] != xs[j]
  }

  ghost predicate NoZeros(xs: seq<Sym>)
  {
    forall i :: 0 <= i < |xs| ==> xs[i] != 0
  }

  ghost predicate AllZeros(xs: seq<Sym>)
  {
    forall i :: 0 <= i < |xs| ==> xs[i] == 0
  }

  ghost function Scale(c: Sym, p: seq<Sym>): (r: seq<Sym>)
    ensures |r| == |p|
    ensures forall i :: 0 <= i < |p| ==> r[i] == Mul(c, p[i])
  {
    seq(|p|, i requires 0 <= i < |p| => Mul(c, p[i]))
  }

  function AddSeq(p: seq<Sym>, q: seq<Sym>): (r: seq<Sym>)
    requires |p| == |q|
    ensures |r| == |p|
    ensures forall i :: 0 <= i < |p| ==> r[i] == Add(p[i], q[i])
  {
    seq(|p|, i requires 0 <= i < |p| => Add(p[i], q[i]))
  }

  // ----- powers -----

  lemma {:induction false} PowNonzero(x: Sym, n: nat)
    requires x != 0
    ensures Pow(x, n) != 0
  {
    hide Mul;
    if n > 0 {
      PowNonzero(x, n - 1);
      MulNonzero(x, Pow(x, n - 1));
    }
  }

  lemma {:induction false} PowAdd(x: Sym, m: nat, n: nat)
    ensures Pow(x, m + n) == Mul(Pow(x, m), Pow(x, n))
  {
    hide Mul;
    if m == 0 {
      MulOne(Pow(x, n));
    } else {
      PowAdd(x, m - 1, n);
      MulAssoc(x, Pow(x, m - 1), Pow(x, n));
    }
  }

  function Times(n: nat, k: nat): nat
  {
    if n == 0 then 0 else k + Times(n - 1, k)
  }

  lemma {:induction false} TimesIsProduct(n: nat, k: nat)
    ensures Times(n, k) == n * k
  {
    if n > 0 {
      TimesIsProduct(n - 1, k);
      assert n * k == k + (n - 1) * k;
    }
  }

  lemma {:induction false} PowExp(k: nat, n: nat)
    ensures Pow(Exp(k), n) == Exp(Times(n, k))
  {
    assert Exp(0) == 1;
    hide Mul, Exp;
    if n > 0 {
      PowExp(k, n - 1);
      MulExp(k, Times(n - 1, k));
    }
  }

  /** (alpha^k)^n == (alpha^n)^k */
  lemma PowExpSwap(k: nat, n: nat)
    ensures Pow(Exp(k), n) == Pow(Exp(n), k)
  {
    hide Mul, Exp, Pow;
    PowExp(k, n);
    PowExp(n, k);
    TimesIsProduct(k, n);
    TimesIsProduct(n, k);
  }

  lemma {:induction false} PowInv(x: Sym, n: nat)
    requires x != 0
    ensures Mul(Pow(x, n), Pow(Inv(x), n)) == 1
  {
    hide Mul, Inv;
    if n == 0 {
      MulOne(1);
    } else {
      PowInv(x, n - 1);
      MulInv(x);
      MulSwap(x, Pow(x, n - 1), Inv(x), Pow(Inv(x), n - 1));
      MulOne(1);
    }
  }

  lemma MulSwap(a: Sym, b: Sym, c: Sym, d: Sym)
    ensures Mul(Mul(a, b), Mul(c, d)) == Mul(Mul(a, c), Mul(b, d))
  {
    hide Mul;
    MulAssoc(a, b, Mul(c, d));
    MulAssoc(b, c, d);
    MulComm(b, c);
    MulAssoc(c, b, d);
    MulAssoc(a, c, Mul(b, d));
  }

  // ----- adding a coefficient at either end -----

  lemma Snoc(p: seq<Sym>, c: Sym)
    ensures (p + [c])[..|p|] == p
  {
  }

  lemma {:induction false} HornerFront(c: Sym, p: seq<Sym>, x: Sym)
    ensures Horner([c] + p, x) == Add(Mul(c, Pow(x, |p|)), Horner(p, x))
  {
    hide Mul, Add;
    if p == [] {
      assert Horner([c], x) == Add(Mul(x, Horner([], x)), c) by {
        assert [c][..0] == [];
      }
      MulZero(x);
      MulOne(c);
      AddZero(c);
      AddComm(0, c);
      assert [c] + p == [c];
    } else {
      var q, e := p[..|p| - 1], p[|p| - 1];
      HornerFront(c, q, x);
      var w := [c] + p;
      assert w[..|w| - 1] == [c] + q;
      assert Horner(w, x) == Add(Mul(x, Horner([c] + q, x)), e);
      var a := Mul(c, Pow(x, |q|));
      MulAdd(x, a, Horner(q, x));
      AddAssoc(Mul(x, a), Mul(x, Horner(q, x)), e);
      MulAssoc(x, c, Pow(x, |q|));
      MulComm(x, c);
      MulAssoc(c, x, Pow(x, |q|));
    }
  }

  lemma {:induction false} HornerConcat(p: seq<Sym>, q: seq<Sym>, x: Sym)
    ensures Horner(p + q, x) == Add(Mul(Horner(p, x), Pow(x, |q|)), Horner(q, x))
  {
    hide Mul, Add;
    if p == [] {
      assert p + q == q;
      MulZero(Pow(x, |q|));
      AddZero(Horner(q, x));
    } else {
      var c, p' := p[0], p[1..];
      assert p == [c] + p';
      assert p + q == [c] + (p' + q);
      HornerFront(c, p' + q, x);
      HornerFront(c, p', x);
      HornerConcat(p', q, x);
      PowAdd(x, |p'|, |q|);
      var h, k := Pow(x, |q|), Mul(c, Pow(x, |p'|));
      MulAssoc(c, Pow(x, |p'|), h);
      MulAdd(h, k, Horner(p', x));
      AddAssoc(Mul(k, h), Mul(Horner(p', x), h), Horner(q, x));
    }
  }

  lemma {:induction false} HornerLinear(p: seq<Sym>, q: seq<Sym>, c: Sym, x: Sym)
    requires |p| == |q|
    ensures Horner(AddSeq(p, Scale(c, q)), x) == Add(Horner(p, x), Mul(c, Horner(q, x)))
  {
    hide Mul, Add;
    var w := AddSeq(p, Scale(c, q));
    if p == [] {
      MulZero(c);
      AddZero(0);
    } else {
      var p', q' := p[..|p| - 1], q[..|q| - 1];
      var a, b := p[|p| - 1], q[|q| - 1];
      HornerLinear(p', q', c, x);
      assert w[..|w| - 1] == AddSeq(p', Scale(c, q'));
      var hp, hq := Horner(p', x), Horner(q', x);
      MulAdd(x, hp, Mul(c, hq));
      MulAssoc(x, c, hq);
      MulComm(x, c);
      MulAssoc(c, x, hq);
      MulAdd(c, Mul(x, hq), b);
      AddSwap(Mul(x, hp), Mul(c, Mul(x, hq)), a, Mul(c, b));
    }
  }

  lemma {:induction false} EvalZeros(p: seq<Sym>, x: Sym)
    requires AllZeros(p)
    ensures Eval(p, x) == 0 && Horner(p, x) == 0
  {
    hide Mul, Add;
    if p != [] {
      EvalZeros(p[..|p| - 1], x);
      MulZero(Pow(x, |p| - 1));
      MulZero(x);
      AddZero(0);
    }
  }

  /** Zeros at the top do not change a polynomial. */
  lemma {:induction false} EvalTrim(p: seq<Sym>, k: nat, x: Sym)
    requires k <= |p| && forall i :: k <= i < |p| ==> p[i] == 0
    ensures Eval(p, x) == Eval(p[..k], x)
  {
    hide Mul, Add;
    if k == |p| {
      assert p[..k] == p;
    } else {
      var q := p[..|p| - 1];
      EvalTrim(q, k, x);
      assert q[..k] == p[..k];
      MulZero(Pow(x, |p| - 1));
      AddZero(Eval(q, x));
    }
  }

  lemma {:induction false} ConvTrim(p: seq<Sym>, k: nat, s: seq<Sym>, n: int)
    requires k <= |p| && forall i :: k <= i < |p| ==> p[i] == 0 || n < i
    ensures Conv(p, s, n) == Conv(p[..k], s, n)
  {
    hide Mul, Add;
    if k == |p| {
      assert p[..k] == p;
    } else {
      var q := p[..|p| - 1];
      ConvTrim(q, k, s, n);
      assert q[..k] == p[..k];
      MulZero(Coef(s, n - (|p| - 1)));
      MulZero(p[|p| - 1]);
      AddZero(Conv(q, s, n));
    }
  }

  /** Reversal of a polynomial: x^(|p|-1) p(1/x) is Horner's value. */
  lemma {:induction false} HornerIsReverse(p: seq<Sym>, x: Sym)
    requires p != [] && x != 0
    ensures Horner(p, x) == Mul(Pow(x, |p| - 1), Eval(p, Inv(x)))
  {
    hide Mul, Add, Inv;
    var q, c := p[..|p| - 1], p[|p| - 1];
    var z, k := Inv(x), |p| - 1;
    PowInv(x, k);
    MulComm(c, Pow(z, k));
    MulAssoc(Pow(x, k), Pow(z, k), c);
    MulOne(c);
    MulAdd(Pow(x, k), Eval(q, z), Mul(c, Pow(z, k)));
    if q == [] {
      MulZero(x);
      MulZero(Pow(x, k));
    } else {
      HornerIsReverse(q, x);
      MulAssoc(x, Pow(x, k - 1), Eval(q, z));
    }
  }
}
