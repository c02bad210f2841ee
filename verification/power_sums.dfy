/** Sums of powers of distinct field elements: the Vandermonde argument, and
    what a recurrence does to such a sum. */
module PowerSums {
  import opened GF32
  import opened Poly

  /** ws[l] = ys[l] * (xs[l] + a) */
  ghost function Eliminate(xs: seq<Sym>, ys: seq<Sym>, a: Sym): (ws: seq<Sym>)
    requires |xs| == |ys|
    ensures |ws| == |xs|
    ensures forall l :: 0 <= l < |xs| ==> ws[l] == Mul(ys[l], Add(xs[l], a))
  {
    seq(|xs|, l requires 0 <= l < |xs| => Mul(ys[l], Add(xs[l], a)))
  }

  lemma {:induction false} EliminateSum(xs: seq<Sym>, ys: seq<Sym>, a: Sym, n: nat)
    requires |xs| == |ys|
    ensures PowSum(xs, Eliminate(xs, ys, a), n)
         == Add(PowSum(xs, ys, n + 1), Mul(a, PowSum(xs, ys, n)))
  {
    hide Mul, Add;
    if xs == [] {
      MulZero(a);
      AddZero(0);
    } else {
      var x, y, p := xs[0], ys[0], Pow(xs[0], n);
      var ws := Eliminate(xs, ys, a);
      EliminateSum(xs[1..], ys[1..], a, n);
      assert ws[1..] == Eliminate(xs[1..], ys[1..], a);
      assert Mul(ws[0], p) == Add(Mul(y, Mul(x, p)), Mul(a, Mul(y, p))) by {
        MulAssoc(y, Add(x, a), p);
        MulAdd(p, x, a);
        MulAdd(y, Mul(x, p), Mul(a, p));
        MulAssoc(y, a, p);
        MulComm(y, a);
        MulAssoc(a, y, p);
      }
      var s0, s1 := PowSum(xs[1..], ys[1..], n), PowSum(xs[1..], ys[1..], n + 1);
      MulAdd(a, Mul(y, p), s0);
      AddSwap(Mul(y, Mul(x, p)), Mul(a, Mul(y, p)), s1, Mul(a, s0));
    }
  }

  lemma {:induction false} PowSumZeros(xs: seq<Sym>, ys: seq<Sym>, n: nat)
    requires |xs| == |ys| && AllZeros(ys)
    ensures PowSum(xs, ys, n) == 0
  {
    hide Mul, Add;
    if xs != [] {
      PowSumZeros(xs[1..], ys[1..], n);
      MulZero(Pow(xs[0], n));
      AddZero(0);
    }
  }

  /** Distinct nonzero points whose power sums vanish at as many consecutive
      exponents as there are points have only zero weights. */
  lemma {:induction false} Vandermonde(xs: seq<Sym>, ys: seq<Sym>, m: nat)
    requires |xs| == |ys| && Distinct(xs) && NoZeros(xs)
    requires forall n :: m <= n < m + |xs| ==> PowSum(xs, ys, n) == 0
    ensures AllZeros(ys)
  {
    hide Mul, Add;
    if xs != [] {
      var a, tx, ty := xs[0], xs[1..], ys[1..];
      var ws := Eliminate(xs, ys, a);
      assert ws[1..] == Eliminate(tx, ty, a);
      forall n | m <= n < m + |tx|
        ensures PowSum(tx, ws[1..], n) == 0
      {
        EliminateSum(xs, ys, a, n);
        MulZero(a);
        AddZero(0);
        AddSelf(a);
        MulZero(ys[0]);
        MulZero(Pow(xs[0], n));
        AddZero(PowSum(tx, ws[1..], n));
        assert ws[0] == 0;
      }
      Vandermonde(tx, ws[1..], m);
      forall l | 0 <= l < |ty|
        ensures ty[l] == 0
      {
        assert ws[l + 1] == 0 && xs[0] != xs[l + 1];
        assert ws[l + 1] == Mul(ty[l], Add(tx[l], a));
        MulNonzero(ty[l], Add(tx[l], a));
        AddCancel(tx[l], a);
      }
      PowSumZeros(tx, ty, m);
      AddZero(Mul(ys[0], Pow(a, m)));
      PowNonzero(a, m);
      MulNonzero(ys[0], Pow(a, m));
      assert PowSum(xs, ys, m) == 0;
      assert forall l :: 0 < l < |ys| ==> ys[l] == ty[l - 1];
    }
  }

  /** ws[l] = ys[l] * xs[l]^(|p|-1) p(1/xs[l]) */
  ghost function Filtered(p: seq<Sym>, xs: seq<Sym>, ys: seq<Sym>): (ws: seq<Sym>)
    requires |xs| == |ys|
    ensures |ws| == |xs|
    ensures forall l :: 0 <= l < |xs| ==> ws[l] == Mul(ys[l], Horner(p, xs[l]))
  {
    seq(|xs|, l requires 0 <= l < |xs| => Mul(ys[l], Horner(p, xs[l])))
  }

  /** The first N terms of s are the power sums from exponent 1 on. */
  ghost predicate IsSeries(s: seq<Sym>, xs: seq<Sym>, ys: seq<Sym>)
    requires |xs| == |ys|
  {
    forall n :: 0 <= n < |s| ==> s[n] == PowSum(xs, ys, n + 1)
  }

  lemma {:induction false} FilteredSnoc(p: seq<Sym>, c: Sym, xs: seq<Sym>, ys: seq<Sym>, k: nat)
    requires |xs| == |ys|
    ensures PowSum(xs, Filtered(p + [c], xs, ys), k)
         == Add(PowSum(xs, Filtered(p, xs, ys), k + 1), Mul(c, PowSum(xs, ys, k)))
  {
    hide Mul, Add;
    if xs == [] {
      MulZero(c);
      AddZero(0);
    } else {
      var x, y, q, h := xs[0], ys[0], Pow(xs[0], k), Horner(p, xs[0]);
      var ws, us := Filtered(p + [c], xs, ys), Filtered(p, xs, ys);
      FilteredSnoc(p, c, xs[1..], ys[1..], k);
      assert ws[1..] == Filtered(p + [c], xs[1..], ys[1..]);
      assert us[1..] == Filtered(p, xs[1..], ys[1..]);
      assert Horner(p + [c], x) == Add(Mul(x, h), c) by { Snoc(p, c); }
      assert Mul(ws[0], q) == Add(Mul(us[0], Mul(x, q)), Mul(c, Mul(y, q))) by {
        MulAssoc(y, Add(Mul(x, h), c), q);
        MulAdd(q, Mul(x, h), c);
        MulAdd(y, Mul(Mul(x, h), q), Mul(c, q));
        MulComm(x, h);
        MulAssoc(h, x, q);
        MulAssoc(y, h, Mul(x, q));
        MulAssoc(y, c, q);
        MulComm(y, c);
        MulAssoc(c, y, q);
      }
      var s0, s1 := PowSum(xs[1..], ys[1..], k), PowSum(xs[1..], us[1..], k + 1);
      MulAdd(c, Mul(y, q), s0);
      AddSwap(Mul(us[0], Mul(x, q)), Mul(c, Mul(y, q)), s1, Mul(c, s0));
    }
  }

  /** Running a recurrence over a power series reweights the points. */
  lemma {:induction false} ConvOfSeries(p: seq<Sym>, s: seq<Sym>, xs: seq<Sym>, ys: seq<Sym>, n: int)
    requires |xs| == |ys| && IsSeries(s, xs, ys)
    requires |p| - 1 <= n < |s|
    ensures Conv(p, s, n) == PowSum(xs, Filtered(p, xs, ys), (n + 2 - |p|) as nat)
  {
    hide Mul, Add;
    var k: nat := n + 2 - |p|;
    if p == [] {
      forall l | 0 <= l < |xs|
        ensures Filtered(p, xs, ys)[l] == 0
      {
        MulZero(ys[l]);
      }
      PowSumZeros(xs, Filtered(p, xs, ys), k);
    } else {
      var q, c := p[..|p| - 1], p[|p| - 1];
      assert q + [c] == p;
      ConvOfSeries(q, s, xs, ys, n);
      FilteredSnoc(q, c, xs, ys, k);
      assert Coef(s, n - |q|) == PowSum(xs, ys, k);
    }
  }

  // ----- the polynomial whose reversal vanishes exactly at the points -----

  /** p * (1 + a x) */
  ghost function TimesLinear(p: seq<Sym>, a: Sym): (r: seq<Sym>)
    ensures |r| == |p| + 1
  {
    AddSeq(p + [0], Scale(a, [0] + p))
  }

  ghost function Locator(xs: seq<Sym>): (r: seq<Sym>)
    ensures |r| == |xs| + 1
  {
    if xs == [] then [1] else TimesLinear(Locator(xs[1..]), xs[0])
  }

  lemma HornerTimesLinear(p: seq<Sym>, a: Sym, x: Sym)
    ensures Horner(TimesLinear(p, a), x) == Mul(Add(x, a), Horner(p, x))
  {
    hide Mul, Add;
    HornerLinear(p + [0], [0] + p, a, x);
    Snoc(p, 0);
    AddZero(Mul(x, Horner(p, x)));
    HornerFront(0, p, x);
    MulZero(Pow(x, |p|));
    AddZero(Horner(p, x));
    MulAdd(Horner(p, x), x, a);
  }

  lemma {:induction false} LocatorHead(xs: seq<Sym>)
    ensures Locator(xs)[0] == 1
  {
    hide Mul, Add;
    if xs != [] {
      LocatorHead(xs[1..]);
      MulZero(xs[0]);
      AddZero(1);
    }
  }

  lemma {:induction false} LocatorRoots(xs: seq<Sym>, l: nat)
    requires l < |xs|
    ensures Horner(Locator(xs), xs[l]) == 0
  {
    hide Mul, Add;
    HornerTimesLinear(Locator(xs[1..]), xs[0], xs[l]);
    if l == 0 {
      AddSelf(xs[0]);
      MulZero(Horner(Locator(xs[1..]), xs[0]));
    } else {
      LocatorRoots(xs[1..], l - 1);
      MulZero(Add(xs[l], xs[0]));
    }
  }

  /** So the locator annihilates the series. */
  lemma LocatorAnnihilates(s: seq<Sym>, xs: seq<Sym>, ys: seq<Sym>, n: int)
    requires |xs| == |ys| && IsSeries(s, xs, ys)
    requires |xs| <= n < |s|
    ensures Conv(Locator(xs), s, n) == 0
  {
    hide Mul, Add;
    var p := Locator(xs);
    ConvOfSeries(p, s, xs, ys, n);
    forall l | 0 <= l < |xs|
      ensures Filtered(p, xs, ys)[l] == 0
    {
      LocatorRoots(xs, l);
      MulZero(ys[l]);
    }
    PowSumZeros(xs, Filtered(p, xs, ys), (n + 2 - |p|) as nat);
  }

  // ----- roots and degrees -----

  /** The quotient of p by (1 + x z), with its last term the remainder. */
  ghost function Quotient(p: seq<Sym>, x: Sym): (q: seq<Sym>)
    ensures |q| == |p|
    ensures forall n :: 0 <= n < |p| ==> q[n] == Horner(p[..n + 1], x)
  {
    seq(|p|, n requires 0 <= n < |p| => Horner(p[..n + 1], x))
  }

  lemma QuotientSnoc(p: seq<Sym>, x: Sym)
    requires p != []
    ensures Quotient(p, x) == Quotient(p[..|p| - 1], x) + [Horner(p, x)]
  {
    hide Mul, Add, Horner;
    var q := p[..|p| - 1];
    assert p[..|p|] == p;
    forall n | 0 <= n < |q|
      ensures Quotient(p, x)[n] == Quotient(q, x)[n]
    {
      assert p[..n + 1] == q[..n + 1];
    }
  }

  lemma {:induction false} QuotientTimes(p: seq<Sym>, x: Sym, z: Sym)
    ensures Mul(Add(1, Mul(x, z)), Eval(Quotient(p, x), z))
         == Add(Eval(p, z), Mul(Mul(x, Pow(z, |p|)), Horner(p, x)))
  {
    hide Mul, Add;
    var m, k := Add(1, Mul(x, z)), Pow(z, |p|);
    if p == [] {
      MulZero(m);
      MulZero(Mul(x, k));
      AddZero(0);
    } else {
      var q, c := p[..|p| - 1], p[|p| - 1];
      var j, h, h' := Pow(z, |q|), Horner(q, x), Horner(p, x);
      QuotientTimes(q, x, z);
      QuotientSnoc(p, x);
      Snoc(Quotient(q, x), h');
      MulAdd(m, Eval(Quotient(q, x), z), Mul(h', j));
      // (1 + x z) h' z^|q| = h' z^|q| + x z^|p| h'
      assert Mul(m, Mul(h', j)) == Add(Mul(h', j), Mul(Mul(x, k), h')) by {
        MulAdd(Mul(h', j), 1, Mul(x, z));
        MulOne(Mul(h', j));
        MulAssoc(x, z, Mul(h', j));
        MulComm(h', j);
        MulAssoc(z, j, h');
        MulAssoc(x, k, h');
      }
      // h' z^|q| = x z^|q| h + c z^|q|
      assert Mul(h', j) == Add(Mul(Mul(x, j), h), Mul(c, j)) by {
        MulAdd(j, Mul(x, h), c);
        MulAssoc(x, h, j);
        MulComm(h, j);
        MulAssoc(x, j, h);
      }
      var e, f, g, r := Eval(q, z), Mul(Mul(x, j), h), Mul(c, j), Mul(Mul(x, k), h');
      AddAssoc(Add(e, f), Add(f, g), r);
      AddAssoc(e, f, Add(f, g));
      AddAssoc(f, f, g);
      AddSelf(f);
      AddZero(g);
    }
  }

  /** A polynomial that does not vanish identically has at most as many
      distinct nonzero roots (given by their inverses) as its degree. */
  lemma {:induction false} RootBound(p: seq<Sym>, xs: seq<Sym>)
    requires Distinct(xs) && NoZeros(xs)
    requires forall l :: 0 <= l < |xs| ==> Horner(p, xs[l]) == 0
    requires |p| <= |xs|
    ensures AllZeros(p)
    decreases |p|
  {
    hide Mul, Add;
    if p != [] {
      var q, c, x := p[..|p| - 1], p[|p| - 1], xs[0];
      var d := Quotient(p, x)[..|p| - 1];
      QuotientSnoc(p, x);
      assert d == Quotient(q, x);
      forall l | 0 <= l < |xs[1..]|
        ensures Horner(d, xs[1..][l]) == 0
      {
        DividedRoot(p, x, xs[l + 1]);
      }
      RootBound(d, xs[1..]);
      ZeroQuotient(p, x);
    }
  }

  /** Another root of p is a root of the quotient by the first one. */
  lemma DividedRoot(p: seq<Sym>, x: Sym, y: Sym)
    requires p != [] && x != 0 && y != 0 && x != y
    requires Horner(p, x) == 0 && Horner(p, y) == 0
    ensures Horner(Quotient(p[..|p| - 1], x), y) == 0
  {
    hide Mul, Add, Inv;
    var q, z := p[..|p| - 1], Inv(y);
    var d := Quotient(q, x);
    HornerIsReverse(p, y);
    PowNonzero(y, |p| - 1);
    MulNonzero(Pow(y, |p| - 1), Eval(p, z));
    assert Eval(p, z) == 0;
    QuotientTimes(p, x, z);
    MulZero(Mul(x, Pow(z, |p|)));
    AddZero(0);
    NotInverse(x, y);
    MulNonzero(Add(1, Mul(x, z)), Eval(Quotient(p, x), z));
    QuotientSnoc(p, x);
    Snoc(d, 0);
    MulZero(Pow(z, |d|));
    AddZero(Eval(d, z));
    assert Eval(d, z) == 0;
    if d != [] {
      HornerIsReverse(d, y);
      MulZero(Pow(y, |d| - 1));
    }
  }

  lemma NotInverse(x: Sym, y: Sym)
    requires y != 0 && x != y
    ensures Add(1, Mul(x, Inv(y))) != 0
  {
    hide Mul, Add, Inv;
    AddCancel(1, Mul(x, Inv(y)));
    if Mul(x, Inv(y)) == 1 {
      MulInv(y);
      MulAssoc(x, Inv(y), y);
      MulOne(x);
      MulOne(y);
    }
  }

  /** If every term of the quotient is zero, so is the polynomial. */
  lemma {:induction false} ZeroQuotient(p: seq<Sym>, x: Sym)
    requires AllZeros(Quotient(p, x))
    ensures AllZeros(p)
  {
    hide Mul, Add;
    if p != [] {
      var q := p[..|p| - 1];
      QuotientSnoc(p, x);
      var d := Quotient(q, x);
      forall n | 0 <= n < |d| ensures d[n] == 0 {
        assert d[n] == Quotient(p, x)[n];
      }
      ZeroQuotient(q, x);
      EvalZeros(q, x);
      MulZero(x);
      AddZero(p[|p| - 1]);
      assert Quotient(p, x)[|p| - 1] == 0;
      assert forall i :: 0 <= i < |q| ==> p[i] == q[i];
    }
  }
}
