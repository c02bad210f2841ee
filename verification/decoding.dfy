/** Why decode_rs8 corrects every pattern of at most five wrong symbols, and
    exactly when its answer is a codeword beyond that. */
module Decoding {
  import opened GF32
  import opened Poly
  import opened PowerSums
  import opened ReedSolomon
  import BM = BerlekampMassey

  /** p is a polynomial of exact degree |xs| whose reversal vanishes at xs. */
  ghost predicate LocatesExactly(p: seq<Sym>, xs: seq<Sym>)
  {
    && |p| == |xs| + 1 && p[0] == 1 && p[|xs|] != 0
    && forall l :: 0 <= l < |xs| ==> Horner(p, xs[l]) == 0
  }

  // ----- Berlekamp-Massey finds the error locator -----

  lemma LocatorGenerates(s: seq<Sym>, xs: seq<Sym>, ys: seq<Sym>)
    requires |xs| == |ys| && IsSeries(s, xs, ys)
    ensures BM.Generates(Locator(xs), |xs|, s, |s|)
  {
    hide Mul, Add, Conv;
    LocatorHead(xs);
    forall n | |xs| <= n < |s|
      ensures Conv(Locator(xs), s, n) == 0
    {
      LocatorAnnihilates(s, xs, ys, n);
    }
  }

  /** A recurrence no longer than the number of points vanishes at each. */
  lemma ShortRecurrenceVanishes(p: seq<Sym>, s: seq<Sym>, xs: seq<Sym>, ys: seq<Sym>)
    requires |xs| == |ys| && IsSeries(s, xs, ys)
    requires Distinct(xs) && NoZeros(xs) && NoZeros(ys)
    requires 0 < |p| <= |xs| + 1 && 2 * |xs| <= |s|
    requires BM.Generates(p, |p| - 1, s, |s|)
    ensures forall l :: 0 <= l < |xs| ==> Horner(p, xs[l]) == 0
  {
    hide Mul, Add, Conv, Horner;
    var ws := Filtered(p, xs, ys);
    forall n: nat | 1 <= n < 1 + |xs|
      ensures PowSum(xs, ws, n) == 0
    {
      ConvOfSeries(p, s, xs, ys, n + |p| - 2);
    }
    Vandermonde(xs, ws, 1);
    forall l | 0 <= l < |xs|
      ensures Horner(p, xs[l]) == 0
    {
      assert ws[l] == 0;
      MulNonzero(ys[l], Horner(p, xs[l]));
    }
  }

  /** A polynomial with as many roots as its length allows has full degree. */
  lemma FullDegree(p: seq<Sym>, xs: seq<Sym>)
    requires Distinct(xs) && NoZeros(xs)
    requires 0 < |p| <= |xs| + 1 && p[0] == 1
    requires forall l :: 0 <= l < |xs| ==> Horner(p, xs[l]) == 0
    ensures LocatesExactly(p, xs)
  {
    hide Mul, Add;
    if |p| <= |xs| {
      RootBound(p, xs);
      var first := Coef(p, 0);
    } else if p[|xs|] == 0 {
      var q := p[..|xs|];
      forall l | 0 <= l < |xs|
        ensures Horner(q, xs[l]) == 0
      {
        AddZero(Mul(xs[l], Horner(q, xs[l])));
        MulNonzero(xs[l], Horner(q, xs[l]));
      }
      RootBound(q, xs);
      var first := Coef(q, 0);
    }
  }

  /** For at most five errors lambda is the error locator, and el counts the errors. */
  lemma RunFindsLocator(s: seq<Sym>, xs: seq<Sym>, ys: seq<Sym>)
    requires |s| == NROOTS && |xs| == |ys| && IsSeries(s, xs, ys)
    requires Distinct(xs) && NoZeros(xs) && NoZeros(ys)
    requires 2 * |xs| <= NROOTS
    ensures var st := BM.Run(s, NROOTS);
            && st.el == |xs|
            && LocatesExactly(st.lambda[..|xs| + 1], xs)
            && (forall i :: |xs| < i <= NROOTS ==> st.lambda[i] == 0)
  {
    hide Mul, Add, Conv, Horner;
    var st := BM.Run(s, NROOTS);
    BM.RunInvariant(s, NROOTS);
    LocatorGenerates(s, xs, ys);
    assert st.el <= |xs|;
    var p := st.lambda[..st.el + 1];
    forall n | st.el <= n < NROOTS
      ensures Conv(p, s, n) == 0
    {
      ConvTrim(st.lambda, st.el + 1, s, n);
    }
    ShortRecurrenceVanishes(p, s, xs, ys);
    FullDegree(p, xs);
  }

  lemma {:induction false} DegreeIs(p: seq<Sym>, d: nat)
    requires d < |p| && (d == 0 || p[d] != 0) && forall i :: d < i < |p| ==> p[i] == 0
    ensures Degree(p) == d
  {
    if |p| > d + 1 {
      DegreeIs(p[..|p| - 1], d);
    }
  }

  /** A point outside xs is not a root: there would be too many. */
  lemma NoOtherRoot(p: seq<Sym>, xs: seq<Sym>, y: Sym)
    requires LocatesExactly(p, xs) && Distinct(xs) && NoZeros(xs)
    requires y != 0 && y !in xs
    ensures Horner(p, y) != 0
  {
    hide Horner;
    if Horner(p, y) == 0 {
      RootBound(p, xs + [y]);
      var first := Coef(p, 0);
    }
  }

  lemma InverseOfPower(k: nat)
    requires k < NN
    ensures Exp(NN - 1 - k) != 0 && Inv(Exp(NN - 1 - k)) == Exp(k + 1)
  {
    var i := NN - 1 - k;
    assert Exp(NN) == 1 by { ExpTable(); }
    hide Exp, Mul, Inv;
    ExpNonzero(i);
    MulExp(i, k + 1);
    MulInv(Exp(i));
    MulCancel(Exp(i), Inv(Exp(i)), Exp(k + 1));
  }

  /** The Chien search at position k asks whether alpha^(30-k) is a location. */
  lemma RootAtIsHorner(lambda: seq<Sym>, m: nat, k: nat)
    requires k < NN && 0 < m <= |lambda|
    requires forall i :: m <= i < |lambda| ==> lambda[i] == 0
    ensures RootAt(lambda, k) <==> Horner(lambda[..m], Exp(NN - 1 - k)) == 0
  {
    hide Mul, Add, Exp, Inv, Eval, Horner;
    var x := Exp(NN - 1 - k);
    ExpNonzero(NN - 1 - k);
    InverseOfPower(k);
    EvalTrim(lambda, m, Exp(k + 1));
    HornerIsReverse(lambda[..m], x);
    PowNonzero(x, m - 1);
    MulNonzero(Pow(x, m - 1), Eval(lambda[..m], Exp(k + 1)));
  }

  lemma RootsAreErrors(lambda: seq<Sym>, e: seq<Sym>, k: nat)
    requires |e| == NN && k < NN && Weight(e) < |lambda|
    requires LocatesExactly(lambda[..Weight(e) + 1], Locs(e))
    requires forall i :: Weight(e) < i < |lambda| ==> lambda[i] == 0
    ensures RootAt(lambda, k) <==> e[k] != 0
  {
    hide Mul, Add, Exp, Horner, RootAt, Weight, Locs, Vals;
    LocsDistinct(e);
    RootAtIsHorner(lambda, Weight(e) + 1, k);
    var x := Exp(NN - 1 - k);
    if e[k] != 0 {
      var l := PositionIsLoc(e, e, k);
    } else {
      ExpNonzero(NN - 1 - k);
      if x in Locs(e) {
        var l :| 0 <= l < |Locs(e)| && Locs(e)[l] == x;
        var j := LocIsPosition(e, e, l);
        ExpInjective(NN - 1 - k, NN - 1 - j);
      }
      NoOtherRoot(lambda[..Weight(e) + 1], Locs(e), x);
    }
  }

  lemma {:induction false} WeightSnoc(e: seq<Sym>, c: Sym)
    ensures Weight(e + [c]) == Weight(e) + if c == 0 then 0 else 1
  {
    if e == [] {
      assert [c][1..] == [];
    } else {
      WeightSnoc(e[1..], c);
      assert (e + [c])[1..] == e[1..] + [c];
    }
  }

  lemma {:induction false} RootCountIsWeight(lambda: seq<Sym>, e: seq<Sym>, k: nat)
    requires k <= |e|
    requires forall j :: 0 <= j < k ==> (RootAt(lambda, j) <==> e[j] != 0)
    ensures RootCount(lambda, k) == Weight(e[..k])
  {
    hide RootAt;
    if k > 0 {
      RootCountIsWeight(lambda, e, k - 1);
      assert e[..k] == e[..k - 1] + [e[k - 1]];
      WeightSnoc(e[..k - 1], e[k - 1]);
    }
  }

  // ----- Forney's formula -----

  /** The terms of the evaluator, each from the part of p it needs. */
  ghost function Evaluator(p: seq<Sym>, s: seq<Sym>): (r: seq<Sym>)
    ensures |r| == |p|
    ensures forall n :: 0 <= n < |p| ==> r[n] == Conv(p[..n + 1], s, n)
  {
    seq(|p|, n requires 0 <= n < |p| => Conv(p[..n + 1], s, n))
  }

  /** The sum of ys[l] xs[l] q_l(z), with q_l the quotient of p at xs[l]. */
  ghost function ForneySum(p: seq<Sym>, xs: seq<Sym>, ys: seq<Sym>, z: Sym): Sym
    requires |xs| == |ys|
  {
    if xs == [] then 0
    else Add(Mul(Mul(ys[0], xs[0]), Eval(Quotient(p, xs[0]), z)), ForneySum(p, xs[1..], ys[1..], z))
  }

  lemma {:induction false} ForneySumSnoc(p: seq<Sym>, xs: seq<Sym>, ys: seq<Sym>, z: Sym)
    requires |xs| == |ys| && p != []
    ensures ForneySum(p, xs, ys, z)
         == Add(ForneySum(p[..|p| - 1], xs, ys, z), Mul(PowSum(xs, Filtered(p, xs, ys), 1), Pow(z, |p| - 1)))
  {
    var k := Pow(z, |p| - 1);
    if xs == [] {
      hide Mul, Add;
      MulZero(k);
      AddZero(0);
    } else {
      var x, y, q := xs[0], ys[0], p[..|p| - 1];
      var ws, h := Filtered(p, xs, ys), Horner(p, xs[0]);
      assert Pow(x, 1) == Mul(x, Pow(x, 0)) && Pow(x, 0) == 1;
      hide Mul, Add, Pow, Horner;
      MulOne(x);
      ForneySumSnoc(p, xs[1..], ys[1..], z);
      assert ws[1..] == Filtered(p, xs[1..], ys[1..]);
      QuotientSnoc(p, x);
      Snoc(Quotient(q, x), h);
      MulAdd(Mul(y, x), Eval(Quotient(q, x), z), Mul(h, k));
      MulAssoc(Mul(y, x), h, k);
      MulAssoc(y, x, h);
      MulComm(x, h);
      MulAssoc(y, h, x);
      var u := PowSum(xs[1..], ws[1..], 1);
      MulAdd(k, Mul(ws[0], x), u);
      AddSwap(Mul(Mul(y, x), Eval(Quotient(q, x), z)), Mul(Mul(ws[0], x), k),
              ForneySum(q, xs[1..], ys[1..], z), Mul(u, k));
    }
  }

  lemma {:induction false} EvaluatorIsForneySum(p: seq<Sym>, s: seq<Sym>, xs: seq<Sym>, ys: seq<Sym>, z: Sym)
    requires |xs| == |ys| && IsSeries(s, xs, ys) && |p| <= |s|
    ensures Eval(Evaluator(p, s), z) == ForneySum(p, xs, ys, z)
  {
    hide Mul, Add, Conv;
    if p == [] {
      EmptyForneySum(xs, ys, z);
    } else {
      var q, k := p[..|p| - 1], |p| - 1;
      EvaluatorIsForneySum(q, s, xs, ys, z);
      ForneySumSnoc(p, xs, ys, z);
      ConvOfSeries(p, s, xs, ys, k);
      var r := Evaluator(p, s);
      assert p[..k + 1] == p;
      forall n | 0 <= n < k
        ensures r[..k][n] == Evaluator(q, s)[n]
      {
        assert q[..n + 1] == p[..n + 1];
      }
      assert r[..k] == Evaluator(q, s);
    }
  }

  lemma {:induction false} EmptyForneySum(xs: seq<Sym>, ys: seq<Sym>, z: Sym)
    requires |xs| == |ys|
    ensures ForneySum([], xs, ys, z) == 0
  {
    hide Mul, Add;
    if xs != [] {
      EmptyForneySum(xs[1..], ys[1..], z);
      assert Quotient([], xs[0]) == [];
      MulZero(Mul(ys[0], xs[0]));
      AddZero(0);
    }
  }

  /** At the inverse of a location every other term vanishes. */
  lemma {:induction false} ForneySumCollapses(p: seq<Sym>, xs: seq<Sym>, ys: seq<Sym>, y: Sym, l: int)
    requires |xs| == |ys| && p != [] && y != 0
    requires Horner(p, y) == 0
    requires forall i :: 0 <= i < |xs| ==> Horner(p, xs[i]) == 0
    requires forall i :: 0 <= i < |xs| ==> (xs[i] == y <==> i == l)
    ensures ForneySum(p, xs, ys, Inv(y))
         == if 0 <= l < |xs| then Mul(Mul(ys[l], y), Eval(Quotient(p, y), Inv(y))) else 0
  {
    hide Mul, Add, Inv, Horner;
    if xs != [] {
      var x, z := xs[0], Inv(y);
      ForneySumCollapses(p, xs[1..], ys[1..], y, l - 1);
      if l == 0 {
        AddZero(Mul(Mul(ys[0], y), Eval(Quotient(p, y), z)));
      } else {
        OtherQuotientVanishes(p, x, y);
        MulZero(Mul(ys[0], x));
        AddZero(ForneySum(p, xs[1..], ys[1..], z));
      }
    }
  }

  lemma OtherQuotientVanishes(p: seq<Sym>, x: Sym, y: Sym)
    requires p != [] && y != 0 && x != y && Horner(p, x) == 0 && Horner(p, y) == 0
    ensures Eval(Quotient(p, x), Inv(y)) == 0
  {
    hide Mul, Add, Inv, Horner, Eval;
    var z := Inv(y);
    EvalAtInverse(p, y);
    QuotientTimes(p, x, z);
    MulZero(Mul(x, Pow(z, |p|)));
    AddZero(0);
    NotInverse(x, y);
    MulNonzero(Add(1, Mul(x, z)), Eval(Quotient(p, x), z));
  }

  lemma EvalAtInverse(p: seq<Sym>, y: Sym)
    requires p != [] && y != 0
    ensures Eval(p, Inv(y)) == 0 <==> Horner(p, y) == 0
  {
    hide Mul, Add, Inv, Horner, Eval;
    HornerIsReverse(p, y);
    PowNonzero(y, |p| - 1);
    MulNonzero(Pow(y, |p| - 1), Eval(p, Inv(y)));
  }

  /** At z = 1/y the quotient is z times the derivative, up to a multiple of
      p(z): the product rule in characteristic two. */
  lemma {:induction false} QuotientIsDerivative(p: seq<Sym>, y: Sym)
    requires y != 0
    ensures Eval(Quotient(p, y), Inv(y))
         == Add(if |p| % 2 == 1 then Eval(p, Inv(y)) else 0, Mul(Inv(y), Deriv(p, Inv(y))))
  {
    hide Mul, Add, Inv, Horner, DerivTerm;
    var z := Inv(y);
    if p == [] {
      MulZero(z);
      AddZero(0);
    } else {
      var q, k, c := p[..|p| - 1], |p| - 1, p[|p| - 1];
      QuotientIsDerivative(q, y);
      QuotientSnoc(p, y);
      Snoc(Quotient(q, y), Horner(p, y));
      LastQuotientTerm(p, y);
      var e, d, t, g := Eval(q, z), Mul(z, Deriv(q, z)), Mul(c, Pow(z, k)), DerivTerm(p, k, z);
      MulAdd(z, Deriv(q, z), g);
      assert Mul(z, g) == if k % 2 == 1 then t else 0 by { DerivTermTimes(p, k, z); }
      if k % 2 == 1 {
        // (e + d) + (e + t) == 0 + (d + t)
        AddSwap(e, d, e, t);
        AddSelf(e);
      } else {
        // (0 + d) + (e + t) == (e + t) + (d + 0)
        AddZero(d);
        AddComm(d, Add(e, t));
      }
    }
  }

  lemma DerivTermTimes(p: seq<Sym>, k: nat, z: Sym)
    requires k < |p|
    ensures Mul(z, DerivTerm(p, k, z)) == if k % 2 == 1 then Mul(p[k], Pow(z, k)) else 0
  {
    if k % 2 == 1 {
      assert Pow(z, k) == Mul(z, Pow(z, k - 1));
    }
    hide Mul, Add, Pow;
    MulZero(z);
    if k % 2 == 1 {
      var w := Pow(z, k - 1);
      MulAssoc(z, p[k], w);
      MulComm(z, p[k]);
      MulAssoc(p[k], z, w);
    }
  }

  lemma LastQuotientTerm(p: seq<Sym>, y: Sym)
    requires p != [] && y != 0
    ensures Mul(Horner(p, y), Pow(Inv(y), |p| - 1)) == Eval(p, Inv(y))
  {
    hide Mul, Add, Inv, Horner, Eval, Pow;
    var k, e := |p| - 1, Eval(p, Inv(y));
    HornerIsReverse(p, y);
    PowInv(y, k);
    MulComm(Pow(y, k), e);
    MulAssoc(e, Pow(y, k), Pow(Inv(y), k));
    MulOne(e);
  }

  /** At a location the derivative does not vanish: the roots are simple. */
  lemma DerivativeAtRoot(p: seq<Sym>, xs: seq<Sym>, l: nat)
    requires LocatesExactly(p, xs) && Distinct(xs) && NoZeros(xs) && l < |xs|
    ensures var z := Inv(xs[l]);
            Deriv(p, z) == Mul(xs[l], Eval(Quotient(p, xs[l]), z)) && Deriv(p, z) != 0
  {
    hide Mul, Add, Inv, Horner, Eval, Deriv;
    var y, z := xs[l], Inv(xs[l]);
    var q := Eval(Quotient(p, y), z);
    EvalAtInverse(p, y);
    QuotientIsDerivative(p, y);
    AddZero(Mul(z, Deriv(p, z)));
    MulInv(y);
    MulAssoc(y, z, Deriv(p, z));
    MulOne(Deriv(p, z));
    SimpleRoot(p, xs, l);
    MulNonzero(y, q);
  }

  lemma SimpleRoot(p: seq<Sym>, xs: seq<Sym>, l: nat)
    requires LocatesExactly(p, xs) && Distinct(xs) && NoZeros(xs) && l < |xs|
    ensures Eval(Quotient(p, xs[l]), Inv(xs[l])) != 0
  {
    hide Mul, Add, Inv, Horner, Eval;
    var y := xs[l];
    var d := Quotient(p[..|p| - 1], y);
    QuotientSnoc(p, y);
    var full := Quotient(p, y);
    assert full == d + [0];
    EvalTrim(full, |d|, Inv(y));
    assert full[..|d|] == d;
    if Eval(d, Inv(y)) == 0 {
      forall i | 0 <= i < |xs|
        ensures Horner(d, xs[i]) == 0
      {
        if i == l {
          EvalAtInverse(d, y);
        } else {
          DividedRoot(p, y, xs[i]);
        }
      }
      RootBound(d, xs);
      assert AllZeros(full);
      ZeroQuotient(p, y);
      var first := Coef(p, 0);
    }
  }

  /** The remainder term of an exact division contributes nothing. */
  lemma {:induction false} ForneySumOfFactors(p: seq<Sym>, xs: seq<Sym>, ys: seq<Sym>, z: Sym)
    requires |xs| == |ys| && p != []
    requires forall i :: 0 <= i < |xs| ==> Horner(p, xs[i]) == 0
    ensures ForneySum(p[..|p| - 1], xs, ys, z) == ForneySum(p, xs, ys, z)
  {
    hide Mul, Add, Horner;
    if xs != [] {
      ForneySumOfFactors(p, xs[1..], ys[1..], z);
      QuotientSnoc(p, xs[0]);
      EvalTrim(Quotient(p, xs[0]), |p| - 1, z);
      assert Quotient(p, xs[0])[..|p| - 1] == Quotient(p[..|p| - 1], xs[0]);
    }
  }

  /** Forney: evaluator over derivative is the error value. */
  lemma Forney(p: seq<Sym>, s: seq<Sym>, xs: seq<Sym>, ys: seq<Sym>, l: nat)
    requires |xs| == |ys| && IsSeries(s, xs, ys) && |xs| <= |s|
    requires LocatesExactly(p, xs) && Distinct(xs) && NoZeros(xs) && l < |xs|
    ensures Eval(Evaluator(p[..|xs|], s), Inv(xs[l])) == Mul(ys[l], Deriv(p, Inv(xs[l])))
    ensures Quot(Eval(Evaluator(p[..|xs|], s), Inv(xs[l])), Deriv(p, Inv(xs[l]))) == ys[l]
  {
    hide Mul, Add, Inv, Horner, Eval, Deriv;
    var y, z := xs[l], Inv(xs[l]);
    var q, d := Eval(Quotient(p, y), z), Deriv(p, Inv(xs[l]));
    EvaluatorIsForneySum(p[..|xs|], s, xs, ys, z);
    ForneySumOfFactors(p, xs, ys, z);
    forall i | 0 <= i < |xs|
      ensures xs[i] == y <==> i == l
    {
    }
    ForneySumCollapses(p, xs, ys, y, l);
    DerivativeAtRoot(p, xs, l);
    MulAssoc(ys[l], y, q);
    MulNonzero(ys[l], d);
    MulInv(d);
    MulAssoc(ys[l], d, Inv(d));
    MulOne(ys[l]);
  }

  // ----- the decoder as a whole -----

  lemma OmegaIsEvaluator(lambda: seq<Sym>, s: seq<Sym>, d: nat)
    requires d <= |lambda|
    ensures Omega(lambda, s, d) == Evaluator(lambda[..d], s)
  {
    hide Conv;
    forall n | 0 <= n < d
      ensures Omega(lambda, s, d)[n] == Evaluator(lambda[..d], s)[n]
    {
      ConvTrim(lambda, n + 1, s, n);
      assert lambda[..d][..n + 1] == lambda[..n + 1];
    }
  }

  lemma {:induction false} DerivTrim(p: seq<Sym>, k: nat, z: Sym)
    requires k <= |p| && forall i :: k <= i < |p| ==> p[i] == 0
    ensures Deriv(p, z) == Deriv(p[..k], z)
  {
    hide Mul, Add;
    if k == |p| {
      assert p[..k] == p;
    } else {
      var q := p[..|p| - 1];
      DerivTrim(q, k, z);
      assert q[..k] == p[..k];
      MulZero(Pow(z, if |p| > 1 then |p| - 2 else 0));
      AddZero(Deriv(q, z));
    }
  }

  /** The correction at a wrong position is the error made there. */
  lemma ErrorValueIsError(lambda: seq<Sym>, e: seq<Sym>, k: nat)
    requires |e| == NN && k < NN && e[k] != 0
    requires Weight(e) < |lambda| <= NROOTS + 1
    requires LocatesExactly(lambda[..Weight(e) + 1], Locs(e))
    requires forall i :: Weight(e) < i < |lambda| ==> lambda[i] == 0
    ensures ErrorValue(lambda, Syndromes(e), k) == e[k]
  {
    hide Mul, Add, Exp, Inv, Horner, Conv, Eval, Deriv, Quot;
    hide Weight, Locs, Vals, Degree, Omega, Evaluator, Syndromes, IsSeries, Distinct, NoZeros;
    var v, s, p := Weight(e), Syndromes(e), lambda[..Weight(e) + 1];
    assert lambda[v] == p[v] != 0;
    DegreeIs(lambda, v);
    hide LocatesExactly;
    LocsDistinct(e);
    ErrorSeries(e);
    var l := PositionIsLoc(e, e, k);
    InverseOfPower(k);
    Forney(p, s, Locs(e), Vals(e, e), l);
    assert p[..v] == lambda[..v];
    OmegaIsEvaluator(lambda, s, v);
    DerivTrim(lambda, v + 1, Exp(k + 1));
  }

  lemma AddSeqSelf(w: seq<Sym>, c: seq<Sym>)
    requires |w| == |c|
    ensures AddSeq(w, AddSeq(w, c)) == c
  {
    hide Add;
    forall i | 0 <= i < |w|
      ensures AddSeq(w, AddSeq(w, c))[i] == c[i]
    {
      AddAssoc(w[i], w[i], c[i]);
      AddSelf(w[i]);
      AddZero(c[i]);
    }
  }

  /** The whole decoder on an error word of weight one to five. */
  lemma DecodeError(e: seq<Sym>)
    requires |e| == NN && 0 < Weight(e) && 2 * Weight(e) <= NROOTS
    ensures !AllZeros(Syndromes(e))
    ensures var lambda := BM.Run(Syndromes(e), NROOTS).lambda;
            Degree(lambda) == Weight(e) && RootCount(lambda, NN) == Weight(e)
            && ErrorWord(lambda, Syndromes(e)) == e
  {
    hide Mul, Add, Exp, Horner, Conv, RootAt, RootCount, ErrorValue, Syndromes;
    hide Weight, Locs, Vals, Degree, IsSeries, Distinct, NoZeros, BM.Run;
    var v, s := Weight(e), Syndromes(e);
    var lambda := BM.Run(s, NROOTS).lambda;
    LocsDistinct(e);
    ErrorSeries(e);
    if AllZeros(s) {
      LightCodeword(e);
      WeightZero(e);
    }
    RunFindsLocator(s, Locs(e), Vals(e, e));
    assert lambda[v] == lambda[..v + 1][v] != 0;
    DegreeIs(lambda, v);
    hide LocatesExactly, AllZeros;
    forall k | 0 <= k < NN
      ensures RootAt(lambda, k) <==> e[k] != 0
      ensures ErrorWord(lambda, s)[k] == e[k]
    {
      RootsAreErrors(lambda, e, k);
      if e[k] != 0 {
        ErrorValueIsError(lambda, e, k);
      }
    }
    RootCountIsWeight(lambda, e, NN);
    assert e[..NN] == e;
  }

  /** Every word within five symbols of a codeword is decoded to it, and the
      number of wrong symbols is returned. */
  lemma DecodeCorrects(w: seq<Sym>, c: seq<Sym>)
    requires |w| == NN && IsCodeword(c) && 2 * Distance(w, c) <= NROOTS
    ensures Decode(w).0 == Distance(w, c)
    ensures AddSeq(w, Decode(w).1) == c
  {
    hide Mul, Add, Exp, Horner, Conv, BM.Run, RootCount, ErrorWord, Degree;
    var e := AddSeq(w, c);
    SyndromesOfDifference(w, c);
    AddSeqSelf(w, c);
    if Weight(e) == 0 {
      WeightZero(e);
      assert e == BM.Zeros(NN);
      ErrorSeries(e);
      forall i | 0 <= i < NROOTS
        ensures Syndromes(e)[i] == 0
      {
        EvalZeros(e, Exp(i + 1));
      }
    } else {
      DecodeError(e);
    }
  }
}
