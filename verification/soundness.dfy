/** The last test of decode_rs8 compares a degree with a number of roots. It
    does not recompute the syndromes, so a non-negative answer need not be a
    codeword; it is one exactly when no shorter recurrence was dropped. */
module Soundness {
  import opened GF32
  import opened Poly
  import opened PowerSums
  import opened ReedSolomon
  import opened Decoding
  import BM = BerlekampMassey
  import Bits

  // ----- a recurrence and the first terms determine a series -----

  lemma {:induction false} ConvTail(p: seq<Sym>, s: seq<Sym>, t: seq<Sym>, n: int)
    requires p != [] && p[0] == 1
    requires forall m :: m < n ==> Coef(s, m) == Coef(t, m)
    ensures Add(Conv(p, s, n), Coef(s, n)) == Add(Conv(p, t, n), Coef(t, n))
  {
    hide Mul, Add, Coef;
    var q, c, k := p[..|p| - 1], p[|p| - 1], |p| - 1;
    if k == 0 {
      assert q == [];
      MulOne(Coef(s, n));
      MulOne(Coef(t, n));
      AddZero(Coef(s, n));
      AddZero(Coef(t, n));
      AddSelf(Coef(s, n));
      AddSelf(Coef(t, n));
    } else {
      ConvTail(q, s, t, n);
      var x := Mul(c, Coef(s, n - k));
      AddRotate(Conv(q, s, n), x, Coef(s, n));
      AddRotate(Conv(q, t, n), x, Coef(t, n));
    }
  }

  lemma AddRotate(a: Sym, b: Sym, c: Sym)
    ensures Add(Add(a, b), c) == Add(Add(a, c), b)
  {
    hide Add;
    AddAssoc(a, b, c);
    AddComm(b, c);
    AddAssoc(a, c, b);
  }

  lemma {:induction false} SameConvSameSeries(p: seq<Sym>, s: seq<Sym>, t: seq<Sym>, k: nat)
    requires p != [] && p[0] == 1 && |s| == |t| && k <= |s|
    requires forall n :: 0 <= n < |s| ==> Conv(p, s, n) == Conv(p, t, n)
    ensures s[..k] == t[..k]
  {
    hide Mul, Add, Conv;
    if k > 0 {
      SameConvSameSeries(p, s, t, k - 1);
      forall m | m < k - 1
        ensures Coef(s, m) == Coef(t, m)
      {
        if 0 <= m {
          assert s[..k - 1][m] == t[..k - 1][m];
        }
      }
      ConvTail(p, s, t, k - 1);
      AddCancel(Coef(s, k - 1), Conv(p, s, k - 1));
      AddCancel(Coef(t, k - 1), Conv(p, s, k - 1));
      AddComm(Coef(s, k - 1), Conv(p, s, k - 1));
      AddComm(Coef(t, k - 1), Conv(p, s, k - 1));
      assert s[..k] == s[..k - 1] + [s[k - 1]] && t[..k] == t[..k - 1] + [t[k - 1]];
    }
  }

  /** Two polynomials of length |xs| that agree at all inverses of xs. */
  lemma AgreeEverywhere(a: seq<Sym>, b: seq<Sym>, xs: seq<Sym>)
    requires |a| == |b| == |xs| && Distinct(xs) && NoZeros(xs)
    requires forall l :: 0 <= l < |xs| ==> Eval(a, Inv(xs[l])) == Eval(b, Inv(xs[l]))
    ensures a == b
  {
    hide Mul, Add, Inv, Eval, Horner;
    var d := AddSeq(a, b);
    AddSeqScaleOne(a, b);
    forall l | 0 <= l < |xs|
      ensures Horner(d, xs[l]) == 0
    {
      HornerLinear(a, b, 1, xs[l]);
      HornerIsReverse(a, xs[l]);
      HornerIsReverse(b, xs[l]);
      MulOne(Horner(b, xs[l]));
      AddSelf(Horner(b, xs[l]));
    }
    RootBound(d, xs);
    forall i | 0 <= i < |a|
      ensures a[i] == b[i]
    {
      assert d[i] == 0;
      AddCancel(a[i], b[i]);
    }
  }

  /** Forney's values rebuild every series that the recurrence generates. */
  lemma ForneyRebuilds(p: seq<Sym>, s: seq<Sym>, xs: seq<Sym>, ys: seq<Sym>)
    requires |xs| == |ys| && |xs| <= |s|
    requires LocatesExactly(p, xs) && Distinct(xs) && NoZeros(xs)
    requires BM.Generates(p, |xs|, s, |s|)
    requires forall l :: 0 <= l < |xs| ==>
      ys[l] == Quot(Eval(Evaluator(p[..|xs|], s), Inv(xs[l])), Deriv(p, Inv(xs[l])))
    ensures IsSeries(s, xs, ys)
  {
    hide Mul, Add, Inv, Eval, Horner, Conv, Deriv, PowSum;
    var D := |xs|;
    var t := seq(|s|, n requires 0 <= n < |s| => PowSum(xs, ys, n + 1));
    assert IsSeries(t, xs, ys);
    var a, b := Evaluator(p[..D], s), Evaluator(p[..D], t);
    forall l | 0 <= l < D
      ensures Eval(a, Inv(xs[l])) == Eval(b, Inv(xs[l]))
    {
      Forney(p, t, xs, ys, l);
      DerivativeAtRoot(p, xs, l);
      QuotTimes(Eval(a, Inv(xs[l])), Deriv(p, Inv(xs[l])));
    }
    hide Quot;
    AgreeEverywhere(a, b, xs);
    forall n | 0 <= n < |s|
      ensures Conv(p, s, n) == Conv(p, t, n)
    {
      if n < D {
        ConvTrim(p, n + 1, s, n);
        ConvTrim(p, n + 1, t, n);
        assert p[..D][..n + 1] == p[..n + 1];
        assert a[n] == b[n];
      } else {
        RootsAnnihilate(p, t, xs, ys, n);
      }
    }
    SameConvSameSeries(p, s, t, |s|);
    assert s[..|s|] == s && t[..|s|] == t;
  }

  lemma QuotTimes(a: Sym, d: Sym)
    requires d != 0
    ensures Mul(Quot(a, d), d) == a
  {
    hide Mul, Inv;
    MulZero(d);
    MulInv(d);
    MulAssoc(a, Inv(d), d);
    MulOne(a);
  }

  lemma RootsAnnihilate(p: seq<Sym>, t: seq<Sym>, xs: seq<Sym>, ys: seq<Sym>, n: int)
    requires |xs| == |ys| && IsSeries(t, xs, ys)
    requires |p| - 1 <= n < |t|
    requires forall l :: 0 <= l < |xs| ==> Horner(p, xs[l]) == 0
    ensures Conv(p, t, n) == 0
  {
    hide Mul, Horner;
    ConvOfSeries(p, t, xs, ys, n);
    forall l | 0 <= l < |xs|
      ensures Filtered(p, xs, ys)[l] == 0
    {
      MulZero(ys[l]);
    }
    PowSumZeros(xs, Filtered(p, xs, ys), (n + 2 - |p|) as nat);
  }

  // ----- the answer of the decoder -----

  /** Ones at the positions the Chien search finds. */
  ghost function RootMask(lambda: seq<Sym>): (m: seq<Sym>)
    ensures |m| == NN
    ensures forall k :: 0 <= k < NN ==> (m[k] != 0 <==> RootAt(lambda, k))
  {
    seq(NN, k requires 0 <= k < NN => if RootAt(lambda, k) then 1 else 0)
  }

  lemma {:induction false} DegreeTop(p: seq<Sym>)
    requires p != []
    ensures Degree(p) > 0 ==> p[Degree(p)] != 0
    ensures forall i :: Degree(p) < i < |p| ==> p[i] == 0
  {
    if |p| > 1 && p[|p| - 1] == 0 {
      DegreeTop(p[..|p| - 1]);
    }
  }

  /** When the search finds deg(lambda) roots, they are all of them. */
  lemma MaskLocates(lambda: seq<Sym>)
    requires lambda != [] && lambda[0] == 1
    requires RootCount(lambda, NN) == Degree(lambda)
    ensures Weight(RootMask(lambda)) == Degree(lambda)
    ensures LocatesExactly(lambda[..Degree(lambda) + 1], Locs(RootMask(lambda)))
  {
    hide Mul, Add, Exp, Horner, RootAt, Weight, Locs, Degree;
    var D, m := Degree(lambda), RootMask(lambda);
    DegreeTop(lambda);
    RootCountIsWeight(lambda, m, NN);
    assert m[..NN] == m;
    forall l | 0 <= l < D
      ensures Horner(lambda[..D + 1], Locs(m)[l]) == 0
    {
      var j := LocIsPosition(m, m, l);
      RootAtIsHorner(lambda, D + 1, j);
    }
  }

  lemma {:induction false} WeightBelow(e: seq<Sym>, m: seq<Sym>)
    requires |e| == |m| && forall i :: 0 <= i < |m| && m[i] == 0 ==> e[i] == 0
    ensures Weight(e) <= Weight(m)
  {
    if e != [] {
      WeightBelow(e[1..], m[1..]);
    }
  }

  /** If the corrected word is a codeword, el is the number of roots. */
  lemma CodewordNeedsFullLength(w: seq<Sym>)
    requires |w| == NN && !AllZeros(Syndromes(w)) && Decode(w).0 >= 0
    requires IsCodeword(AddSeq(w, Decode(w).1))
    ensures BM.Run(Syndromes(w), NROOTS).el == Decode(w).0
  {
    hide Mul, Add, Exp, Horner, RootAt, Weight, Locs, Vals, Degree, Conv, RootCount, Syndromes;
    var s := Syndromes(w);
    var st := BM.Run(s, NROOTS);
    var e, lambda, D := ErrorWord(st.lambda, s), st.lambda, Degree(st.lambda);
    BM.RunInvariant(s, NROOTS);
    hide BM.Run;
    DegreeTop(lambda);
    MaskLocates(lambda);
    AddSeqSelf(w, e);
    SyndromesOfDifference(w, AddSeq(w, e));
    ErrorSeries(e);
    LocatorGenerates(s, Locs(e), Vals(e, e));
    WeightBelow(e, RootMask(lambda));
  }

  /** If el is the number of roots, the corrected word is a codeword. */
  lemma FullLengthGivesCodeword(w: seq<Sym>)
    requires |w| == NN && !AllZeros(Syndromes(w)) && Decode(w).0 >= 0
    requires BM.Run(Syndromes(w), NROOTS).el == Decode(w).0
    ensures IsCodeword(AddSeq(w, Decode(w).1))
  {
    hide Mul, Add, Exp, Horner, RootAt, Weight, Locs, Degree, Conv, RootCount, Syndromes;
    var s := Syndromes(w);
    var st := BM.Run(s, NROOTS);
    var e, lambda, D := ErrorWord(st.lambda, s), st.lambda, Degree(st.lambda);
    BM.RunInvariant(s, NROOTS);
    hide BM.Run;
    MaskLocates(lambda);
    var m := RootMask(lambda);
    LocsDistinct(m);
    RebuiltSeries(lambda, s);
    forall i | 0 <= i < NROOTS
      ensures Syndromes(e)[i] == s[i]
    {
      HornerIsPowSum(m, e, i + 1);
    }
    CorrectedSyndromes(w, e);
  }

  lemma RebuiltSeries(lambda: seq<Sym>, s: seq<Sym>)
    requires |s| == NROOTS && |lambda| == NROOTS + 1
    requires lambda[0] == 1 && RootCount(lambda, NN) == Degree(lambda)
    requires BM.Generates(lambda, Degree(lambda), s, NROOTS)
    ensures var m := RootMask(lambda);
            Weight(m) == Degree(lambda) && IsSeries(s, Locs(m), Vals(m, ErrorWord(lambda, s)))
  {
    hide Mul, Add, Exp, Inv, Horner, RootAt, Weight, Locs, Vals, Degree, Conv, RootCount, Eval, Deriv, Quot;
    var D, m, e := Degree(lambda), RootMask(lambda), ErrorWord(lambda, s);
    MaskLocates(lambda);
    LocsDistinct(m);
    var p, xs, ys := lambda[..D + 1], Locs(m), Vals(m, e);
    DegreeTop(lambda);
    forall l | 0 <= l < D
      ensures ys[l] == Quot(Eval(Evaluator(p[..D], s), Inv(xs[l])), Deriv(p, Inv(xs[l])))
    {
      var j := LocIsPosition(m, e, l);
      InverseOfPower(j);
      assert p[..D] == lambda[..D];
      OmegaIsEvaluator(lambda, s, D);
      DerivTrim(lambda, D + 1, Exp(j + 1));
    }
    forall n | D <= n < NROOTS
      ensures Conv(p, s, n) == 0
    {
      ConvTrim(lambda, D + 1, s, n);
    }
    ForneyRebuilds(p, s, xs, ys);
  }

  lemma CorrectedSyndromes(w: seq<Sym>, e: seq<Sym>)
    requires |w| == |e| == NN && Syndromes(e) == Syndromes(w)
    ensures IsCodeword(AddSeq(w, e))
  {
    hide Mul, Add, Exp, Horner;
    AddSeqScaleOne(w, e);
    forall i | 0 <= i < NROOTS
      ensures Syndromes(AddSeq(w, e))[i] == 0
    {
      HornerLinear(w, e, 1, Exp(i + 1));
      assert Syndromes(w)[i] == Syndromes(e)[i];
      MulOne(Horner(e, Exp(i + 1)));
      AddSelf(Horner(e, Exp(i + 1)));
    }
  }

  /** Among all words, however many symbols are wrong: a non-negative answer
      leads to a codeword if and only if the length el of the recurrence is
      the degree of its polynomial, a comparison decode_rs8 does not make. */
  lemma AnswerIsCodewordIff(w: seq<Sym>)
    requires |w| == NN && !AllZeros(Syndromes(w)) && Decode(w).0 >= 0
    ensures var st := BM.Run(Syndromes(w), NROOTS);
      IsCodeword(AddSeq(w, Decode(w).1)) <==> st.el == Degree(st.lambda)
  {
    assert Decode(w).0 == Degree(BM.Run(Syndromes(w), NROOTS).lambda);
    hide Decode, IsCodeword, BM.Run, Syndromes;
    if IsCodeword(AddSeq(w, Decode(w).1)) {
      CodewordNeedsFullLength(w);
    } else if BM.Run(Syndromes(w), NROOTS).el == Decode(w).0 {
      FullLengthGivesCodeword(w);
    }
  }

  // ----- which words are accepted -----

  /** The powers of alpha, the first k of them, at which the polynomial is zero. */
  ghost function Roots(lambda: seq<Sym>, k: nat): (r: set<nat>)
  {
    set j: nat | j < k && RootAt(lambda, j)
  }

  lemma {:induction false} RootsCounted(lambda: seq<Sym>, k: nat)
    ensures |Roots(lambda, k)| == RootCount(lambda, k)
  {
    hide Eval, Exp;
    if k > 0 {
      RootsCounted(lambda, k - 1);
      var before, all := Roots(lambda, k - 1), Roots(lambda, k);
      assert all == if RootAt(lambda, k - 1) then before + {k - 1} else before;
    }
  }

  /** For every word, however many symbols are wrong: it is rejected exactly when
      the polynomial found has fewer roots among the thirty-one positions than
      its degree; otherwise the degree is the number of corrections. */
  lemma AnswerIs(w: seq<Sym>)
    requires |w| == 31
    ensures AllZeros(Syndromes(w)) ==> Decode(w).0 == 0
    ensures var lambda := BM.Run(Syndromes(w), 10).lambda;
      !AllZeros(Syndromes(w)) ==>
        Decode(w).0 == if |Roots(lambda, 31)| == Degree(lambda) then Degree(lambda) else -74
  {
    RootsCounted(BM.Run(Syndromes(w), 10).lambda, 31);
    hide Syndromes, BM.Run, RootCount, Roots, Degree, ErrorWord, AllZeros;
  }

  // ----- a word that is accepted although it is not a codeword -----

  /** Descending powers of alpha^26. */
  ghost function Ramp(n: nat): (w: seq<Sym>)
    ensures |w| == n
    ensures forall j :: 0 <= j < n ==> w[j] == Exp(26 * (n - 1 - j))
  {
    seq(n, j requires 0 <= j < n => Exp(26 * (n - 1 - j)))
  }

  ghost function AcceptedWord(): seq<Sym>
  {
    Ramp(NN)
  }

  ghost function Unit(k: nat): (p: seq<Sym>)
    ensures |p| == NROOTS + 1
    ensures forall i :: 0 <= i <= NROOTS ==> p[i] == if i == k then 1 else 0
  {
    seq(NROOTS + 1, i => if i == k then 1 else 0)
  }

  /** 1 + y + ... + y^(n-1), times y + 1, is y^n + 1. */
  lemma {:induction false} GeometricSum(w: seq<Sym>, a: nat, x: Sym)
    requires forall j :: 0 <= j < |w| ==> w[j] == Pow(Exp(a), |w| - 1 - j)
    ensures Mul(Add(1, Mul(Exp(a), x)), Horner(w, x)) == Add(1, Pow(Mul(Exp(a), x), |w|))
  {
    hide Mul, Add, Exp;
    var y := Mul(Exp(a), x);
    if w == [] {
      MulZero(Add(1, y));
      AddSelf(1);
    } else {
      var c, t, n := w[0], w[1..], |w| - 1;
      assert w == [c] + t;
      GeometricSum(t, a, x);
      HornerFront(c, t, x);
      PowMul(Exp(a), x, n);
      MulAdd(Add(1, y), Pow(y, n), Horner(t, x));
      MulAdd(Pow(y, n), 1, y);
      MulOne(Pow(y, n));
      // (y^n + y^(n+1)) + (1 + y^n)
      var u, v := Pow(y, n), Mul(y, Pow(y, n));
      AddComm(u, v);
      AddComm(1, u);
      AddAssoc(v, u, Add(u, 1));
      AddAssoc(u, u, 1);
      AddSelf(u);
      AddZero(1);
      AddComm(v, 1);
    }
  }

  lemma {:induction false} PowMul(a: Sym, b: Sym, n: nat)
    ensures Pow(Mul(a, b), n) == Mul(Pow(a, n), Pow(b, n))
  {
    hide Mul;
    if n == 0 {
      MulOne(1);
    } else {
      PowMul(a, b, n - 1);
      MulSwap(a, b, Pow(a, n - 1), Pow(b, n - 1));
    }
  }

  /** Its only nonzero syndrome is the fifth. */
  lemma AcceptedSyndromes()
    ensures forall i :: 0 <= i < NROOTS ==> Syndromes(AcceptedWord())[i] == if i == 4 then 1 else 0
  {
    hide Mul, Add, Exp, Horner, Pow;
    var w := AcceptedWord();
    forall i | 0 <= i < NROOTS
      ensures Syndromes(w)[i] == if i == 4 then 1 else 0
    {
      AcceptedSyndrome(w, i);
    }
  }

  lemma AcceptedSyndrome(w: seq<Sym>, i: nat)
    requires w == AcceptedWord() && i < NROOTS
    ensures Horner(w, Exp(i + 1)) == if i == 4 then 1 else 0
  {
    hide Mul, Add, Exp, Horner, Pow;
    if i == 4 {
      RampFifth(NN);
    } else {
      var a, x := 26, Exp(i + 1);
      var y := Mul(Exp(a), x);
      forall j | 0 <= j < NN
        ensures w[j] == Pow(Exp(a), NN - 1 - j)
      {
        PowExp(a, NN - 1 - j);
        TimesIsProduct(NN - 1 - j, a);
      }
      GeometricSum(w, a, x);
      MulExp(a, i + 1);
      FullCycle(a + i + 1);
      AddSelf(1);
      MulNonzero(Add(1, y), Horner(w, x));
      AddCancel(1, y);
    }
  }

  /** The 31st power of every power of alpha is one, and alpha^k is one only
      for multiples of 31. */
  lemma FullCycle(k: nat)
    ensures Pow(Exp(k), NN) == 1
    ensures k % NN != 0 ==> Exp(k) != 1
  {
    assert Exp(0) == 1;
    hide Exp, Pow;
    PowExp(k, NN);
    TimesIsProduct(NN, k);
    ExpMod(NN * k);
    assert NN * k % NN == 0 by { Bits.DivModUnique(NN * k, NN, k, 0); }
    LogExp(k);
    LogExp(0);
  }

  /** At alpha^5 every term of the sum is one. */
  lemma {:induction false} RampFifth(n: nat)
    ensures Horner(Ramp(n), Exp(5)) == if n % 2 == 1 then 1 else 0
  {
    hide Mul, Add, Exp;
    if n > 0 {
      var k, t := n - 1, Ramp(n - 1);
      assert Ramp(n) == [Exp(26 * k)] + t;
      HornerFront(Exp(26 * k), t, Exp(5));
      RampFifth(k);
      PowExp(5, k);
      TimesIsProduct(k, 5);
      MulExp(26 * k, 5 * k);
      UnitPower(k);
      AddSelf(1);
      AddZero(1);
    }
  }

  lemma UnitPower(k: nat)
    ensures Exp(26 * k + 5 * k) == 1
  {
    assert Exp(0) == 1;
    hide Exp;
    ExpMod(31 * k);
    assert 31 * k % 31 == 0;
  }

  // ----- the iteration on those syndromes -----

  lemma {:induction false} ConvUnit(k: nat, s: seq<Sym>, n: int)
    requires k <= NROOTS && n <= NROOTS
    ensures Conv(Unit(k), s, n) == Coef(s, n - k)
  {
    hide Conv;
    if k == 0 {
      assert Unit(0) == BM.One(NROOTS);
      BM.OneConv(NROOTS, s, n);
    } else {
      assert Unit(k) == BM.Shift(Unit(k - 1));
      BM.ConvShift(Unit(k - 1), s, n);
      ConvUnit(k - 1, s, n - 1);
    }
  }

  ghost predicate FifthOnly(s: seq<Sym>)
  {
    |s| == NROOTS && forall i :: 0 <= i < NROOTS ==> s[i] == if i == 4 then 1 else 0
  }

  lemma {:induction false} RunBeforeFifth(s: seq<Sym>, n: nat)
    requires FifthOnly(s) && n <= 4
    ensures BM.Run(s, n) == BM.State(Unit(0), Unit(n), 0)
  {
    hide Mul, Add, Conv;
    if n == 0 {
      assert Unit(0) == BM.One(NROOTS);
    } else {
      RunBeforeFifth(s, n - 1);
      ConvUnit(0, s, n - 1);
      assert Unit(n) == BM.Shift(Unit(n - 1));
    }
  }

  lemma ConvOnePlus(k: nat, s: seq<Sym>, n: int)
    requires k <= NROOTS && n <= NROOTS
    ensures Conv(AddSeq(Unit(0), Scale(1, Unit(k))), s, n) == Add(Coef(s, n), Coef(s, n - k))
  {
    hide Mul, Add, Conv;
    BM.ConvLinear(Unit(0), Unit(k), 1, s, n);
    ConvUnit(0, s, n);
    ConvUnit(k, s, n);
    MulOne(Coef(s, n - k));
  }

  lemma {:induction false} RunAfterFifth(s: seq<Sym>, n: nat)
    requires FifthOnly(s) && 5 <= n <= 9
    ensures BM.Run(s, n) == BM.State(AddSeq(Unit(0), Scale(1, Unit(5))), Unit(n - 5), 5)
  {
    hide Mul, Add, Conv, Inv;
    assert Unit(n - 4) == BM.Shift(Unit(n - 5));
    if n == 5 {
      RunBeforeFifth(s, 4);
      ConvUnit(0, s, 4);
      assert Unit(5) == BM.Shift(Unit(4));
      MulInv(1);
      MulOne(Inv(1));
      MulZero(1);
      MulOne(1);
      assert Scale(Inv(1), Unit(0)) == Unit(0);
    } else {
      RunAfterFifth(s, n - 1);
      ConvOnePlus(5, s, n - 1);
      AddZero(0);
      assert Unit(n - 5) == BM.Shift(Unit(n - 6));
    }
  }

  lemma RunEndsWithOne(s: seq<Sym>)
    requires FifthOnly(s)
    ensures BM.Run(s, NROOTS) == BM.State(Unit(0), Unit(5), 5)
  {
    hide Mul, Add, Conv, Inv;
    var lambda := AddSeq(Unit(0), Scale(1, Unit(5)));
    RunAfterFifth(s, 9);
    ConvOnePlus(5, s, 9);
    AddZero(1);
    assert Unit(5) == BM.Shift(Unit(4));
    forall i | 0 <= i <= NROOTS
      ensures AddSeq(lambda, Scale(1, Unit(5)))[i] == Unit(0)[i]
    {
      AddCancel(Unit(0)[i], Scale(1, Unit(5))[i]);
    }
    assert AddSeq(lambda, Scale(1, Unit(5))) == Unit(0);
  }

  lemma {:induction false} NoRoots(k: nat)
    ensures RootCount(Unit(0), k) == 0
  {
    hide Mul, Add, Exp;
    if k > 0 {
      NoRoots(k - 1);
      EvalTrim(Unit(0), 1, Exp(k));
      assert Unit(0)[..1] == [1];
      assert [1][..0] == [];
      MulOne(1);
      AddZero(1);
    }
  }

  /** decode_rs8 reports success with no errors on a word that is not a codeword. */
  lemma AcceptsNonCodeword()
    ensures var w := AcceptedWord();
            |w| == NN && !IsCodeword(w) && Decode(w) == (0, BM.Zeros(NN))
  {
    hide Mul, Add, Exp, Conv, Inv;
    var w := AcceptedWord();
    var s := Syndromes(w);
    AcceptedSyndromes();
    assert s[4] == 1;
    RunEndsWithOne(s);
    DegreeIs(Unit(0), 0);
    NoRoots(NN);
    forall k | 0 <= k < NN
      ensures !RootAt(Unit(0), k)
    {
      NoRoots(k + 1);
    }
    assert ErrorWord(Unit(0), s) == BM.Zeros(NN);
  }
}
