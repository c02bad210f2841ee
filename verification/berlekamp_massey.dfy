/** The Berlekamp-Massey iteration of decode_rs8, with the correction
    polynomial in polynomial form, and Massey's theorem about it. */
module BerlekampMassey {
  import opened GF32
  import opened Poly

  datatype State = State(lambda: seq<Sym>, b: seq<Sym>, el: int)

  function Shift(p: seq<Sym>): (r: seq<Sym>)
    requires p != []
    ensures |r| == |p|
  {
    [0] + p[..|p| - 1]
  }

  function Zeros(n: nat): (r: seq<Sym>)
    ensures |r| == n && AllZeros(r)
  {
    seq(n, _ => 0)
  }

  function One(n: nat): seq<Sym>
  {
    [1] + Zeros(n)
  }

  /** Step n + 1 of the loop: take syndrome s[n] into account. */
  ghost function Step(st: State, s: seq<Sym>, n: nat): State
    requires |st.lambda| == |st.b| > 0
  {
    var d := Conv(st.lambda, s, n);
    var xb := Shift(st.b);
    if d == 0 then State(st.lambda, xb, st.el)
    else
      var t := AddSeq(st.lambda, Scale(d, xb));
      if 2 * st.el <= n then State(t, Scale(Inv(d), st.lambda), n + 1 - st.el)
      else State(t, xb, st.el)
  }

  ghost function Run(s: seq<Sym>, r: nat): (st: State)
    ensures |st.lambda| == |st.b| == |s| + 1
  {
    if r == 0 then State(One(|s|), One(|s|), 0)
    else Step(Run(s, r - 1), s, r - 1)
  }

  /** p is the connection polynomial, of length at most L, of a linear
      recurrence that the first r terms of s satisfy. */
  ghost predicate Generates(p: seq<Sym>, L: int, s: seq<Sym>, r: int)
  {
    && p != [] && p[0] == 1 && 0 <= L
    && (forall i :: L < i < |p| ==> p[i] == 0)
    && (forall n :: L <= n < r ==> Conv(p, s, n) == 0)
  }

  /** No recurrence for the first r terms is shorter than L. */
  ghost predicate Shortest(L: int, s: seq<Sym>, r: int)
  {
    forall p, M :: Generates(p, M, s, r) ==> L <= M
  }

  /** b annihilates the terms up to the one before last, where it gives 1. */
  ghost predicate Corrector(st: State, s: seq<Sym>, r: int)
  {
    && (forall i :: 0 <= i < |st.b| && r - st.el < i ==> st.b[i] == 0)
    && (st.el >= 1 ==> Conv(st.b, s, r - 1) == 1)
    && (st.el >= 1 ==> forall n :: r - st.el <= n < r - 1 ==> Conv(st.b, s, n) == 0)
  }

  // ----- convolution is bilinear and commutes with the shift -----

  lemma {:induction false} ConvLinear(p: seq<Sym>, q: seq<Sym>, c: Sym, s: seq<Sym>, n: int)
    requires |p| == |q|
    ensures Conv(AddSeq(p, Scale(c, q)), s, n) == Add(Conv(p, s, n), Mul(c, Conv(q, s, n)))
  {
    hide Mul, Add;
    var w := AddSeq(p, Scale(c, q));
    if p == [] {
      MulZero(c);
      AddZero(0);
    } else {
      var p', q' := p[..|p| - 1], q[..|q| - 1];
      var a, b, t := p[|p| - 1], q[|q| - 1], Coef(s, n - (|p| - 1));
      ConvLinear(p', q', c, s, n);
      assert w[..|w| - 1] == AddSeq(p', Scale(c, q'));
      MulAdd(t, a, Mul(c, b));
      MulAssoc(c, b, t);
      MulAdd(c, Conv(q', s, n), Mul(b, t));
      AddSwap(Conv(p', s, n), Mul(c, Conv(q', s, n)), Mul(a, t), Mul(c, Mul(b, t)));
    }
  }

  lemma {:induction false} ConvScale(c: Sym, p: seq<Sym>, s: seq<Sym>, n: int)
    ensures Conv(Scale(c, p), s, n) == Mul(c, Conv(p, s, n))
  {
    hide Mul, Add;
    if p == [] {
      MulZero(c);
    } else {
      var p', a, t := p[..|p| - 1], p[|p| - 1], Coef(s, n - (|p| - 1));
      ConvScale(c, p', s, n);
      assert Scale(c, p)[..|p| - 1] == Scale(c, p');
      MulAssoc(c, a, t);
      MulAdd(c, Conv(p', s, n), Mul(a, t));
    }
  }

  lemma {:induction false} ConvShiftFull(p: seq<Sym>, s: seq<Sym>, n: int)
    ensures Conv([0] + p, s, n) == Conv(p, s, n - 1)
  {
    hide Mul, Add;
    var w := [0] + p;
    if p == [] {
      assert w == [0];
      assert w[..0] == [];
      MulZero(Coef(s, n));
      AddZero(0);
    } else {
      ConvShiftFull(p[..|p| - 1], s, n);
      assert w[..|w| - 1] == [0] + p[..|p| - 1];
    }
  }

  /** The coefficient shifted out never meets a term of s. */
  lemma ConvShift(p: seq<Sym>, s: seq<Sym>, n: int)
    requires p != [] && n < |p|
    ensures Conv(Shift(p), s, n) == Conv(p, s, n - 1)
  {
    hide Mul, Add, Conv;
    ConvShiftFull(p[..|p| - 1], s, n);
    ConvTrim(p, |p| - 1, s, n - 1);
  }

  // ----- Massey's length bound -----

  /** The sum of c[i] * Conv(p, s, n - i). */
  ghost function ConvConv(c: seq<Sym>, p: seq<Sym>, s: seq<Sym>, n: int): Sym
  {
    if c == [] then 0
    else Add(ConvConv(c[..|c| - 1], p, s, n), Mul(c[|c| - 1], Conv(p, s, n - (|c| - 1))))
  }

  lemma {:induction false} ConvConvSnoc(c: seq<Sym>, p: seq<Sym>, s: seq<Sym>, n: int)
    requires p != []
    ensures ConvConv(c, p, s, n)
         == Add(ConvConv(c, p[..|p| - 1], s, n), Mul(p[|p| - 1], Conv(c, s, n - (|p| - 1))))
  {
    hide Mul, Add;
    var q, b, m := p[..|p| - 1], p[|p| - 1], |p| - 1;
    if c == [] {
      MulZero(b);
      AddZero(0);
    } else {
      var d, a, k := c[..|c| - 1], c[|c| - 1], |c| - 1;
      ConvConvSnoc(d, p, s, n);
      var t := Coef(s, n - k - m);
      assert Coef(s, n - m - k) == t;
      MulAdd(a, Conv(q, s, n - k), Mul(b, t));
      MulAdd(b, Conv(d, s, n - m), Mul(a, t));
      assert Mul(a, Mul(b, t)) == Mul(b, Mul(a, t)) by {
        MulAssoc(a, b, t);
        MulComm(a, b);
        MulAssoc(b, a, t);
      }
      AddSwap(ConvConv(d, q, s, n), Mul(b, Conv(d, s, n - m)), Mul(a, Conv(q, s, n - k)), Mul(a, Mul(b, t)));
    }
  }

  /** The double sum does not depend on which recurrence runs first. */
  lemma {:induction false} ConvConvSymmetric(c: seq<Sym>, p: seq<Sym>, s: seq<Sym>, n: int)
    ensures ConvConv(c, p, s, n) == ConvConv(p, c, s, n)
    decreases |p|
  {
    hide Mul, Add;
    if p == [] {
      ConvConvEmpty(c, s, n);
    } else {
      ConvConvSnoc(c, p, s, n);
      ConvConvSymmetric(c, p[..|p| - 1], s, n);
    }
  }

  lemma {:induction false} ConvConvEmpty(c: seq<Sym>, s: seq<Sym>, n: int)
    ensures ConvConv(c, [], s, n) == 0
  {
    hide Mul, Add;
    if c != [] {
      ConvConvEmpty(c[..|c| - 1], s, n);
      MulZero(c[|c| - 1]);
      AddZero(0);
    }
  }

  /** Only the terms whose inner recurrence fails contribute. */
  lemma {:induction false} ConvConvHead(c: seq<Sym>, p: seq<Sym>, s: seq<Sym>, n: int)
    requires c != []
    requires forall i :: 1 <= i < |c| ==> c[i] == 0 || Conv(p, s, n - i) == 0
    ensures ConvConv(c, p, s, n) == Mul(c[0], Conv(p, s, n))
  {
    hide Mul, Add;
    var d, k := c[..|c| - 1], |c| - 1;
    if k == 0 {
      AddZero(Mul(c[0], Conv(p, s, n)));
      assert d == [];
    } else {
      ConvConvHead(d, p, s, n);
      MulZero(Conv(p, s, n - k));
      MulZero(c[k]);
      AddZero(Mul(c[0], Conv(p, s, n)));
    }
  }

  /** If a recurrence of length L works up to term N and fails there, every
      recurrence that works through term N has length at least N + 1 - L. */
  lemma MasseyBound(p: seq<Sym>, L: int, c: seq<Sym>, M: int, s: seq<Sym>, N: nat)
    requires Generates(p, L, s, N) && Conv(p, s, N) != 0
    requires Generates(c, M, s, N + 1)
    ensures M >= N + 1 - L
  {
    hide Mul, Add, Conv;
    if M <= N - L {
      ConvConvHead(c, p, s, N);
      MulOne(Conv(p, s, N));
      ConvConvHead(p, c, s, N);
      MulZero(1);
      ConvConvSymmetric(c, p, s, N);
    }
  }

  // ----- the invariant of the iteration -----

  lemma {:induction false} OneConv(k: nat, s: seq<Sym>, n: int)
    ensures Conv(One(k), s, n) == Coef(s, n)
  {
    ConvTrim(One(k), 1, s, n);
    assert One(k)[..1] == [1];
    hide Mul, Add;
    assert [1][..0] == [];
    MulOne(Coef(s, n));
    AddZero(Coef(s, n));
  }

  lemma TermsOfT(st: State, s: seq<Sym>, n: nat, m: int)
    requires |st.lambda| == |st.b| > 0 && m < |st.b|
    ensures var d := Conv(st.lambda, s, n);
            Conv(AddSeq(st.lambda, Scale(d, Shift(st.b))), s, m)
            == Add(Conv(st.lambda, s, m), Mul(d, Conv(st.b, s, m - 1)))
  {
    hide Mul, Add, Conv;
    ConvLinear(st.lambda, Shift(st.b), Conv(st.lambda, s, n), s, m);
    ConvShift(st.b, s, m);
  }

  /** The new polynomial annihilates term n as well. */
  lemma StepGenerates(st: State, s: seq<Sym>, n: nat)
    requires |st.lambda| == |st.b| == |s| + 1 && n < |s|
    requires st.el <= n && Generates(st.lambda, st.el, s, n) && Corrector(st, s, n)
    ensures var st' := Step(st, s, n);
            st'.el <= n + 1 && Generates(st'.lambda, st'.el, s, n + 1)
  {
    hide Mul, Add, Conv, Inv;
    var d, st' := Conv(st.lambda, s, n), Step(st, s, n);
    if d != 0 {
      forall m | st'.el <= m < n + 1
        ensures Conv(st'.lambda, s, m) == 0
      {
        TermsOfT(st, s, n, m);
        if m == n {
          MulOne(d);
          AddSelf(d);
        } else {
          MulZero(d);
          AddZero(0);
        }
      }
      forall i | st'.el < i < |st'.lambda|
        ensures st'.lambda[i] == 0
      {
        MulZero(d);
        AddZero(0);
      }
      MulZero(d);
      AddZero(1);
    }
  }

  lemma StepCorrector(st: State, s: seq<Sym>, n: nat)
    requires |st.lambda| == |st.b| == |s| + 1 && n < |s|
    requires st.el <= n && Generates(st.lambda, st.el, s, n) && Corrector(st, s, n)
    ensures Corrector(Step(st, s, n), s, n + 1)
  {
    hide Mul, Add, Conv, Inv;
    var d, st' := Conv(st.lambda, s, n), Step(st, s, n);
    if d != 0 && 2 * st.el <= n {
      forall m | n + 1 - st'.el <= m <= n
        ensures Conv(st'.b, s, m) == Mul(Inv(d), Conv(st.lambda, s, m))
      {
        ConvScale(Inv(d), st.lambda, s, m);
      }
      MulInv(d);
      MulZero(Inv(d));
    } else {
      forall m | m <= n
        ensures Conv(st'.b, s, m) == Conv(st.b, s, m - 1)
      {
        ConvShift(st.b, s, m);
      }
    }
  }

  lemma StepShortest(st: State, s: seq<Sym>, n: nat)
    requires |st.lambda| == |st.b| == |s| + 1 && n < |s|
    requires Generates(st.lambda, st.el, s, n) && Shortest(st.el, s, n)
    ensures Shortest(Step(st, s, n).el, s, n + 1)
  {
    hide Mul, Add, Conv, Inv;
    var r := n + 1;
    forall p, M | Generates(p, M, s, r)
      ensures Step(st, s, n).el <= M
    {
      assert Generates(p, M, s, n);
      if Conv(st.lambda, s, n) != 0 {
        MasseyBound(st.lambda, st.el, p, M, s, n);
      }
    }
  }

  /** After step r the pair (lambda, el) is a shortest recurrence for the
      first r terms, whatever the terms are. */
  lemma {:induction false} RunInvariant(s: seq<Sym>, r: nat)
    requires r <= |s|
    ensures var st := Run(s, r);
            && st.el <= r
            && Generates(st.lambda, st.el, s, r)
            && Shortest(st.el, s, r)
            && Corrector(st, s, r)
  {
    hide Mul, Add, Conv, Inv, Step;
    if r == 0 {
    } else {
      var st := Run(s, r - 1);
      RunInvariant(s, r - 1);
      StepGenerates(st, s, r - 1);
      StepCorrector(st, s, r - 1);
      StepShortest(st, s, r - 1);
    }
  }
}
