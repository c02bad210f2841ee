/** decode_rs8 without erasures: syndromes, Berlekamp-Massey over logarithms,
    Chien search and Forney's correction, each loop against the function it
    computes. */
module RsDecoder {
  import opened Bits
  import opened GF32
  import opened Poly
  import opened PowerSums
  import opened ReedSolomon
  import opened Decoding
  import Soundness
  import opened RsTables
  import opened RsEncoder
  import BM = BerlekampMassey

  /** The word a data and a parity buffer stand for. */
  function Received(data: seq<nat>, par: seq<nat>): (w: seq<Sym>)
    ensures |w| == |data| + |par|
  {
    Masked(data) + Masked(par)
  }

  // ----- syndromes -----

  /** syn[i] becomes d xor syn[i] * alpha^(fcr + i), the zero case apart. */
  method HornerStep(rs: RsControl, syn: array<Word16>, d: Sym, ghost w: seq<Sym>)
    requires rs.Valid() && syn !in rs.Repr() && syn.Length == NROOTS
    requires forall i :: 0 <= i < NROOTS ==> syn[i] == Horner(w, Exp(i + 1))
    modifies syn
    ensures forall i :: 0 <= i < NROOTS ==> syn[i] == Horner(w + [d], Exp(i + 1))
  {
    hide Mul, Add, Exp;
    Snoc(w, d);
    var i := 0;
    while i < rs.nroots
      invariant 0 <= i <= NROOTS
      invariant forall k :: 0 <= k < i ==> syn[k] == Horner(w + [d], Exp(k + 1))
      invariant forall k :: i <= k < NROOTS ==> syn[k] == Horner(w, Exp(k + 1))
    {
      ghost var x, h := Exp(i + 1), Horner(w, Exp(i + 1));
      assert Horner(w + [d], x) == Add(Mul(x, h), d);
      if syn[i] == 0 {
        MulZero(x);
        AddZero(d);
        syn[i] := d;
      } else {
        TableProduct(h, i + 1);
        MulComm(x, h);
        AddComm(Mul(x, h), d);
        var m := rs.Modnn(rs.indexOf[syn[i]] + (rs.fcr + i) * rs.prim);
        syn[i] := XorSym(d, rs.alphaTo[m]);
      }
      i := i + 1;
    }
  }

  method ComputeSyndromes(rs: RsControl, data: array<Byte>, par: array<Word16>) returns (syn: array<Word16>)
    requires rs.Valid() && data.Length == MSG_SYMBOLS && par.Length == NROOTS
    ensures fresh(syn) && syn.Length == NROOTS
    ensures syn[..] == Syndromes(Received(data[..], par[..]))
  {
    hide Mul, Add, Exp;
    var first := data[0] % 32;
    syn := new Word16[NROOTS](_ => first);
    ghost var w := Masked(data[..]);
    assert [w[0]][..0] == [];
    forall i | 0 <= i < NROOTS
      ensures syn[i] == Horner(w[..1], Exp(i + 1))
    {
      assert w[..1] == [w[0]];
      MulZero(Exp(i + 1));
      AddZero(w[0]);
    }
    hide Horner;
    var j := 1;
    while j < MSG_SYMBOLS
      invariant 1 <= j <= MSG_SYMBOLS
      invariant forall i :: 0 <= i < NROOTS ==> syn[i] == Horner(w[..j], Exp(i + 1))
    {
      assert w[..j + 1] == w[..j] + [data[j] % 32];
      HornerStep(rs, syn, data[j] % 32, w[..j]);
      j := j + 1;
    }
    ghost var p := Masked(par[..]);
    assert w[..MSG_SYMBOLS] == w == w + p[..0];
    j := 0;
    while j < rs.nroots
      invariant 0 <= j <= NROOTS
      invariant forall i :: 0 <= i < NROOTS ==> syn[i] == Horner(w + p[..j], Exp(i + 1))
    {
      assert w + p[..j + 1] == (w + p[..j]) + [par[j] % 32];
      HornerStep(rs, syn, par[j] % 32, w + p[..j]);
      j := j + 1;
    }
    assert w + p[..NROOTS] == Received(data[..], par[..]);
  }

  /** Index form in place; tells whether any syndrome was not zero. */
  method SyndromesToIndex(rs: RsControl, syn: array<Word16>, ghost s: seq<Sym>) returns (synError: bool)
    requires rs.Valid() && syn !in rs.Repr() && syn.Length == NROOTS == |s| && syn[..] == s
    modifies syn
    ensures IndexForm(syn[..], s)
    ensures synError <==> !AllZeros(s)
  {
    synError := false;
    var i := 0;
    while i < rs.nroots
      invariant 0 <= i <= NROOTS
      invariant synError <==> exists k :: 0 <= k < i && s[k] != 0
      invariant forall k :: 0 <= k < i ==> syn[k] == Log(s[k])
      invariant forall k :: i <= k < NROOTS ==> syn[k] == s[k]
    {
      synError := synError || syn[i] != 0;
      syn[i] := rs.indexOf[syn[i]];
      i := i + 1;
    }
  }

  // ----- Berlekamp-Massey -----

  /** alpha_to[rs_modnn(i + j)] is a product when neither index is nn. */
  method ProductOfIndices(rs: RsControl, i: Word16, j: Word16, ghost a: Sym, ghost b: Sym) returns (r: Word16)
    requires rs.Valid() && a != 0 && b != 0 && i == Log(a) && j == Log(b)
    ensures r < 32 && r == Mul(a, b)
  {
    hide Exp;
    TableProduct(a, j);
    var m := rs.Modnn(i + j);
    r := rs.alphaTo[m];
  }

  method Discrepancy(rs: RsControl, lambda: array<Word16>, syn: array<Word16>, r: nat,
                     ghost p: seq<Sym>, ghost s: seq<Sym>)
    returns (discr: Word16)
    requires rs.Valid() && lambda.Length == NROOTS + 1 && syn.Length == NROOTS
    requires lambda[..] == p && IndexForm(syn[..], s) && |s| == NROOTS && 1 <= r <= NROOTS
    ensures discr < 32 && discr == Conv(p, s, r - 1)
  {
    hide Mul, Add, Conv;
    assert forall k :: 0 <= k <= NROOTS ==> lambda[k] == p[k];
    assert forall k :: 0 <= k < NROOTS ==> syn[k] == syn[..][k] == Log(s[k]);
    EmptyConv(p[..0], s, r - 1);
    discr := 0;
    var i := 0;
    while i < r
      invariant 0 <= i <= r && discr < 32
      invariant discr == Conv(p[..i], s, r - 1)
    {
      ghost var t := s[r - 1 - i];
      ConvPart(p, s, r - 1, i);
      MulZero(p[i]);
      MulZero(t);
      AddZero(discr);
      if lambda[i] != 0 && syn[r - i - 1] != rs.nn {
        var q := ProductOfIndices(rs, rs.indexOf[lambda[i]], syn[r - i - 1], p[i], t);
        discr := XorSym(discr, q);
      }
      i := i + 1;
    }
    ConvTrim(p, r, s, r - 1);
  }

  /** T(x) := lambda(x) - d x B(x) */
  method Update(rs: RsControl, lambda: array<Word16>, b: array<Word16>, t: array<Word16>, discr: Word16,
                ghost d: Sym, ghost st: BM.State)
    requires rs.Valid() && t !in rs.Repr() && t != lambda && t != b
    requires lambda.Length == b.Length == t.Length == NROOTS + 1 == |st.b|
    requires lambda[..] == st.lambda && IndexForm(b[..], st.b) && d != 0 && discr == Log(d)
    modifies t
    ensures t[..] == AddSeq(st.lambda, Scale(d, BM.Shift(st.b)))
  {
    hide Mul, Add;
    ghost var u := AddSeq(st.lambda, Scale(d, BM.Shift(st.b)));
    assert forall k :: 0 <= k <= NROOTS ==> lambda[k] == st.lambda[k];
    assert forall k :: 0 <= k <= NROOTS ==> b[k] == b[..][k] == Log(st.b[k]);
    MulZero(d);
    AddZero(st.lambda[0]);
    t[0] := lambda[0];
    var i := 0;
    while i < rs.nroots
      invariant 0 <= i <= NROOTS
      invariant forall k :: 0 <= k <= i ==> t[k] == u[k]
    {
      assert u[i + 1] == Add(st.lambda[i + 1], Mul(d, st.b[i]));
      if b[i] != rs.nn {
        var q := ProductOfIndices(rs, discr, b[i], d, st.b[i]);
        t[i + 1] := XorSym(lambda[i + 1], q);
      } else {
        AddZero(st.lambda[i + 1]);
        t[i + 1] := lambda[i + 1];
      }
      i := i + 1;
    }
  }

  /** B(x) := x B(x), in index form. */
  method ShiftIndices(rs: RsControl, b: array<Word16>, ghost p: seq<Sym>)
    requires rs.Valid() && b !in rs.Repr() && b.Length == NROOTS + 1 && IndexForm(b[..], p)
    modifies b
    ensures IndexForm(b[..], BM.Shift(p))
  {
    ghost var c := b[..];
    forall i | 0 <= i < NROOTS {
      b[i + 1] := b[i];
    }
    b[0] := rs.nn;
    assert forall i :: 1 <= i <= NROOTS ==> b[i] == c[i - 1];
  }

  lemma LogOfQuotient(a: Sym, d: Sym)
    requires a != 0 && d != 0
    ensures Log(Mul(Inv(d), a)) == (Log(a) - Log(d) + NN) % NN
  {
    hide Exp, Mul;
    MulInv(d);
    LogMul(Inv(d), a);
    LogExp(NN - Log(d));
    ModSum(NN - Log(d), Log(a));
  }

  /** B(x) := lambda(x) / d, in index form. */
  method DivideByDiscrepancy(rs: RsControl, lambda: array<Word16>, b: array<Word16>, discr: Word16,
                             ghost d: Sym, ghost p: seq<Sym>)
    requires rs.Valid() && b !in rs.Repr() && b != lambda && lambda.Length == b.Length == NROOTS + 1
    requires lambda[..] == p && d != 0 && discr == Log(d)
    modifies b
    ensures IndexForm(b[..], Scale(Inv(d), p))
  {
    hide Mul, Exp, Inv;
    ghost var q := Scale(Inv(d), p);
    assert forall k :: 0 <= k <= NROOTS ==> lambda[k] == p[k];
    var i := 0;
    while i <= rs.nroots
      invariant 0 <= i <= NROOTS + 1
      invariant forall k :: 0 <= k < i ==> b[k] == Log(q[k])
    {
      if lambda[i] == 0 {
        MulZero(Inv(d));
        b[i] := rs.nn;
      } else {
        LogOfQuotient(p[i], d);
        b[i] := rs.Modnn(rs.indexOf[lambda[i]] - discr + rs.nn);
      }
      i := i + 1;
    }
  }

  /** One round of the main loop. */
  method BerlekampMasseyRound(rs: RsControl, syn: array<Word16>, lambda: array<Word16>, b: array<Word16>,
                              r: nat, el: nat,
                              ghost s: seq<Sym>, ghost st: BM.State) returns (el': nat)
    requires rs.Valid() && {lambda, b} !! rs.Repr() && lambda != b && syn != lambda && syn != b
    requires lambda.Length == b.Length == NROOTS + 1 && syn.Length == NROOTS == |s| && 1 <= r <= NROOTS
    requires IndexForm(syn[..], s)
    requires lambda[..] == st.lambda && IndexForm(b[..], st.b) && el == st.el && el < r
    modifies lambda, b
    ensures var next := BM.Step(st, s, r - 1);
      lambda[..] == next.lambda && IndexForm(b[..], next.b) && el' == next.el
  {
    hide Mul, Add, Exp, Inv, Conv;
    ghost var d: Sym := Conv(st.lambda, s, r - 1);
    var poly := Discrepancy(rs, lambda, syn, r, st.lambda, s);
    var discr := rs.indexOf[poly];
    el' := el;
    if discr == rs.nn {
      ShiftIndices(rs, b, st.b);
    } else {
      var t := new Word16[NROOTS + 1](_ => 0);
      Update(rs, lambda, b, t, discr, d, st);
      if 2 * el <= r - 1 {
        el' := r - el;
        DivideByDiscrepancy(rs, lambda, b, discr, d, st.lambda);
      } else {
        ShiftIndices(rs, b, st.b);
      }
      forall i | 0 <= i <= NROOTS {
        lambda[i] := t[i];
      }
      assert lambda[..] == t[..];
    }
  }

  method FindLocator(rs: RsControl, syn: array<Word16>, ghost s: seq<Sym>) returns (lambda: array<Word16>)
    requires rs.Valid() && syn.Length == NROOTS && |s| == NROOTS && IndexForm(syn[..], s)
    ensures fresh(lambda) && lambda.Length == NROOTS + 1
    ensures lambda[..] == BM.Run(s, NROOTS).lambda
  {
    hide BM.Step;
    lambda := new Word16[NROOTS + 1](_ => 0);
    lambda[0] := 1;
    var b := new Word16[NROOTS + 1](_ => 0);
    var i := 0;
    while i < rs.nroots + 1
      invariant 0 <= i <= NROOTS + 1
      invariant forall k :: 0 <= k <= NROOTS ==> lambda[k] == if k == 0 then 1 else 0
      invariant forall k :: 0 <= k < i ==> b[k] == Log(lambda[k])
    {
      b[i] := rs.indexOf[lambda[i]];
      i := i + 1;
    }
    assert lambda[..] == BM.Run(s, 0).lambda;
    var r, el := 1, 0;
    while r <= rs.nroots
      invariant 1 <= r <= NROOTS + 1
      invariant var st := BM.Run(s, r - 1);
        lambda[..] == st.lambda && IndexForm(b[..], st.b) && el == st.el && 0 <= el < r
      invariant IndexForm(syn[..], s)
    {
      BM.RunInvariant(s, r);
      el := BerlekampMasseyRound(rs, syn, lambda, b, r, el, s, BM.Run(s, r - 1));
      r := r + 1;
    }
  }

  // ----- Chien search -----

  /** The positions the search reports, in order. */
  ghost function RootPositions(lambda: seq<Sym>, k: nat): (ps: seq<nat>)
    ensures |ps| == RootCount(lambda, k)
  {
    if k == 0 then []
    else if RootAt(lambda, k - 1) then RootPositions(lambda, k - 1) + [k - 1]
    else RootPositions(lambda, k - 1)
  }

  /** ps lists the roots below k, in ascending order. */
  ghost predicate ListsRoots(lambda: seq<Sym>, ps: seq<nat>, k: nat)
  {
    && (forall j :: 0 <= j < |ps| ==> ps[j] < k && RootAt(lambda, ps[j]))
    && (forall i, j :: 0 <= i < j < |ps| ==> ps[i] < ps[j])
    && (forall p: nat :: p < k && RootAt(lambda, p) ==> p in ps)
  }

  lemma NextRoot(lambda: seq<Sym>, ps: seq<nat>, k: nat)
    requires ListsRoots(lambda, ps, k)
    ensures ListsRoots(lambda, if RootAt(lambda, k) then ps + [k] else ps, k + 1)
  {
    hide RootAt;
    var next := if RootAt(lambda, k) then ps + [k] else ps;
    forall p: nat | p < k + 1 && RootAt(lambda, p)
      ensures p in next
    {
      if p < k {
        assert p in ps;
      }
    }
  }

  lemma {:induction false} PositionsAscend(lambda: seq<Sym>, k: nat)
    ensures ListsRoots(lambda, RootPositions(lambda, k), k)
  {
    hide RootAt;
    if k > 0 {
      hide ListsRoots;
      PositionsAscend(lambda, k - 1);
      NextRoot(lambda, RootPositions(lambda, k - 1), k - 1);
    }
  }

  /** There are never more roots than the degree. */
  lemma RootCountBound(lambda: seq<Sym>)
    requires lambda != [] && lambda[0] == 1
    ensures RootCount(lambda, NN) <= Degree(lambda)
  {
    hide RootAt, Horner, Degree, Locs, Weight;
    var m, d := Soundness.RootMask(lambda), Degree(lambda);
    Soundness.DegreeTop(lambda);
    RootCountIsWeight(lambda, m, NN);
    assert m[..NN] == m;
    LocsDistinct(m);
    var p := lambda[..d + 1];
    if Weight(m) > d {
      forall l | 0 <= l < Weight(m)
        ensures Horner(p, Locs(m)[l]) == 0
      {
        var j := LocIsPosition(m, m, l);
        RootAtIsHorner(lambda, d + 1, j);
      }
      RootBound(p, Locs(m));
      var first := Coef(p, 0);
    }
  }

  lemma RootStep(lambda: seq<Sym>, k: nat)
    ensures RootCount(lambda, k + 1) == RootCount(lambda, k) + if RootAt(lambda, k) then 1 else 0
    ensures RootAt(lambda, k) ==> RootPositions(lambda, k + 1) == RootPositions(lambda, k) + [k]
    ensures !RootAt(lambda, k) ==> RootPositions(lambda, k + 1) == RootPositions(lambda, k)
  {
    hide RootAt;
  }

  lemma {:induction false} RootCountMonotone(lambda: seq<Sym>, i: nat, k: nat)
    requires i <= k && RootCount(lambda, i) == RootCount(lambda, k)
    ensures RootPositions(lambda, i) == RootPositions(lambda, k)
  {
    hide RootAt, RootCount, RootPositions;
    if i < k {
      RootCountGrows(lambda, i, k - 1);
      RootStep(lambda, k - 1);
      RootCountMonotone(lambda, i, k - 1);
    }
  }

  lemma {:induction false} RootCountGrows(lambda: seq<Sym>, i: nat, k: nat)
    requires i <= k
    ensures RootCount(lambda, i) <= RootCount(lambda, k)
  {
    hide RootAt;
    if i < k {
      RootCountGrows(lambda, i, k - 1);
    }
  }

  /** The register of coefficient j before round i + 1. */
  ghost function Register(c: Sym, i: nat, j: nat): Sym
  {
    Mul(c, Pow(Exp(i), j))
  }

  lemma RegisterStep(c: Sym, i: nat, j: nat)
    requires c != 0
    ensures Register(c, i, j) != 0 && Register(c, i + 1, j) != 0
    ensures Log(Register(c, i + 1, j)) == (Log(Register(c, i, j)) + j) % NN
  {
    hide Mul, Exp, Pow;
    var x := Exp(j);
    PowExpSwap(i, j);
    PowExpSwap(i + 1, j);
    PowStep(x, i);
    MulComm(x, Pow(x, i));
    MulAssoc(c, Pow(x, i), x);
    ExpNonzero(j);
    PowNonzero(x, i);
    MulNonzero(c, Pow(x, i));
    LogMul(Register(c, i, j), x);
    LogExp(j);
    ModSum(Log(Register(c, i, j)), j);
  }

  lemma RegisterOfZero(i: nat, j: nat)
    ensures Register(0, i, j) == 0
  {
    hide Mul, Exp;
    MulZero(Pow(Exp(i), j));
  }

  lemma EvalPart(p: seq<Sym>, j: nat, x: Sym)
    requires j < |p|
    ensures Eval(p[..j + 1], x) == Add(Eval(p[..j], x), Mul(p[j], Pow(x, j)))
  {
    assert p[..j + 1][..j] == p[..j];
    hide Mul, Add, Pow;
  }

  lemma ConvPart(p: seq<Sym>, s: seq<Sym>, n: int, j: nat)
    requires j < |p|
    ensures Conv(p[..j + 1], s, n) == Add(Conv(p[..j], s, n), Mul(p[j], Coef(s, n - j)))
  {
    assert p[..j + 1][..j] == p[..j];
    hide Mul, Add, Coef;
  }

  lemma EmptyConv(p: seq<Sym>, s: seq<Sym>, n: int)
    requires p == []
    ensures Conv(p, s, n) == 0
  {
  }

  lemma EmptyEval(p: seq<Sym>, x: Sym)
    requires p == []
    ensures Eval(p, x) == 0 && Deriv(p, x) == 0
  {
  }

  /** Moving one term from what is left to what is summed. */
  lemma Accumulate(q: Sym, e: Sym, t: Sym)
    ensures Add(q, Add(e, t)) == Add(Add(q, t), e)
    ensures t == 0 ==> Add(q, Add(e, t)) == Add(q, e)
  {
    hide Add;
    AddComm(e, t);
    AddAssoc(q, t, e);
    AddZero(e);
  }

  lemma PowStep(x: Sym, n: nat)
    ensures Pow(x, n + 1) == Mul(x, Pow(x, n))
  {
  }

  /** One candidate: update the registers and add them up. */
  method EvaluateAt(rs: RsControl, reg: array<Word16>, deg: nat, i: nat, ghost p: seq<Sym>) returns (q: Word16)
    requires rs.Valid() && reg !in rs.Repr() && reg.Length == NROOTS + 1 == |p| && deg <= NROOTS
    requires p[0] == 1 && forall j :: deg < j <= NROOTS ==> p[j] == 0
    requires forall j :: 1 <= j <= deg ==> reg[j] == Log(Register(p[j], i, j))
    modifies reg
    ensures forall j :: 1 <= j <= deg ==> reg[j] == Log(Register(p[j], i + 1, j))
    ensures q < 32 && q == Eval(p, Exp(i + 1))
    ensures q == 0 <==> RootAt(p, i)
  {
    hide Mul, Add, Exp, Eval, Pow;
    ghost var x := Exp(i + 1);
    EvalTrim(p, deg + 1, x);
    q := 1;
    var j := deg;
    while j > 0
      invariant 0 <= j <= deg && q < 32
      invariant Add(q, Eval(p[..j + 1], x)) == Add(1, Eval(p, x))
      invariant forall k :: 1 <= k <= j ==> reg[k] == Log(Register(p[k], i, k))
      invariant forall k :: j < k <= deg ==> reg[k] == Log(Register(p[k], i + 1, k))
    {
      ghost var t: Sym := Register(p[j], i + 1, j);
      EvalPart(p, j, x);
      Accumulate(q, Eval(p[..j], x), t);
      RegisterOfZero(i, j);
      RegisterOfZero(i + 1, j);
      if p[j] != 0 {
        RegisterStep(p[j], i, j);
      }
      hide Register;
      if reg[j] != rs.nn {
        reg[j] := rs.Modnn(reg[j] + j);
        q := XorSym(q, rs.alphaTo[reg[j]]);
      }
      j := j - 1;
    }
    assert p[..1] == [1];
    EvalOne(x);
    AddComm(q, 1);
    AddCancelLeft(1, q, Eval(p, x));
  }

  lemma EvalOne(x: Sym)
    ensures Eval([1], x) == 1
  {
    hide Mul, Add;
    assert [1][..0] == [];
    MulOne(1);
    AddZero(1);
  }

  lemma AddCancelLeft(a: Sym, b: Sym, c: Sym)
    requires Add(a, b) == Add(a, c)
    ensures b == c
  {
    hide Add;
    AddComm(a, b);
    AddComm(a, c);
    AddCancel(b, a);
    AddCancel(c, a);
  }

  /** Logarithms in place, and the degree. */
  method LambdaToIndex(rs: RsControl, lambda: array<Word16>, ghost p: seq<Sym>) returns (deg: nat)
    requires rs.Valid() && lambda !in rs.Repr() && lambda.Length == NROOTS + 1 && lambda[..] == p
    modifies lambda
    ensures IndexForm(lambda[..], p) && deg == Degree(p)
  {
    assert forall k :: 0 <= k <= NROOTS ==> lambda[k] == p[k];
    deg := 0;
    var i := 0;
    while i < rs.nroots + 1
      invariant 0 <= i <= NROOTS + 1
      invariant forall k :: 0 <= k < i ==> lambda[k] == Log(p[k])
      invariant forall k :: i <= k <= NROOTS ==> lambda[k] == p[k]
      invariant deg == if i == 0 then 0 else Degree(p[..i])
    {
      assert p[..i + 1][..i] == p[..i];
      lambda[i] := rs.indexOf[lambda[i]];
      if lambda[i] != rs.nn {
        deg := i;
      }
      i := i + 1;
    }
    assert p[..NROOTS + 1] == p;
  }

  method InitialRegisters(rs: RsControl, lambda: array<Word16>, ghost p: seq<Sym>) returns (reg: array<Word16>)
    requires rs.Valid() && lambda.Length == NROOTS + 1 == |p| && IndexForm(lambda[..], p)
    ensures fresh(reg) && reg.Length == NROOTS + 1
    ensures forall j :: 1 <= j <= NROOTS ==> reg[j] == Log(Register(p[j], 0, j))
  {
    hide Register;
    assert forall k :: 0 <= k <= NROOTS ==> lambda[k] == lambda[..][k] == Log(p[k]);
    reg := new Word16[NROOTS + 1](_ => 0);
    forall j | 0 <= j < rs.nroots {
      reg[j + 1] := lambda[j + 1];
    }
    forall j | 1 <= j <= NROOTS
      ensures reg[j] == Log(Register(p[j], 0, j))
    {
      FirstRegister(p[j], j);
    }
  }

  /** root and loc hold the positions in ps. */
  ghost predicate Recorded(root: seq<Word16>, loc: seq<Word16>, ps: seq<nat>)
  {
    |ps| <= |root| && |ps| <= |loc|
    && forall j :: 0 <= j < |ps| ==> loc[j] == ps[j] && root[j] == ps[j] + 1
  }

  /** Try alpha^1 .. alpha^31 until as many roots are found as the degree. */
  method ChienSearch(rs: RsControl, lambda: array<Word16>, deg: nat, root: array<Word16>, loc: array<Word16>,
                     ghost p: seq<Sym>)
    returns (count: nat)
    requires rs.Valid() && {root, loc} !! rs.Repr() && root != loc && lambda !in {root, loc}
    requires lambda.Length == NROOTS + 1 == |p| && root.Length == loc.Length == NROOTS
    requires p[0] == 1 && IndexForm(lambda[..], p) && deg == Degree(p)
    modifies root, loc
    ensures count == RootCount(p, NN) <= deg <= NROOTS
    ensures Recorded(root[..], loc[..], RootPositions(p, NN))
  {
    hide Eval, Degree, Register, RootCount, RootPositions, RootAt, IndexForm;
    var reg := InitialRegisters(rs, lambda, p);
    Soundness.DegreeTop(p);
    RootCountBound(p);
    NoPositions(p);
    assert Recorded(root[..], loc[..], RootPositions(p, 0));
    assert rs.mm == SYMSIZE && rs.nn == NN && rs.iprim == 1;
    hide RsControl.Valid, Recorded;
    count := 0;
    var i, k := 1, rs.iprim - 1;
    while i <= rs.nn
      invariant 1 <= i <= NN + 1 && k == if i <= NN then i - 1 else 0
      invariant count == RootCount(p, i - 1) <= deg <= NROOTS
      invariant Recorded(root[..], loc[..], RootPositions(p, i - 1))
      invariant forall j :: 1 <= j <= deg ==> reg[j] == Log(Register(p[j], i - 1, j))
    {
      var q := EvaluateAt(rs, reg, deg, i - 1, p);
      RootStep(p, i - 1);
      RootCountGrows(p, i, NN);
      if q == 0 {
        Record(root, loc, count, i, k, RootPositions(p, i - 1));
        count := count + 1;
        if count == deg {
          RootCountMonotone(p, i, NN);
          return;
        }
      }
      k := rs.Modnn(k + rs.iprim);
      i := i + 1;
    }
  }

  /** Store a root and its location number. */
  method Record(root: array<Word16>, loc: array<Word16>, count: nat, i: nat, k: nat, ghost ps: seq<nat>)
    requires root != loc && count == |ps| < root.Length && count < loc.Length && i == k + 1 <= NN
    requires Recorded(root[..], loc[..], ps)
    modifies root, loc
    ensures Recorded(root[..], loc[..], ps + [k])
  {
    root[count] := i;
    loc[count] := k;
  }

  lemma NoPositions(p: seq<Sym>)
    ensures RootCount(p, 0) == 0 && RootPositions(p, 0) == []
  {
  }

  lemma FirstRegister(c: Sym, j: nat)
    ensures Register(c, 0, j) == c
  {
    assert Exp(0) == 1;
    hide Mul, Exp;
    PowOne(j);
    MulOne(c);
  }

  lemma {:induction false} PowOne(n: nat)
    ensures Pow(1, n) == 1
  {
    hide Mul;
    if n > 0 {
      PowOne(n - 1);
      MulOne(1);
    }
  }

  // ----- Forney -----

  /** The evaluator, in index form. */
  method ComputeOmega(rs: RsControl, lambda: array<Word16>, syn: array<Word16>, deg: nat,
                      ghost p: seq<Sym>, ghost s: seq<Sym>)
    returns (omega: array<Word16>)
    requires rs.Valid() && lambda.Length == NROOTS + 1 && syn.Length == NROOTS == |s| && deg <= NROOTS
    requires IndexForm(lambda[..], p) && IndexForm(syn[..], s)
    ensures fresh(omega) && omega.Length == NROOTS + 1
    ensures forall i :: 0 <= i < deg ==> omega[i] == Log(Omega(p, s, deg)[i])
  {
    hide Conv;
    omega := new Word16[NROOTS + 1](_ => 0);
    var i := 0;
    while i < deg
      invariant 0 <= i <= deg
      invariant forall k :: 0 <= k < i ==> omega[k] == Log(Conv(p, s, k))
    {
      var tmp := OmegaTerm(rs, lambda, syn, i, p, s);
      omega[i] := rs.indexOf[tmp];
      i := i + 1;
    }
  }

  method OmegaTerm(rs: RsControl, lambda: array<Word16>, syn: array<Word16>, i: nat,
                   ghost p: seq<Sym>, ghost s: seq<Sym>)
    returns (tmp: Word16)
    requires rs.Valid() && lambda.Length == NROOTS + 1 && syn.Length == NROOTS == |s| && i < NROOTS
    requires IndexForm(lambda[..], p) && IndexForm(syn[..], s)
    ensures tmp < 32 && tmp == Conv(p, s, i)
  {
    hide Mul, Add, Conv;
    assert Conv(p[..0], s, i) == 0 by { EmptyConv(p[..0], s, i); }
    assert forall k :: 0 <= k <= NROOTS ==> lambda[k] == lambda[..][k] == Log(p[k]);
    assert forall k :: 0 <= k < NROOTS ==> syn[k] == syn[..][k] == Log(s[k]);
    ConvTrim(p, i + 1, s, i);
    tmp := 0;
    AddZero(Conv(p, s, i));
    var j := i;
    while j >= 0
      invariant -1 <= j <= i && tmp < 32
      invariant Add(tmp, Conv(p[..j + 1], s, i)) == Conv(p, s, i)
    {
      ConvPart(p, s, i, j);
      Accumulate(tmp, Conv(p[..j], s, i), Mul(p[j], Coef(s, i - j)));
      MulZero(p[j]);
      MulZero(s[i - j]);
      if syn[i - j] != rs.nn && lambda[j] != rs.nn {
        MulComm(p[j], s[i - j]);
        var q := ProductOfIndices(rs, syn[i - j], lambda[j], s[i - j], p[j]);
        tmp := XorSym(tmp, q);
      }
      j := j - 1;
    }
    AddZero(tmp);
  }

  /** a * (alpha^r)^i through the tables. */
  method TermAt(rs: RsControl, a: Word16, i: nat, r: nat, ghost c: Sym) returns (q: Word16)
    requires rs.Valid() && c != 0 && a == Log(c)
    ensures q < 32 && q == Mul(c, Pow(Exp(r), i))
  {
    hide Mul, Exp, Pow;
    PowExp(r, i);
    TimesIsProduct(i, r);
    TableProduct(c, i * r);
    var m := rs.Modnn(a + i * r);
    q := rs.alphaTo[m];
  }

  /** The evaluator at alpha^r. */
  method Numerator(rs: RsControl, omega: array<Word16>, deg: nat, r: nat, ghost w: seq<Sym>) returns (num: Word16)
    requires rs.Valid() && omega.Length == NROOTS + 1 && deg == |w| <= NROOTS
    requires forall i :: 0 <= i < deg ==> omega[i] == Log(w[i])
    ensures num < 32 && num == Eval(w, Exp(r))
  {
    hide Mul, Add, Exp, Eval, Pow;
    ghost var x := Exp(r);
    EmptyEval(w[..0], x);
    num := 0;
    var i := deg - 1;
    assert w[..deg] == w;
    AddZero(Eval(w, x));
    while i >= 0
      invariant -1 <= i < deg && num < 32
      invariant Add(num, Eval(w[..i + 1], x)) == Eval(w, x)
    {
      EvalPart(w, i, x);
      Accumulate(num, Eval(w[..i], x), Mul(w[i], Pow(x, i)));
      MulZero(Pow(x, i));
      if omega[i] != rs.nn {
        var q := TermAt(rs, omega[i], i, r, w[i]);
        num := XorSym(num, q);
      }
      i := i - 1;
    }
    AddZero(num);
  }

  /** The formal derivative of lambda at alpha^r. */
  method Denominator(rs: RsControl, lambda: array<Word16>, deg: nat, r: nat, ghost p: seq<Sym>) returns (den: Word16)
    requires rs.Valid() && lambda.Length == NROOTS + 1 && deg <= NROOTS
    requires IndexForm(lambda[..], p) && forall i :: deg < i <= NROOTS ==> p[i] == 0
    ensures den < 32 && den == Deriv(p, Exp(r))
  {
    hide Mul, Add, Exp, Deriv, Pow;
    ghost var x := Exp(r);
    EmptyEval(p[..0], x);
    assert forall k :: 0 <= k <= NROOTS ==> lambda[k] == lambda[..][k] == Log(p[k]);
    den := 0;
    var start := if deg <= rs.nroots - 1 then deg else rs.nroots - 1;
    var i := start - start % 2;
    DerivTop(p, i, deg, x);
    AddZero(Deriv(p, x));
    while i >= 0
      invariant -2 <= i <= NROOTS - 2 && i % 2 == 0 && den < 32
      invariant Add(den, Deriv(p[..i + 2], x)) == Deriv(p, x)
    {
      DerivPair(p, i, x);
      Accumulate(den, Deriv(p[..i], x), Mul(p[i + 1], Pow(x, i)));
      MulZero(Pow(x, i));
      if lambda[i + 1] != rs.nn {
        var q := TermAt(rs, lambda[i + 1], i, r, p[i + 1]);
        den := XorSym(den, q);
      }
      i := i - 2;
    }
    AddZero(den);
  }

  lemma DerivPair(p: seq<Sym>, i: nat, x: Sym)
    requires i % 2 == 0 && i + 2 <= |p|
    ensures Deriv(p[..i + 2], x) == Add(Deriv(p[..i], x), Mul(p[i + 1], Pow(x, i)))
  {
    hide Mul, Add;
    assert p[..i + 2][..i + 1] == p[..i + 1] && p[..i + 1][..i] == p[..i];
    AddZero(Deriv(p[..i], x));
  }

  /** The first pair of coefficients the loop takes is the highest that counts. */
  lemma DerivTop(p: seq<Sym>, i: nat, deg: nat, x: Sym)
    requires |p| == NROOTS + 1 && deg <= NROOTS && forall j :: deg < j <= NROOTS ==> p[j] == 0
    requires i == (if deg <= NROOTS - 1 then deg - deg % 2 else 8)
    ensures i + 2 <= |p| && Deriv(p, x) == Deriv(p[..i + 2], x)
  {
    hide Mul, Add;
    if deg == NROOTS {
      assert p[..|p| - 1] == p[..i + 2];
      AddZero(Deriv(p[..i + 2], x));
    } else {
      DerivTrim(p, i + 2, x);
    }
  }

  lemma QuotByLogs(num: Sym, den: Sym)
    requires num != 0
    ensures Exp((Log(num) + NN - Log(den)) % NN) == Quot(num, den)
  {
    hide Exp;
    if den == 0 {
      assert (Log(num) + NN - NN) % NN == Log(num);
    } else {
      TableProduct(num, NN - Log(den));
    }
  }

  /** Evaluator over derivative; zero when the evaluator vanishes. */
  method CorrectionAt(rs: RsControl, lambda: array<Word16>, omega: array<Word16>, deg: nat, root: nat, ghost k: nat,
                      ghost p: seq<Sym>, ghost s: seq<Sym>) returns (cor: Word16)
    requires rs.Valid() && lambda.Length == omega.Length == NROOTS + 1 == |p| && root == k + 1
    requires IndexForm(lambda[..], p) && deg == Degree(p)
    requires forall i :: 0 <= i < deg ==> omega[i] == Log(Omega(p, s, deg)[i])
    ensures cor < 32 && cor == ErrorValue(p, s, k)
  {
    hide Mul, Add, Exp, Eval, Deriv, Omega, Degree, Quot;
    Soundness.DegreeTop(p);
    var num1 := Numerator(rs, omega, deg, root, Omega(p, s, deg));
    var m := rs.Modnn(root * (rs.fcr - 1) + rs.nn);
    var num2 := rs.alphaTo[m];
    var den := Denominator(rs, lambda, deg, root, p);
    LogOfOne();
    assert rs.indexOf[num2] == 0;
    cor := 0;
    if num1 == 0 {
      QuotZero(den);
    } else {
      QuotByLogs(num1, den);
      m := rs.Modnn(rs.indexOf[num1] + rs.indexOf[num2] + rs.nn - rs.indexOf[den]);
      cor := rs.alphaTo[m];
    }
  }

  /** k is one of the positions still listed after index j. */
  ghost predicate Listed(ps: seq<nat>, j: int, k: nat)
  {
    exists i :: 0 <= i < |ps| && j < i && ps[i] == k
  }

  lemma ListedStep(ps: seq<nat>, j: nat, k: nat)
    requires j < |ps| && forall a, b :: 0 <= a < b < |ps| ==> ps[a] < ps[b]
    ensures Listed(ps, j - 1, k) <==> Listed(ps, j, k) || k == ps[j]
    ensures !Listed(ps, j, ps[j])
  {
  }

  lemma ListedAll(p: seq<Sym>, k: nat)
    requires k < NN
    ensures Listed(RootPositions(p, NN), -1, k) <==> RootAt(p, k)
  {
    hide RootAt;
    var ps := RootPositions(p, NN);
    PositionsAscend(p, NN);
    if RootAt(p, k) {
      var i :| 0 <= i < |ps| && ps[i] == k;
    }
  }

  /** Correct the data symbols among the locations found. */
  method Correct(rs: RsControl, data: array<Byte>, lambda: array<Word16>, omega: array<Word16>, deg: nat, count: nat,
                 root: array<Word16>, loc: array<Word16>, ghost p: seq<Sym>, ghost s: seq<Sym>)
    requires rs.Valid() && data.Length == MSG_SYMBOLS
    requires lambda.Length == omega.Length == NROOTS + 1 == |p| && root.Length == loc.Length == NROOTS
    requires IndexForm(lambda[..], p) && deg == Degree(p) && count == RootCount(p, NN) <= NROOTS
    requires forall i :: 0 <= i < deg ==> omega[i] == Log(Omega(p, s, deg)[i])
    requires Recorded(root[..], loc[..], RootPositions(p, NN))
    modifies data
    ensures forall k :: 0 <= k < MSG_SYMBOLS ==> data[k] == Xor(old(data[k]), ErrorWord(p, s)[k])
  {
    hide Omega, RootAt, Degree, Xor, ErrorValue, RootPositions, Listed;
    ghost var ps, e := RootPositions(p, NN), ErrorWord(p, s);
    ghost var before := data[..];
    PositionsAscend(p, NN);
    assert forall j :: 0 <= j < count ==> loc[j] == loc[..][j] == ps[j] && root[j] == root[..][j] == ps[j] + 1;
    XorZeroRight();
    forall k | 0 <= k < MSG_SYMBOLS
      ensures !Listed(ps, count - 1, k) && (Listed(ps, -1, k) <==> RootAt(p, k))
    {
      ListedAll(p, k);
      ListedNone(ps, k);
    }
    var j := count - 1;
    while j >= 0
      invariant -1 <= j < count
      invariant forall k :: 0 <= k < MSG_SYMBOLS ==>
        data[k] == Xor(before[k], if Listed(ps, j, k) then e[k] else 0)
    {
      var cor := CorrectionAt(rs, lambda, omega, deg, root[j], ps[j], p, s);
      forall k | 0 <= k < MSG_SYMBOLS
        ensures (Listed(ps, j - 1, k) <==> Listed(ps, j, k) || k == ps[j]) && !Listed(ps, j, ps[j])
      {
        ListedStep(ps, j, k);
      }
      // adding a zero correction is leaving the symbol alone
      if cor != 0 && loc[j] < rs.nn - rs.nroots {
        data[loc[j]] := XorByte(data[loc[j]], cor);
      }
      j := j - 1;
    }
  }

  lemma ListedNone(ps: seq<nat>, k: nat)
    ensures !Listed(ps, |ps| - 1, k)
  {
  }

  lemma LogOfOne()
    ensures Exp(0) == 1 && Log(1) == 0
  {
    LogExp(0);
  }

  lemma QuotZero(den: Sym)
    ensures Quot(0, den) == 0
  {
  }

  lemma XorZeroRight()
    ensures forall a: nat :: Xor(a, 0) == a
  {
  }

  /** Decode in place: the number of corrected symbols, or EBADMSG. */
  method DecodeRs8(rs: RsControl, data: array<Byte>, par: array<Word16>) returns (count: int)
    requires rs.Valid() && data.Length == MSG_SYMBOLS && par.Length == NROOTS
    modifies data
    ensures var r := Decode(Received(old(data[..]), par[..]));
      count == r.0 && forall k :: 0 <= k < MSG_SYMBOLS ==> data[k] == Xor(old(data[k]), r.1[k])
  {
    hide Mul, Exp, RootCount, RootPositions, ErrorWord, Degree, Syndromes, Xor, BM.Run, Omega, Conv;
    hide RsControl.Valid, IndexForm, Recorded, Received;
    XorZeroRight();
    ghost var s := Syndromes(Received(data[..], par[..]));
    var syn := ComputeSyndromes(rs, data, par);
    var synError := SyndromesToIndex(rs, syn, s);
    if !synError {
      return 0;
    }
    ghost var p := BM.Run(s, NROOTS).lambda;
    BM.RunInvariant(s, NROOTS);
    var lambda := FindLocator(rs, syn, s);
    var deg := LambdaToIndex(rs, lambda, p);
    var root := new Word16[NROOTS](_ => 0);
    var loc := new Word16[NROOTS](_ => 0);
    var found := ChienSearch(rs, lambda, deg, root, loc, p);
    if deg != found {
      return EBADMSG;
    }
    var omega := ComputeOmega(rs, lambda, syn, deg, p, s);
    Correct(rs, data, lambda, omega, deg, found, root, loc, p, s);
    count := found;
  }

  /** Seen from a caller: at most five wrong symbols are put right, and counted. */
  lemma DecodingRestores(sent: seq<Sym>, data: seq<Byte>, par: seq<Word16>, fixed: seq<Byte>)
    requires |data| == |fixed| == MSG_SYMBOLS && |par| == NROOTS
    requires IsCodeword(sent) && 2 * Distance(Received(data, par), sent) <= NROOTS
    requires forall k :: 0 <= k < MSG_SYMBOLS ==> fixed[k] == Xor(data[k], Decode(Received(data, par)).1[k])
    ensures Decode(Received(data, par)).0 == Distance(Received(data, par), sent)
    ensures Masked(fixed) == sent[..MSG_SYMBOLS]
    ensures forall k :: 0 <= k < MSG_SYMBOLS ==> fixed[k] / 32 == data[k] / 32
  {
    var w := Received(data, par);
    var e := Decode(w).1;
    DecodeCorrects(w, sent);
    hide Decode, Distance, IsCodeword, Xor;
    forall k | 0 <= k < MSG_SYMBOLS
      ensures Masked(fixed)[k] == sent[k] && fixed[k] / 32 == data[k] / 32
    {
      assert sent[k] == AddSeq(w, e)[k] == Add(data[k] % 32, e[k]);
      XorKeepsHighBits(data[k], e[k]);
    }
  }

  lemma ShiftLeftFive(h: nat)
    ensures ShiftLeft(h, 5) == 32 * h && Pow2(5) == 32
  {
    ShiftLeftIsProduct(h, 5);
  }

  lemma XorKeepsHighBits(a: nat, c: Sym)
    ensures Xor(a, c) % 32 == Add(a % 32, c) && Xor(a, c) / 32 == a / 32
  {
    var h, l: Sym := a / 32, a % 32;
    var b, r: Sym := ShiftLeft(h, 5), Add(l, c);
    assert r == Xor(l, c);
    hide Xor, Pow2, ShiftLeft, Add;
    ShiftLeftFive(h);
    XorDisjoint(h, l, 5);
    XorDisjoint(h, r, 5);
    XorAssoc(b, l, c);
    assert Xor(b, l) == a;
    assert Xor(a, c) == b + r;
  }
}
