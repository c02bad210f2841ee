/** The generator polynomial and the division that encode_rs8 performs. */
module Encoding {
  import opened GF32
  import opened Poly
  import opened PowerSums
  import opened ReedSolomon
  import BM = BerlekampMassey

  /** The generator with n roots, highest coefficient first. */
  ghost function Gen(n: nat): (g: seq<Sym>)
    ensures |g| == n + 1
  {
    if n == 0 then [1] else TimesLinear(Gen(n - 1), Exp(n))
  }

  /** (x + alpha^1) ... (x + alpha^n) */
  ghost function RootProduct(n: nat, x: Sym): Sym
  {
    if n == 0 then 1 else Mul(Add(x, Exp(n)), RootProduct(n - 1, x))
  }

  lemma {:induction false} GenIsProduct(n: nat, x: Sym)
    ensures Horner(Gen(n), x) == RootProduct(n, x)
  {
    hide Mul, Add, Exp;
    if n == 0 {
      assert [1][..0] == [];
      MulZero(x);
      AddZero(1);
    } else {
      GenIsProduct(n - 1, x);
      HornerTimesLinear(Gen(n - 1), Exp(n), x);
    }
  }

  lemma {:induction false} GenMonic(n: nat)
    ensures Gen(n)[0] == 1
  {
    hide Mul, Add, Exp;
    if n > 0 {
      GenMonic(n - 1);
      MulZero(Exp(n));
      AddZero(1);
    }
  }

  lemma {:induction false} GenRoots(n: nat, i: nat)
    requires 1 <= i <= n
    ensures RootProduct(n, Exp(i)) == 0
  {
    hide Mul, Add, Exp;
    if i == n {
      AddSelf(Exp(n));
      MulZero(RootProduct(n - 1, Exp(i)));
    } else {
      GenRoots(n - 1, i);
      MulZero(Add(Exp(i), Exp(n)));
    }
  }

  lemma {:induction false} WeightOfZeros(n: nat, g: seq<Sym>)
    ensures Weight(BM.Zeros(n) + g) == Weight(g)
  {
    var w := BM.Zeros(n) + g;
    if n == 0 {
      assert w == g;
    } else {
      WeightOfZeros(n - 1, g);
      assert w[1..] == BM.Zeros(n - 1) + g;
    }
  }

  lemma {:induction false} WeightWithZero(e: seq<Sym>, i: nat)
    requires i < |e| && e[i] == 0
    ensures Weight(e) < |e|
  {
    if i > 0 {
      WeightWithZero(e[1..], i - 1);
    }
  }

  /** No coefficient of the generator is zero, because the generator itself is
      a codeword and no codeword has fewer than eleven nonzero symbols. */
  lemma GenNoZeros()
    ensures NoZeros(Gen(NROOTS))
  {
    hide Mul, Add, Exp, Gen, Horner;
    var g := Gen(NROOTS);
    forall i | 0 <= i <= NROOTS
      ensures g[i] != 0
    {
      if g[i] == 0 {
        WeightWithZero(g, i);
        forall k | 0 <= k < NROOTS
          ensures Syndromes(g)[k] == 0
        {
          GenIsProduct(NROOTS, Exp(k + 1));
          GenRoots(NROOTS, k + 1);
        }
        LightCodeword(g);
        GenMonic(NROOTS);
      }
    }
  }

  /** One pass of the feedback shift register. */
  ghost function EncodeStep(par: seq<Sym>, d: Sym): (r: seq<Sym>)
    requires |par| == NROOTS
    ensures |r| == NROOTS
  {
    AddSeq(par[1..] + [0], Scale(Add(d, par[0]), Gen(NROOTS)[1..]))
  }

  ghost function EncodeFrom(par: seq<Sym>, data: seq<Sym>): (r: seq<Sym>)
    requires |par| == NROOTS
    ensures |r| == NROOTS
  {
    if data == [] then par
    else EncodeStep(EncodeFrom(par, data[..|data| - 1]), data[|data| - 1])
  }

  /** The parity of encode_rs8 for a parity buffer that starts at zero. */
  ghost function Parity(data: seq<Sym>): (r: seq<Sym>)
    ensures |r| == NROOTS
  {
    EncodeFrom(BM.Zeros(NROOTS), data)
  }

  /** The feedback terms, which are the quotient of the division. */
  ghost function Feedback(data: seq<Sym>): (q: seq<Sym>)
    ensures |q| == |data|
  {
    if data == [] then []
    else
      var d := data[..|data| - 1];
      Feedback(d) + [Add(data[|data| - 1], Parity(d)[0])]
  }

  lemma ShiftedParity(par: seq<Sym>, x: Sym)
    requires |par| == NROOTS
    ensures Mul(x, Horner(par, x)) == Add(Mul(par[0], Pow(x, NROOTS)), Horner(par[1..] + [0], x))
  {
    assert Pow(x, NROOTS) == Mul(x, Pow(x, NROOTS - 1));
    hide Mul, Add, Exp, Pow, Horner;
    var c, t, k := par[0], par[1..], Pow(x, NROOTS - 1);
    HornerConcat(t, [0], x);
    HornerSingle(0, x);
    AddZero(Mul(Horner(t, x), x));
    MulComm(Horner(t, x), x);
    assert par == [c] + t;
    HornerFront(c, t, x);
    MulAdd(x, Mul(c, k), Horner(t, x));
    MulAssoc(x, c, k);
    MulComm(x, c);
    MulAssoc(c, x, k);
  }

  lemma GeneratorTail(x: Sym)
    ensures Horner(Gen(NROOTS), x) == Add(Pow(x, NROOTS), Horner(Gen(NROOTS)[1..], x))
  {
    hide Mul, Add, Exp, Gen, Pow, Horner;
    var g := Gen(NROOTS);
    GenMonic(NROOTS);
    assert g == [1] + g[1..];
    HornerFront(1, g[1..], x);
    MulOne(Pow(x, NROOTS));
  }

  /** x * parity + d x^10 + feedback * g(x) */
  lemma EncodeStepValue(par: seq<Sym>, d: Sym, x: Sym)
    requires |par| == NROOTS
    ensures Horner(EncodeStep(par, d), x)
         == Add(Add(Mul(x, Horner(par, x)), Mul(d, Pow(x, NROOTS))),
                Mul(Add(d, par[0]), Horner(Gen(NROOTS), x)))
  {
    hide Mul, Add, Exp, Gen, Pow, Horner;
    var fb, g, p := Add(d, par[0]), Gen(NROOTS), Pow(x, NROOTS);
    var hg, hp := Horner(g[1..], x), Horner(par[1..] + [0], x);
    HornerLinear(par[1..] + [0], g[1..], fb, x);
    ShiftedParity(par, x);
    GeneratorTail(x);
    MulAdd(fb, p, hg);
    MulAdd(p, d, par[0]);
    FeedbackSum(Mul(par[0], p), hp, Mul(d, p), Mul(fb, hg));
  }

  /** ((a + b) + c) + ((c + a) + h) == b + h */
  lemma FeedbackSum(a: Sym, b: Sym, c: Sym, h: Sym)
    ensures Add(Add(Add(a, b), c), Add(Add(c, a), h)) == Add(b, h)
  {
    hide Add;
    AddComm(a, b);
    AddAssoc(b, a, c);
    AddComm(a, c);
    AddAssoc(b, Add(c, a), Add(Add(c, a), h));
    AddAssoc(Add(c, a), Add(c, a), h);
    AddSelf(Add(c, a));
    AddZero(h);
  }

  lemma HornerSingle(c: Sym, x: Sym)
    ensures Horner([c], x) == c && Pow(x, 1) == x
  {
    assert [c][..0] == [];
    assert Pow(x, 1) == Mul(x, Pow(x, 0));
    hide Mul, Add;
    MulZero(x);
    MulOne(x);
    AddZero(c);
  }

  /** Data followed by parity is quotient times generator, at every point. */
  lemma {:induction false} DivisionByGenerator(data: seq<Sym>, x: Sym)
    ensures Horner(data + Parity(data), x) == Mul(Horner(Feedback(data), x), Horner(Gen(NROOTS), x))
  {
    hide Mul, Add, Exp, Gen, Pow, EncodeStep;
    var p, g := Pow(x, NROOTS), Horner(Gen(NROOTS), x);
    HornerConcat(data, Parity(data), x);
    if data == [] {
      MulZero(p);
      MulZero(g);
      EvalZeros(Parity(data), x);
      AddZero(0);
    } else {
      var t, d := data[..|data| - 1], data[|data| - 1];
      var par, fb := Parity(t), Add(d, Parity(t)[0]);
      DivisionByGenerator(t, x);
      HornerConcat(t, par, x);
      EncodeStepValue(par, d, x);
      Snoc(Feedback(t), fb);
      var h, q, hp := Horner(t, x), Horner(Feedback(t), x), Horner(par, x);
      // (x h + d) p + ((x hp + d p) + fb g) == x (h p + hp) + fb g
      MulAdd(p, Mul(x, h), d);
      MulAssoc(x, h, p);
      MulAdd(x, Mul(h, p), hp);
      DropTwice(Mul(x, Mul(h, p)), Mul(d, p), Mul(x, hp), Mul(fb, g));
      MulAdd(g, Mul(x, q), fb);
      MulAssoc(x, q, g);
    }
  }

  /** (a + b) + ((c + b) + h) == (a + c) + h */
  lemma DropTwice(a: Sym, b: Sym, c: Sym, h: Sym)
    ensures Add(Add(a, b), Add(Add(c, b), h)) == Add(Add(a, c), h)
  {
    hide Add;
    AddAssoc(Add(a, b), Add(c, b), h);
    AddSwap(a, b, c, b);
    AddSelf(b);
    AddZero(Add(a, c));
  }

  /** What encode_rs8 appends makes a codeword. */
  lemma ParityMakesCodeword(data: seq<Sym>)
    requires |data| == MSG_SYMBOLS
    ensures IsCodeword(data + Parity(data))
  {
    hide Mul, Add, Exp, Gen, Horner, Parity;
    forall i | 0 <= i < NROOTS
      ensures Syndromes(data + Parity(data))[i] == 0
    {
      DivisionByGenerator(data, Exp(i + 1));
      GenIsProduct(NROOTS, Exp(i + 1));
      GenRoots(NROOTS, i + 1);
      MulZero(Horner(Feedback(data), Exp(i + 1)));
    }
  }

  lemma {:induction false} WeightConcat(u: seq<Sym>, v: seq<Sym>)
    ensures Weight(u + v) == Weight(u) + Weight(v)
  {
    if u == [] {
      assert u + v == v;
    } else {
      WeightConcat(u[1..], v);
      assert (u + v)[1..] == u[1..] + v;
    }
  }

  /** And nothing else appended to the same data does. */
  lemma ParityIsUnique(data: seq<Sym>, par: seq<Sym>)
    requires |data| == MSG_SYMBOLS && |par| == NROOTS
    requires IsCodeword(data + par)
    ensures par == Parity(data)
  {
    hide Add, Parity;
    var v, w := data + par, data + Parity(data);
    ParityMakesCodeword(data);
    if v != w {
      MinimumDistance(v, w);
      var e, f := AddSeq(data, data), AddSeq(par, Parity(data));
      assert AddSeq(v, w) == e + f;
      WeightConcat(e, f);
      forall i | 0 <= i < |e|
        ensures e[i] == 0
      {
        AddSelf(data[i]);
      }
      WeightZero(e);
    }
    assert par == v[MSG_SYMBOLS..] && Parity(data) == w[MSG_SYMBOLS..];
  }
}
