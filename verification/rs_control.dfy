/** The codec control structure: antilog and log tables and the generator
    polynomial in index form, as rs_init fills them for the parameters of
    ncrs.c (5 bit symbols, x^5 + x^2 + 1, first root 1, step 1, 10 roots). */
module RsTables {
  import opened Bits
  import opened GF32
  import opened Poly
  import opened PowerSums
  import opened ReedSolomon
  import opened Encoding

  const SYMSIZE := 5
  const FCR := 1
  const PRIM := 1

  /** a is p in index form. */
  ghost predicate IndexForm(a: seq<Word16>, p: seq<Sym>)
  {
    |a| == |p| && forall i :: 0 <= i < |a| ==> a[i] == Log(p[i])
  }

  /** Adding k to the logarithm multiplies by alpha^k. */
  lemma TableProduct(a: Sym, k: nat)
    requires a != 0
    ensures Exp((Log(a) + k) % NN) == Mul(a, Exp(k))
  {
    hide Exp;
    ExpNonzero(k);
    LogExp(k);
    ModSum(Log(a), k);
  }

  lemma {:induction false} GenConstantNonzero(n: nat)
    ensures Gen(n)[n] != 0
  {
    hide Mul, Add, Exp;
    if n > 0 {
      GenConstantNonzero(n - 1);
      ExpNonzero(n);
      MulNonzero(Exp(n), Gen(n - 1)[n - 1]);
      AddZero(Mul(Exp(n), Gen(n - 1)[n - 1]));
    }
  }

  /** x modulo 2^mm - 1 by adding the high part to the low part. */
  method RsModnn(mm: nat, nn: nat, x0: int) returns (x: int)
    requires mm >= 1 && nn == Pow2(mm) - 1
    ensures x0 >= 0 ==> x == x0 % nn
    ensures x0 < 0 ==> x == x0
  {
    x := x0;
    assert Pow2(mm) == 2 * Pow2(mm - 1);
    while x >= nn
      invariant x0 < 0 ==> x == x0
      invariant x0 >= 0 ==> x >= 0 && x % nn == x0 % nn
      decreases x
    {
      FoldStep(x - nn, nn);
      SubtractMod(x, nn);
      x := x - nn;
      x := x / Pow2(mm) + x % Pow2(mm);
    }
    if x0 >= 0 {
      DivModUnique(x, nn, 0, x);
    }
  }

  lemma SubtractMod(x: nat, n: nat)
    requires 0 < n <= x
    ensures (x - n) % n == x % n
  {
    var q, r := (x - n) / n, (x - n) % n;
    assert x - n == q * n + r;
    assert x == (q + 1) * n + r;
    DivModUnique(x, n, q + 1, r);
  }

  /** Since 2^mm is 1 modulo nn, the two parts may be added. */
  lemma FoldStep(x: nat, n: nat)
    requires n > 0
    ensures (x / (n + 1) + x % (n + 1)) % n == x % n
    ensures 0 <= x / (n + 1) + x % (n + 1) <= x
  {
    var q, r := x / (n + 1), x % (n + 1);
    assert x == q * (n + 1) + r == q * n + (q + r);
    var k, m := (q + r) / n, (q + r) % n;
    assert q + r == k * n + m;
    assert x == (q + k) * n + m by {
      assert (q + k) * n == q * n + k * n;
    }
    DivModUnique(x, n, q + k, m);
    assert q * n >= 0;
  }

  class RsControl {
    const mm: nat
    const nn: nat
    const nroots: nat
    const fcr: nat
    const prim: nat
    const iprim: nat
    const alphaTo: array<Word16>
    const indexOf: array<Word16>
    const genpoly: array<Word16>

    ghost predicate Valid()
      reads alphaTo, indexOf, genpoly
    {
      && mm == SYMSIZE && nn == NN && nroots == NROOTS && fcr == FCR && prim == PRIM && iprim == 1
      && alphaTo.Length == indexOf.Length == NN + 1 && genpoly.Length == NROOTS + 1
      && (forall i :: 0 <= i < NN ==> alphaTo[i] == Exp(i))
      && alphaTo[NN] == 0
      && (forall x: Sym :: indexOf[x] == Log(x))
      && (forall j :: 0 <= j <= NROOTS ==> genpoly[j] == Log(Gen(NROOTS)[NROOTS - j]))
    }

    ghost function Repr(): set<object>
    {
      {alphaTo, indexOf, genpoly}
    }

    constructor (alphaTo: array<Word16>, indexOf: array<Word16>, genpoly: array<Word16>, iprim: nat)
      ensures this.alphaTo == alphaTo && this.indexOf == indexOf && this.genpoly == genpoly
      ensures mm == SYMSIZE && nn == NN && nroots == NROOTS && fcr == FCR && prim == PRIM
      ensures this.iprim == iprim
    {
      this.mm, this.nn, this.nroots, this.fcr, this.prim := SYMSIZE, NN, NROOTS, FCR, PRIM;
      this.iprim, this.alphaTo, this.indexOf, this.genpoly := iprim, alphaTo, indexOf, genpoly;
    }

    method Modnn(x0: int) returns (x: int)
      requires mm == SYMSIZE && nn == NN && x0 >= 0
      ensures x == x0 % NN
      ensures x0 <= NN ==> x == if x0 == NN then 0 else x0
    {
      assert Pow2(5) == 32;
      x := RsModnn(mm, nn, x0);
    }
  }

  /** The first 31 entries of the antilog table, and their inverse. */
  ghost predicate TablesFilled(alphaTo: seq<Word16>, indexOf: seq<Word16>, n: nat)
    requires |alphaTo| == |indexOf| == NN + 1 && n <= NN
  {
    && indexOf[0] == NN && alphaTo[NN] == 0
    && (forall j :: 0 <= j < n ==> alphaTo[j] == Exp(j))
    && (forall j :: 0 <= j < n ==> indexOf[Exp(j)] == j)
  }

  lemma TablesComplete(alphaTo: seq<Word16>, indexOf: seq<Word16>)
    requires |alphaTo| == |indexOf| == NN + 1 && TablesFilled(alphaTo, indexOf, NN)
    ensures forall x: Sym :: indexOf[x] == Log(x)
  {
    hide Exp;
    forall x: Sym
      ensures indexOf[x] == Log(x)
    {
      if x != 0 {
        assert Exp(Log(x)) == x;
      }
    }
  }

  /** Shift, reduce by the polynomial, mask. */
  method NextSymbol(a: Sym) returns (sr: Word16)
    ensures sr < 32 && sr == TimesX(a)
  {
    sr := 2 * a;
    if sr / 32 % 2 == 1 {
      XorWithPoly(a);
      sr := Xor(sr, GFPOLY);
    }
    sr := sr % 32;
  }

  method FillTables() returns (alphaTo: array<Word16>, indexOf: array<Word16>)
    ensures fresh(alphaTo) && fresh(indexOf) && alphaTo != indexOf
    ensures alphaTo.Length == indexOf.Length == NN + 1
    ensures TablesFilled(alphaTo[..], indexOf[..], NN)
  {
    alphaTo := new Word16[NN + 1](_ => 0);
    indexOf := new Word16[NN + 1](_ => 0);
    indexOf[0] := NN;
    alphaTo[NN] := 0;
    var sr: Word16 := 1;
    assert Exp(0) == 1;
    var i := 0;
    hide Exp, TimesX;
    while i < NN
      invariant 0 <= i <= NN && sr == Exp(i)
      invariant TablesFilled(alphaTo[..], indexOf[..], i)
    {
      NextEntry(i);
      indexOf[sr] := i;
      alphaTo[i] := sr;
      sr := NextSymbol(sr);
      i := i + 1;
    }
    // the polynomial is primitive, so the generator has returned to its start
    assert sr == alphaTo[0] by { ExpTable(); }
  }

  lemma XorWithPoly(a: Sym)
    ensures Xor(2 * a, GFPOLY) < 64
  {
    assert Pow2(6) == 64;
    XorBelow(2 * a, GFPOLY, 6);
  }

  /** A power not seen before, and the one after it. */
  lemma NextEntry(i: nat)
    requires i < NN
    ensures Exp(i) != 0 && Exp(i + 1) == TimesX(Exp(i))
    ensures forall j :: 0 <= j < i ==> Exp(j) != Exp(i)
  {
    ExpStep(i, Exp(i));
    hide Exp, TimesX;
    ExpNonzero(i);
    forall j | 0 <= j < i
      ensures Exp(j) != Exp(i)
    {
      if Exp(j) == Exp(i) {
        ExpInjective(j, i);
      }
    }
  }

  /** The coefficients of x^0 .. x^n of the generator with n roots. */
  ghost predicate GenAscending(g: seq<Word16>, n: nat)
    requires n < |g|
  {
    forall j :: 0 <= j <= n ==> g[j] == Gen(n)[n - j]
  }

  lemma GenCoefficient(n: nat, j: nat)
    requires j <= n + 1
    ensures Gen(n + 1)[n + 1 - j]
         == Add(if j == 0 then 0 else Gen(n)[n - (j - 1)], Mul(Exp(n + 1), if j == n + 1 then 0 else Gen(n)[n - j]))
  {
    hide Mul, Add, Exp;
    var g := Gen(n);
    assert (g + [0])[n + 1 - j] == if j == 0 then 0 else g[n - (j - 1)];
    assert ([0] + g)[n + 1 - j] == if j == n + 1 then 0 else g[n - j];
  }

  /** genpoly[j] * alpha^root through the tables. */
  method TimesRoot(alphaTo: array<Word16>, indexOf: array<Word16>, c: Word16, root: nat) returns (r: Word16)
    requires alphaTo.Length == indexOf.Length == NN + 1
    requires forall i :: 0 <= i < NN ==> alphaTo[i] == Exp(i)
    requires forall x: Sym :: indexOf[x] == Log(x)
    requires 0 < c < 32
    ensures r < 32 && r == Mul(c, Exp(root))
  {
    hide Mul, Exp;
    assert Pow2(5) == 32;
    TableProduct(c, root);
    var k := RsModnn(SYMSIZE, NN, indexOf[c] + root);
    r := alphaTo[k];
  }

  /** Multiply the generator in place by (x + alpha^root). */
  method TimesFactor(alphaTo: array<Word16>, indexOf: array<Word16>, genpoly: array<Word16>, i: nat, root: nat)
    requires alphaTo.Length == indexOf.Length == NN + 1 && genpoly.Length == NROOTS + 1
    requires genpoly != alphaTo && genpoly != indexOf
    requires forall k :: 0 <= k < NN ==> alphaTo[k] == Exp(k)
    requires forall x: Sym :: indexOf[x] == Log(x)
    requires i < NROOTS && root == i + 1
    requires GenAscending(genpoly[..], i)
    modifies genpoly
    ensures GenAscending(genpoly[..], i + 1)
  {
    hide Mul, Add, Exp, Gen;
    ghost var g := Gen(i);
    ghost var h := Gen(i + 1);
    GenCoefficient(i, i + 1);
    GenMonic(i);
    MulZero(Exp(i + 1));
    AddZero(1);
    genpoly[i + 1] := 1;
    var j := i;
    while j > 0
      invariant 0 <= j <= i
      invariant forall k :: 0 <= k <= j ==> genpoly[k] == g[i - k]
      invariant forall k :: j < k <= i + 1 ==> genpoly[k] == h[i + 1 - k]
      invariant forall k :: 0 <= k < NN ==> alphaTo[k] == Exp(k)
      invariant forall x: Sym :: indexOf[x] == Log(x)
    {
      GenCoefficient(i, j);
      var c: Sym := genpoly[j];
      if genpoly[j] != 0 {
        var p := TimesRoot(alphaTo, indexOf, genpoly[j], root);
        MulComm(c, Exp(root));
        genpoly[j] := XorSym(genpoly[j - 1], p);
      } else {
        MulZero(Exp(root));
        AddZero(genpoly[j - 1]);
        genpoly[j] := genpoly[j - 1];
      }
      j := j - 1;
    }
    GenCoefficient(i, 0);
    GenConstantNonzero(i);
    var c: Sym := genpoly[0];
    MulComm(c, Exp(root));
    AddZero(Mul(Exp(root), c));
    var p := TimesRoot(alphaTo, indexOf, genpoly[0], root);
    genpoly[0] := p;
  }

  /** Exclusive or of two symbols stored in wider words. */
  function XorSym(a: nat, b: nat): (r: Word16)
    requires a < 32 && b < 32
    ensures r < 32 && r == Xor(a, b) == Add(a, b)
  {
    Add(a, b)
  }

  method GeneratorPolynomial(alphaTo: array<Word16>, indexOf: array<Word16>) returns (genpoly: array<Word16>)
    requires alphaTo.Length == indexOf.Length == NN + 1
    requires forall k :: 0 <= k < NN ==> alphaTo[k] == Exp(k)
    requires forall x: Sym :: indexOf[x] == Log(x)
    ensures fresh(genpoly) && genpoly.Length == NROOTS + 1
    ensures forall j :: 0 <= j <= NROOTS ==> genpoly[j] == Log(Gen(NROOTS)[NROOTS - j])
  {
    hide Mul, Add, Exp;
    genpoly := new Word16[NROOTS + 1](_ => 0);
    genpoly[0] := 1;
    assert GenAscending(genpoly[..], 0);
    hide Gen;
    var i, root := 0, FCR * PRIM;
    while i < NROOTS
      invariant 0 <= i <= NROOTS && root == i + 1
      invariant GenAscending(genpoly[..], i)
    {
      TimesFactor(alphaTo, indexOf, genpoly, i, root);
      i, root := i + 1, root + PRIM;
    }
    ToIndexForm(indexOf, genpoly, Gen(NROOTS));
  }

  /** Replace every coefficient by its logarithm. */
  method ToIndexForm(indexOf: array<Word16>, genpoly: array<Word16>, ghost g: seq<Sym>)
    requires indexOf.Length == NN + 1 && genpoly.Length == NROOTS + 1 == |g| && genpoly != indexOf
    requires forall x: Sym :: indexOf[x] == Log(x)
    requires forall j :: 0 <= j <= NROOTS ==> genpoly[..][j] == g[NROOTS - j]
    modifies genpoly
    ensures forall j :: 0 <= j <= NROOTS ==> genpoly[j] == Log(g[NROOTS - j])
  {
    assert forall j :: 0 <= j <= NROOTS ==> genpoly[j] == genpoly[..][j];
    var i := 0;
    while i <= NROOTS
      invariant 0 <= i <= NROOTS + 1
      invariant forall j :: 0 <= j < i ==> genpoly[j] == Log(g[NROOTS - j])
      invariant forall j :: i <= j <= NROOTS ==> genpoly[j] == g[NROOTS - j]
      invariant forall x: Sym :: indexOf[x] == Log(x)
    {
      genpoly[i] := indexOf[genpoly[i]];
      i := i + 1;
    }
  }

  /** Allocate and fill the control structure. */
  method RsInit() returns (rs: RsControl)
    ensures fresh(rs) && fresh(rs.Repr()) && rs.Valid()
  {
    var alphaTo, indexOf := FillTables();
    TablesComplete(alphaTo[..], indexOf[..]);
    assert forall x: Sym :: indexOf[x] == indexOf[..][x];
    assert forall k :: 0 <= k < NN ==> alphaTo[k] == alphaTo[..][k];
    // the search for the smallest multiple of PRIM among 1, 1 + nn, .. stops at once
    var iprim := 1;
    assert iprim % PRIM == 0;
    var genpoly := GeneratorPolynomial(alphaTo, indexOf);
    rs := new RsControl(alphaTo, indexOf, genpoly, iprim / PRIM);
  }
}
