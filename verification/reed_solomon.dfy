/** The (31, 21) code of ncrs.c and what decode_rs8 computes, as a function
    of the received word. */
module ReedSolomon {
  import opened GF32
  import opened Poly
  import opened PowerSums
  import BM = BerlekampMassey

  const NROOTS := 10
  const MSG_SYMBOLS := 21
  const EBADMSG := -74

  /** The value of the word at alpha^1 .. alpha^10, first symbol first. */
  ghost function Syndromes(w: seq<Sym>): (s: seq<Sym>)
    ensures |s| == NROOTS
    ensures forall i :: 0 <= i < NROOTS ==> s[i] == Horner(w, Exp(i + 1))
  {
    seq(NROOTS, i requires 0 <= i < NROOTS => Horner(w, Exp(i + 1)))
  }

  ghost predicate IsCodeword(w: seq<Sym>)
  {
    |w| == NN && AllZeros(Syndromes(w))
  }

  function Weight(e: seq<Sym>): (n: nat)
    ensures n <= |e|
  {
    if e == [] then 0 else (if e[0] == 0 then 0 else 1) + Weight(e[1..])
  }

  /** In how many places the two words differ. */
  function Distance(v: seq<Sym>, w: seq<Sym>): nat
    requires |v| == |w|
  {
    Weight(AddSeq(v, w))
  }

  // ----- the decoder -----

  function Degree(p: seq<Sym>): (d: nat)
    ensures p != [] ==> d < |p|
  {
    if |p| <= 1 then 0 else if p[|p| - 1] != 0 then |p| - 1 else Degree(p[..|p| - 1])
  }

  /** Position k is at the inverse of a root of lambda. */
  ghost predicate RootAt(lambda: seq<Sym>, k: nat)
  {
    Eval(lambda, Exp(k + 1)) == 0
  }

  ghost function RootCount(lambda: seq<Sym>, k: nat): (n: nat)
    ensures n <= k
  {
    if k == 0 then 0 else RootCount(lambda, k - 1) + if RootAt(lambda, k - 1) then 1 else 0
  }

  /** The error evaluator: the first d terms of lambda times the syndromes. */
  ghost function Omega(lambda: seq<Sym>, s: seq<Sym>, d: nat): (r: seq<Sym>)
    ensures |r| == d
    ensures forall n :: 0 <= n < d ==> r[n] == Conv(lambda, s, n)
  {
    seq(d, n requires 0 <= n < d => Conv(lambda, s, n))
  }

  /** The formal derivative: the odd coefficients, one power down. */
  ghost function Deriv(p: seq<Sym>, z: Sym): Sym
  {
    if p == [] then 0
    else Add(Deriv(p[..|p| - 1], z), DerivTerm(p, |p| - 1, z))
  }

  ghost function DerivTerm(p: seq<Sym>, i: nat, z: Sym): Sym
    requires i < |p|
  {
    if i % 2 == 1 then Mul(p[i], Pow(z, i - 1)) else 0
  }

  ghost function Quot(num: Sym, den: Sym): Sym
  {
    if num == 0 then 0 else if den == 0 then num else Mul(num, Inv(den))
  }

  /** The correction at position k. */
  ghost function ErrorValue(lambda: seq<Sym>, s: seq<Sym>, k: nat): Sym
  {
    Quot(Eval(Omega(lambda, s, Degree(lambda)), Exp(k + 1)), Deriv(lambda, Exp(k + 1)))
  }

  ghost function ErrorWord(lambda: seq<Sym>, s: seq<Sym>): (e: seq<Sym>)
    ensures |e| == NN
    ensures forall k :: 0 <= k < NN ==> e[k] == if RootAt(lambda, k) then ErrorValue(lambda, s, k) else 0
  {
    seq(NN, k requires 0 <= k < NN => if RootAt(lambda, k) then ErrorValue(lambda, s, k) else 0)
  }

  /** The return value of decode_rs8, and the correction it applies. */
  ghost function Decode(w: seq<Sym>): (r: (int, seq<Sym>))
    requires |w| == NN
    ensures |r.1| == NN
  {
    var s := Syndromes(w);
    if AllZeros(s) then (0, BM.Zeros(NN))
    else
      var lambda := BM.Run(s, NROOTS).lambda;
      if RootCount(lambda, NN) != Degree(lambda) then (EBADMSG, BM.Zeros(NN))
      else (Degree(lambda), ErrorWord(lambda, s))
  }

  // ----- an error word as locations and values -----

  function Locs(e: seq<Sym>): (xs: seq<Sym>)
    ensures |xs| == Weight(e)
  {
    if e == [] then []
    else if e[0] == 0 then Locs(e[1..])
    else [Exp(|e| - 1)] + Locs(e[1..])
  }

  /** The symbols of e at the positions where m is not zero. */
  function Vals(m: seq<Sym>, e: seq<Sym>): (ys: seq<Sym>)
    requires |m| == |e|
    ensures |ys| == Weight(m)
  {
    if m == [] then []
    else if m[0] == 0 then Vals(m[1..], e[1..])
    else [e[0]] + Vals(m[1..], e[1..])
  }

  lemma {:induction false} HornerIsPowSum(m: seq<Sym>, e: seq<Sym>, j: nat)
    requires |m| == |e| && forall i :: 0 <= i < |m| && m[i] == 0 ==> e[i] == 0
    ensures Horner(e, Exp(j)) == PowSum(Locs(m), Vals(m, e), j)
  {
    hide Mul, Add, Exp;
    if e != [] {
      var c, t, u := e[0], e[1..], m[1..];
      assert e == [c] + t;
      HornerFront(c, t, Exp(j));
      HornerIsPowSum(u, t, j);
      PowExpSwap(|t|, j);
      if m[0] == 0 {
        MulZero(Pow(Exp(j), |t|));
        AddZero(Horner(t, Exp(j)));
        assert Locs(m) == Locs(u) && Vals(m, e) == Vals(u, t);
      } else {
        assert Locs(m)[1..] == Locs(u) && Vals(m, e)[1..] == Vals(u, t);
      }
    }
  }

  /** Locations come from the positions of nonzero symbols. */
  lemma {:induction false} LocIsPosition(m: seq<Sym>, e: seq<Sym>, l: nat) returns (j: nat)
    requires |m| == |e| && l < Weight(m)
    ensures j < |m| && m[j] != 0 && Locs(m)[l] == Exp(|m| - 1 - j) && Vals(m, e)[l] == e[j]
  {
    hide Exp;
    if m[0] != 0 && l == 0 {
      j := 0;
    } else {
      var u, t, i := m[1..], e[1..], if m[0] == 0 then l else l - 1;
      assert Locs(m)[l] == Locs(u)[i] && Vals(m, e)[l] == Vals(u, t)[i];
      hide Locs, Vals, Weight;
      var k := LocIsPosition(u, t, i);
      j := k + 1;
    }
  }

  lemma {:induction false} PositionIsLoc(m: seq<Sym>, e: seq<Sym>, j: nat) returns (l: nat)
    requires |m| == |e| && j < |m| && m[j] != 0
    ensures l < Weight(m) && Locs(m)[l] == Exp(|m| - 1 - j) && Vals(m, e)[l] == e[j]
  {
    hide Exp;
    if j == 0 {
      l := 0;
    } else {
      var i := PositionIsLoc(m[1..], e[1..], j - 1);
      l := if m[0] == 0 then i else i + 1;
    }
  }

  lemma {:induction false} LocsDistinct(e: seq<Sym>)
    requires |e| <= NN
    ensures Distinct(Locs(e)) && NoZeros(Locs(e)) && NoZeros(Vals(e, e))
  {
    hide Exp;
    if e != [] {
      var t := e[1..];
      LocsDistinct(t);
      if e[0] != 0 {
        ExpNonzero(|t|);
        forall l | 0 <= l < Weight(t)
          ensures Locs(t)[l] != Exp(|t|)
        {
          var j := LocIsPosition(t, t, l);
          if Locs(t)[l] == Exp(|t|) {
            ExpInjective(|t|, |t| - 1 - j);
          }
        }
      }
    }
  }

  lemma ErrorSeries(e: seq<Sym>)
    ensures IsSeries(Syndromes(e), Locs(e), Vals(e, e))
  {
    hide Exp, Horner;
    forall n | 0 <= n < NROOTS
      ensures Syndromes(e)[n] == PowSum(Locs(e), Vals(e, e), n + 1)
    {
      HornerIsPowSum(e, e, n + 1);
    }
  }

  lemma AddSeqScaleOne(v: seq<Sym>, w: seq<Sym>)
    requires |v| == |w|
    ensures AddSeq(v, w) == AddSeq(v, Scale(1, w))
  {
    hide Mul, Add;
    forall i | 0 <= i < |v|
      ensures AddSeq(v, w)[i] == AddSeq(v, Scale(1, w))[i]
    {
      MulOne(w[i]);
    }
  }

  /** Adding a codeword does not change the syndromes. */
  lemma SyndromesOfDifference(w: seq<Sym>, c: seq<Sym>)
    requires |w| == NN && IsCodeword(c)
    ensures Syndromes(AddSeq(w, c)) == Syndromes(w)
  {
    hide Mul, Add, Exp, Horner;
    AddSeqScaleOne(w, c);
    forall i | 0 <= i < NROOTS
      ensures Syndromes(AddSeq(w, c))[i] == Syndromes(w)[i]
    {
      HornerLinear(w, c, 1, Exp(i + 1));
      assert Horner(c, Exp(i + 1)) == Syndromes(c)[i] == 0;
      MulZero(1);
      AddZero(Horner(w, Exp(i + 1)));
    }
  }

  lemma {:induction false} WeightZero(e: seq<Sym>)
    ensures Weight(e) == 0 <==> AllZeros(e)
  {
    if e != [] {
      WeightZero(e[1..]);
      assert forall i :: 1 <= i < |e| ==> e[i] == e[1..][i - 1];
    }
  }

  /** A word with fewer than eleven nonzero symbols and no syndrome is zero. */
  lemma LightCodeword(e: seq<Sym>)
    requires |e| <= NN && AllZeros(Syndromes(e)) && Weight(e) <= NROOTS
    ensures AllZeros(e)
  {
    hide Mul, Add, Exp, Horner;
    ErrorSeries(e);
    LocsDistinct(e);
    forall n | 1 <= n < 1 + Weight(e)
      ensures PowSum(Locs(e), Vals(e, e), n) == 0
    {
      assert Syndromes(e)[n - 1] == 0;
    }
    Vandermonde(Locs(e), Vals(e, e), 1);
    ZeroAndNonzero(Vals(e, e));
    WeightZero(e);
  }

  lemma ZeroAndNonzero(ys: seq<Sym>)
    requires AllZeros(ys) && NoZeros(ys)
    ensures ys == []
  {
    var first := Coef(ys, 0);
  }

  /** The minimum distance of the code is eleven. */
  lemma MinimumDistance(v: seq<Sym>, w: seq<Sym>)
    requires IsCodeword(v) && IsCodeword(w) && v != w
    ensures Distance(v, w) >= NROOTS + 1
  {
    hide Mul, Add, Exp, Horner;
    SyndromesOfDifference(v, w);
    if Distance(v, w) <= NROOTS {
      LightCodeword(AddSeq(v, w));
      forall i | 0 <= i < NN
        ensures v[i] == w[i]
      {
        assert AddSeq(v, w)[i] == 0;
        AddCancel(v[i], w[i]);
      }
    }
  }
}
