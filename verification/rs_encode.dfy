/** encode_rs8: the feedback shift register over the parity array. */
module RsEncoder {
  import opened Bits
  import opened GF32
  import opened Poly
  import opened ReedSolomon
  import opened Encoding
  import opened RsTables

  /** The low five bits of every element: what the codec looks at. */
  function Masked(s: seq<nat>): (r: seq<Sym>)
    ensures |r| == |s|
    ensures forall i :: 0 <= i < |s| ==> r[i] == s[i] % 32
  {
    seq(|s|, i requires 0 <= i < |s| => s[i] % 32)
  }

  ghost predicate AllSymbols(s: seq<Word16>)
  {
    forall i :: 0 <= i < |s| ==> s[i] < 32
  }

  lemma ZeroFeedback(par: seq<Sym>, d: Sym, j: nat)
    requires |par| == NROOTS && Add(d, par[0]) == 0 && j < NROOTS
    ensures EncodeStep(par, d)[j] == if j == NROOTS - 1 then 0 else par[j + 1]
  {
    hide Mul, Add, Gen;
    MulZero(Gen(NROOTS)[1..][j]);
    AddZero(if j == NROOTS - 1 then 0 else par[j + 1]);
    assert (par[1..] + [0])[j] == if j == NROOTS - 1 then 0 else par[j + 1];
  }

  lemma Feedback(par: seq<Sym>, d: Sym, j: nat)
    requires |par| == NROOTS && j < NROOTS
    ensures EncodeStep(par, d)[j]
         == Add(if j == NROOTS - 1 then 0 else par[j + 1], Mul(Add(d, par[0]), Gen(NROOTS)[j + 1]))
  {
    hide Mul, Add, Gen;
    assert (par[1..] + [0])[j] == if j == NROOTS - 1 then 0 else par[j + 1];
    assert Gen(NROOTS)[1..][j] == Gen(NROOTS)[j + 1];
  }

  /** alpha_to[rs_modnn(fb + genpoly[k])], which needs genpoly[k] != nn. */
  method FeedbackTerm(rs: RsControl, fb: Word16, ghost f: Sym, k: nat) returns (r: Word16)
    requires rs.Valid() && f != 0 && fb == Log(f) && k < NROOTS
    ensures r < 32 && r == Mul(f, Gen(NROOTS)[NROOTS - k])
  {
    hide Mul, Add, Exp, Gen;
    ghost var g := Gen(NROOTS)[NROOTS - k];
    GenNoZeros();
    TableProduct(f, Log(g));
    var m := rs.Modnn(fb + rs.genpoly[k]);
    r := rs.alphaTo[m];
  }

  method EncodeSymbol(rs: RsControl, par: array<Word16>, d: Sym)
    requires rs.Valid() && par !in rs.Repr()
    requires par.Length == NROOTS && AllSymbols(par[..])
    modifies par
    ensures AllSymbols(par[..]) && par[..] == EncodeStep(old(par[..]), d)
  {
    hide Mul, Add, Exp, Gen;
    ghost var p: seq<Sym> := par[..];
    ghost var f: Sym := Add(d, p[0]);
    ghost var next := EncodeStep(p, d);
    forall j | 0 <= j < NROOTS
      ensures f == 0 ==> next[j] == if j == NROOTS - 1 then 0 else p[j + 1]
      ensures next[j] == Add(if j == NROOTS - 1 then 0 else p[j + 1], Mul(f, Gen(NROOTS)[j + 1]))
    {
      Feedback(p, d, j);
      if f == 0 {
        ZeroFeedback(p, d, j);
      }
    }
    hide EncodeStep;
    var fb := rs.indexOf[XorSym(d, par[0])];
    if fb != rs.nn {
      var j := 1;
      while j < rs.nroots
        invariant 1 <= j <= NROOTS
        invariant forall k :: 1 <= k < j ==> par[k] == next[k - 1]
        invariant forall k :: j <= k < NROOTS ==> par[k] == p[k]
      {
        var t := FeedbackTerm(rs, fb, f, rs.nroots - j);
        par[j] := XorSym(par[j], t);
        j := j + 1;
      }
    }
    ghost var q := par[..];
    forall j | 0 <= j < NROOTS - 1 {
      par[j] := par[j + 1];
    }
    assert forall j :: 0 <= j < NROOTS - 1 ==> par[j] == q[j + 1] == next[j];
    if fb != rs.nn {
      var t := FeedbackTerm(rs, fb, f, 0);
      AddZero(t);
      par[rs.nroots - 1] := t;
    } else {
      par[rs.nroots - 1] := 0;
    }
  }

  /** Parity of len data symbols, starting from the parity buffer given. */
  method EncodeRs8(rs: RsControl, data: array<Byte>, len: int, par: array<Word16>) returns (rc: int)
    requires rs.Valid() && par !in rs.Repr()
    requires len <= data.Length && par as object != data
    requires par.Length == NROOTS && AllSymbols(par[..])
    modifies par
    ensures rc == if 0 <= NN - NROOTS - len < NN then 0 else -1
    ensures rc == -1 || len <= 0 ==> par[..] == old(par[..])
    ensures AllSymbols(par[..])
    ensures rc == 0 && 0 <= len ==> par[..] == EncodeFrom(old(par[..]), Masked(data[..len]))
  {
    hide Mul, Add, Exp, Gen, EncodeStep;
    var pad := rs.nn - rs.nroots - len;
    if pad < 0 || pad >= rs.nn {
      return -1;
    }
    ghost var start: seq<Sym> := par[..];
    var i := 0;
    while i < len
      invariant 0 <= i && (0 <= len ==> i <= len) && (len <= 0 ==> i == 0)
      invariant AllSymbols(par[..])
      invariant i <= len ==> par[..] == EncodeFrom(start, Masked(data[..i]))
      invariant i == 0 ==> par[..] == start
    {
      ghost var before := Masked(data[..i]);
      assert Masked(data[..i + 1]) == before + [data[i] % 32];
      Snoc(before, data[i] % 32);
      EncodeSymbol(rs, par, data[i] % 32);
      i := i + 1;
    }
    rc := 0;
  }
}
