/** The packet codec of ncrs.c: interleaved codewords, decoded at seven
    alignments of a zero-padded buffer. */
module Ncrs {
  import opened Bits
  import opened GF32
  import opened Poly
  import opened ReedSolomon
  import opened Decoding
  import opened Encoding
  import opened RsEncoder
  import opened RsDecoder
  import opened Packing
  import opened RsTables
  import BM = BerlekampMassey

  const MAX_SHIFT_DISTANCE := 3
  const ATTEMPTS := 7

  // ----- interleaving -----

  function DataOf<T>(ch: seq<T>): (d: seq<T>)
    requires |ch| == NN
    ensures |d| == MSG_SYMBOLS
    ensures forall j :: 0 <= j < MSG_SYMBOLS ==> d[j] == ch[j / 2 * 3 + j % 2]
  {
    seq(MSG_SYMBOLS, j requires 0 <= j < MSG_SYMBOLS => ch[j / 2 * 3 + j % 2])
  }

  function ParityOf<T>(ch: seq<T>): (p: seq<T>)
    requires |ch| == NN
    ensures |p| == NROOTS
    ensures forall t :: 0 <= t < NROOTS ==> p[t] == ch[3 * t + 2]
  {
    seq(NROOTS, t requires 0 <= t < NROOTS => ch[3 * t + 2])
  }

  /** The codeword carried by thirty-one channel symbols. */
  function WordOf(ch: seq<Sym>): (w: seq<Sym>)
    requires |ch| == NN
    ensures |w| == NN
  {
    DataOf(ch) + ParityOf(ch)
  }

  /** Two data symbols, then one parity symbol. */
  function Interleave(w: seq<Sym>): (ch: seq<Sym>)
    requires |w| == NN
    ensures |ch| == NN
    ensures forall n :: 0 <= n < NN ==>
      ch[n] == if n % 3 == 2 then w[MSG_SYMBOLS + n / 3] else w[n / 3 * 2 + n % 3]
  {
    seq(NN, n requires 0 <= n < NN => if n % 3 == 2 then w[MSG_SYMBOLS + n / 3] else w[n / 3 * 2 + n % 3])
  }

  lemma WordOfInterleave(w: seq<Sym>)
    requires |w| == NN
    ensures WordOf(Interleave(w)) == w
  {
    var v := WordOf(Interleave(w));
    forall k | 0 <= k < NN
      ensures v[k] == w[k]
    {
      if k < MSG_SYMBOLS {
        var n := k / 2 * 3 + k % 2;
        assert n % 3 == k % 2 && n / 3 == k / 2;
      } else {
        var n := 3 * (k - MSG_SYMBOLS) + 2;
        assert n % 3 == 2 && n / 3 == k - MSG_SYMBOLS;
      }
    }
  }

  lemma {:induction false} WeightOfTriples(ch: seq<Sym>, t: nat)
    requires |ch| == NN && t <= NROOTS
    ensures Weight(ch[..3 * t]) == Weight(DataOf(ch)[..2 * t]) + Weight(ParityOf(ch)[..t])
  {
    hide Weight;
    if t == 0 {
      assert ch[..0] == [] && DataOf(ch)[..0] == [] && ParityOf(ch)[..0] == [];
      WeightZero([]);
    } else {
      var d, p, i := DataOf(ch), ParityOf(ch), t - 1;
      WeightOfTriples(ch, i);
      assert d[2 * i] == ch[3 * i] && d[2 * i + 1] == ch[3 * i + 1];
      hide DataOf, ParityOf;
      assert ch[..3 * t] == ch[..3 * i] + [ch[3 * i]] + [ch[3 * i + 1]] + [ch[3 * i + 2]];
      assert d[..2 * t] == d[..2 * i] + [d[2 * i]] + [d[2 * i + 1]];
      assert p[..t] == p[..i] + [p[i]];
      WeightSnoc(ch[..3 * i], ch[3 * i]);
      WeightSnoc(ch[..3 * i] + [ch[3 * i]], ch[3 * i + 1]);
      WeightSnoc(ch[..3 * i] + [ch[3 * i]] + [ch[3 * i + 1]], ch[3 * i + 2]);
      WeightSnoc(d[..2 * i], d[2 * i]);
      WeightSnoc(d[..2 * i] + [d[2 * i]], d[2 * i + 1]);
      WeightSnoc(p[..i], p[i]);
    }
  }

  /** Interleaving only permutes the symbols. */
  lemma WeightOfWord(ch: seq<Sym>)
    requires |ch| == NN
    ensures Weight(WordOf(ch)) == Weight(ch)
  {
    var d, p := DataOf(ch), ParityOf(ch);
    hide Weight;
    WeightOfTriples(ch, NROOTS);
    assert d[20] == ch[30];
    hide DataOf, ParityOf;
    assert ch == ch[..30] + [ch[30]];
    assert d == d[..20] + [d[20]];
    assert p == p[..10];
    WeightSnoc(ch[..30], ch[30]);
    WeightSnoc(d[..20], d[20]);
    WeightConcat(d, p);
  }

  lemma DistanceOfWords(v: seq<Sym>, u: seq<Sym>)
    requires |v| == |u| == NN
    ensures Distance(WordOf(v), WordOf(u)) == Distance(v, u)
  {
    hide Add, Weight;
    assert AddSeq(WordOf(v), WordOf(u)) == WordOf(AddSeq(v, u));
    WeightOfWord(AddSeq(v, u));
  }

  // ----- encoding -----

  /** What ncrs_encode transmits for a message. */
  ghost function Encoded(m: seq<Byte>): (ch: seq<Sym>)
    requires |m| == MESSAGE_BYTES
    ensures |ch| == NN
  {
    Interleave(Pack(m) + Parity(Pack(m)))
  }

  lemma EncodedIsCodeword(m: seq<Byte>)
    requires |m| == MESSAGE_BYTES
    ensures IsCodeword(WordOf(Encoded(m)))
    ensures DataOf(Encoded(m)) == Pack(m)
  {
    hide IsCodeword, Pack, Parity;
    var w := Pack(m) + Parity(Pack(m));
    WordOfInterleave(w);
    ParityMakesCodeword(Pack(m));
    assert DataOf(Encoded(m)) == WordOf(Encoded(m))[..MSG_SYMBOLS];
  }

  // ----- decoding at shifted alignments -----

  function Padded(v: seq<Byte>): (p: seq<Byte>)
    requires |v| == NN
    ensures |p| == 2 * MAX_SHIFT_DISTANCE + NN
  {
    [0, 0, 0] + v + [0, 0, 0]
  }

  /** Where attempt a starts reading: 3, 3, 2, 4, 1, 5, 0. */
  function Offset(a: nat): (i: nat)
    requires a < ATTEMPTS
    ensures i + NN <= 2 * MAX_SHIFT_DISTANCE + NN
  {
    if a % 2 == 1 then MAX_SHIFT_DISTANCE + a / 2 else MAX_SHIFT_DISTANCE - a / 2
  }

  /** The thirty-one symbols attempt a looks at. */
  function Window(v: seq<Byte>, a: nat): (w: seq<Byte>)
    requires |v| == NN && a < ATTEMPTS
    ensures |w| == NN
  {
    Padded(v)[Offset(a)..Offset(a) + NN]
  }

  /** The outcome of attempt a: number of corrections, corrected data. */
  ghost function Attempt(v: seq<Byte>, a: nat): (r: (int, seq<Sym>))
    requires |v| == NN && a < ATTEMPTS
    ensures |r.1| == MSG_SYMBOLS
  {
    var w := WordOf(Masked(Window(v, a)));
    var d := Decode(w);
    (d.0, AddSeq(w, d.1)[..MSG_SYMBOLS])
  }

  ghost function FirstSuccess(v: seq<Byte>, a: nat): (b: nat)
    requires |v| == NN && a <= ATTEMPTS
    ensures a <= b <= ATTEMPTS
    decreases ATTEMPTS - a
  {
    if a == ATTEMPTS || Attempt(v, a).0 >= 0 then a else FirstSuccess(v, a + 1)
  }

  lemma {:induction false} FirstSuccessIs(v: seq<Byte>, a: nat, b: nat)
    requires |v| == NN && a <= b < ATTEMPTS && Attempt(v, b).0 >= 0
    requires forall c :: a <= c < b ==> Attempt(v, c).0 < 0
    ensures FirstSuccess(v, a) == b
    decreases b - a
  {
    hide Attempt;
    if a < b {
      FirstSuccessIs(v, a + 1, b);
    }
  }

  /** The return code and message of ncrs_decode; zero means undecodable. */
  ghost function Decoded(v: seq<Byte>): (r: (int, seq<Byte>))
    requires |v| == NN
    ensures |r.1| == MESSAGE_BYTES
  {
    var a := FirstSuccess(v, 0);
    if a == ATTEMPTS then (0, seq(MESSAGE_BYTES, _ => 0))
    else (1 + a + 10 * Attempt(v, a).0, Unpack(Attempt(v, a).1))
  }

  /** What decode_rs8 makes of the thirty-one symbols from offset o of the
      buffer with three zeros at either end: the count and the data. */
  ghost function DecodedAt(v: seq<Byte>, o: nat): (r: (int, seq<Sym>))
    requires |v| == 31 && o <= 6
    ensures |r.1| == 21
  {
    var w := WordOf(Masked(([0, 0, 0] + v + [0, 0, 0])[o..o + 31]));
    var d := Decode(w);
    (d.0, AddSeq(w, d.1)[..21])
  }

  /** No alignment that is tried decodes. */
  ghost predicate Undecodable(v: seq<Byte>)
    requires |v| == 31
  {
    forall o :: 0 <= o <= 5 ==> DecodedAt(v, o).0 < 0
  }

  /** The offsets in the order they are tried. */
  lemma AttemptIs(v: seq<Byte>, a: nat)
    requires |v| == 31 && a < 7
    ensures [3, 3, 2, 4, 1, 5, 0][a] == Offset(a)
    ensures Attempt(v, a) == DecodedAt(v, [3, 3, 2, 4, 1, 5, 0][a])
  {
    hide Decode, Masked, WordOf;
  }

  lemma UndecodableAttempts(v: seq<Byte>)
    requires |v| == 31
    ensures Undecodable(v) <==> forall a :: 0 <= a < 7 ==> Attempt(v, a).0 < 0
  {
    hide Attempt, DecodedAt;
    forall a: nat | a < 7
      ensures Attempt(v, a).0 == DecodedAt(v, Offset(a)).0
    {
      AttemptIs(v, a);
    }
    if forall a :: 0 <= a < 7 ==> Attempt(v, a).0 < 0 {
      forall o | 0 <= o <= 5
        ensures DecodedAt(v, o).0 < 0
      {
        OffsetsTried(o);
      }
    }
  }

  /** Zero is the answer exactly when no offset from 0 to 5 decodes. */
  lemma UndecodableIff(v: seq<Byte>)
    requires |v| == 31
    ensures Decoded(v).0 == 0 <==> Undecodable(v)
  {
    hide Attempt, DecodedAt, Unpack;
    UndecodableAttempts(v);
    FirstSuccessBefore(v, 0);
    hide Undecodable;
  }

  /** Otherwise the first of 3, 3, 2, 4, 1, 5, 0 that decodes gives the answer. */
  lemma FirstDecodable(v: seq<Byte>, a: nat)
    requires |v| == 31 && a < 7 && DecodedAt(v, [3, 3, 2, 4, 1, 5, 0][a]).0 >= 0
    requires forall b :: 0 <= b < a ==> DecodedAt(v, [3, 3, 2, 4, 1, 5, 0][b]).0 < 0
    ensures Decoded(v).0 == 1 + a + 10 * DecodedAt(v, [3, 3, 2, 4, 1, 5, 0][a]).0
    ensures Decoded(v).1 == Unpack(DecodedAt(v, [3, 3, 2, 4, 1, 5, 0][a]).1)
  {
    hide Attempt, DecodedAt, Unpack;
    AttemptIs(v, a);
    forall b | 0 <= b < a
      ensures Attempt(v, b).0 < 0
    {
      AttemptIs(v, b);
    }
    FirstSuccessIs(v, 0, a);
  }

  lemma {:induction false} FirstSuccessBefore(v: seq<Byte>, a: nat)
    requires |v| == NN && a <= ATTEMPTS
    ensures forall b :: a <= b < FirstSuccess(v, a) ==> Attempt(v, b).0 < 0
    ensures FirstSuccess(v, a) < ATTEMPTS ==> Attempt(v, FirstSuccess(v, a)).0 >= 0
    decreases ATTEMPTS - a
  {
    hide Attempt;
    if a < ATTEMPTS && Attempt(v, a).0 < 0 {
      FirstSuccessBefore(v, a + 1);
    }
  }

  /** Of the alignments the padding allows, the last is never tried. */
  lemma OffsetsTried(o: nat)
    requires o <= 2 * MAX_SHIFT_DISTANCE
    ensures (exists a: nat :: a < ATTEMPTS && Offset(a) == o) <==> o != 2 * MAX_SHIFT_DISTANCE
  {
    var a := if o <= 3 then 2 * (3 - o) else 2 * (o - 3) + 1;
    if o != 6 {
      assert Offset(a) == o;
    }
  }

  /** So the second attempt never is the one that succeeds. */
  lemma SecondAttemptIsWasted(v: seq<Byte>)
    requires |v| == NN
    ensures FirstSuccess(v, 0) != 1
  {
    hide Decode;
    assert Attempt(v, 0) == Attempt(v, 1);
    hide Attempt;
    assert FirstSuccess(v, 1) == 1 <==> Attempt(v, 1).0 >= 0;
  }

  /** Whenever attempt a looks at a window within five symbols of what was
      sent and all attempts before it failed, the message is recovered. */
  lemma AttemptRecovers(m: seq<Byte>, v: seq<Byte>, a: nat)
    requires |m| == MESSAGE_BYTES && |v| == NN && a < ATTEMPTS
    requires 2 * Distance(Masked(Window(v, a)), Encoded(m)) <= NROOTS
    requires forall b :: 0 <= b < a ==> Attempt(v, b).0 < 0
    ensures Decoded(v) == (1 + a + 10 * Distance(Masked(Window(v, a)), Encoded(m)), Carried(m))
  {
    hide Pack, Unpack, Parity, IsCodeword, Decode, Window, Weight, Interleave;
    var u := Masked(Window(v, a));
    EncodedIsCodeword(m);
    DistanceOfWords(u, Encoded(m));
    DecodeCorrects(WordOf(u), WordOf(Encoded(m)));
    assert Attempt(v, a).1 == Pack(m);
    hide Attempt;
    FirstSuccessIs(v, 0, a);
    UnpackPack(m);
  }

  lemma UnshiftedWindow(v: seq<Byte>)
    requires |v| == NN
    ensures Window(v, 0) == v
  {
  }

  /** At most five wrong symbols and no shift: decoded at the first attempt. */
  lemma NoisyRoundTrip(m: seq<Byte>, v: seq<Byte>)
    requires |m| == MESSAGE_BYTES && |v| == NN
    requires 2 * Distance(Masked(v), Encoded(m)) <= NROOTS
    ensures Decoded(v) == (1 + 10 * Distance(Masked(v), Encoded(m)), Carried(m))
  {
    hide Decoded, Encoded, Distance, Attempt, Masked, Window, Carried;
    UnshiftedWindow(v);
    AttemptRecovers(m, v, 0);
  }

  lemma MaskedSymbols(v: seq<Sym>)
    ensures Masked(v) == v
  {
  }

  lemma DistanceToSelf(v: seq<Sym>)
    ensures Distance(v, v) == 0
  {
    hide Add, Weight;
    forall i | 0 <= i < |v|
      ensures AddSeq(v, v)[i] == 0
    {
      AddSelf(v[i]);
    }
    WeightZero(AddSeq(v, v));
  }

  /** A perfect transmission returns one. */
  lemma CleanRoundTrip(m: seq<Byte>)
    requires |m| == MESSAGE_BYTES
    ensures Decoded(Encoded(m)) == (1, Carried(m))
  {
    hide Decoded, Encoded, Distance, Attempt, Masked, Window, Carried;
    var v := Encoded(m);
    MaskedSymbols(v);
    DistanceToSelf(v);
    NoisyRoundTrip(m, v);
  }

  // ----- lost and inserted symbols -----

  /** How many of the n symbols from a on in v differ from those from b on in u. */
  function Mismatches(v: seq<Sym>, a: nat, u: seq<Sym>, b: nat, n: nat): nat
    requires a + n <= |v| && b + n <= |u|
  {
    Weight(AddSeq(v[a..a + n], u[b..b + n]))
  }

  lemma AddZeros(z: seq<Sym>, u: seq<Sym>)
    requires |z| == |u| && forall i :: 0 <= i < |z| ==> z[i] == 0
    ensures AddSeq(z, u) == u
  {
    hide Add;
    forall i | 0 <= i < |u|
      ensures AddSeq(z, u)[i] == u[i]
    {
      AddZero(u[i]);
      AddComm(0, u[i]);
    }
  }

  /** A message cut off after k symbols differs from the whole only in the rest. */
  lemma CutDistance(msg: seq<Sym>, k: nat, z: seq<Sym>)
    requires |z| + k == |msg| && forall i :: 0 <= i < |z| ==> z[i] == 0
    ensures Distance(msg[..k] + z, msg) == Weight(msg[k..])
  {
    hide Add, Weight;
    AddZeros(z, msg[k..]);
    var front := AddSeq(msg[..k], msg[..k]);
    assert AddSeq(msg[..k] + z, msg) == front + msg[k..];
    WeightConcat(front, msg[k..]);
    DistanceToSelf(msg[..k]);
  }

  /** A message of which the first k symbols are right. */
  lemma PrefixDistance(v: seq<Sym>, w: seq<Sym>, k: nat)
    requires k <= |v| == |w| && v[..k] == w[..k]
    ensures Distance(v, w) <= |v| - k
  {
    hide Add, Weight;
    DistanceToSelf(v[..k]);
    var front, rest := AddSeq(v[..k], w[..k]), AddSeq(v[k..], w[k..]);
    assert AddSeq(v, w) == front + rest;
    WeightConcat(front, rest);
    assert Weight(rest) <= |rest|;
  }

  lemma EarlyWindow(v: seq<Byte>, s: nat)
    requires |v| == NN && 1 <= s <= MAX_SHIFT_DISTANCE
    ensures |Masked(v)| == |Masked(Window(v, 2 * s))| == NN
    ensures var w := Masked(Window(v, 2 * s));
      w[s..] == Masked(v)[0..NN - s] && forall j :: 0 <= j < s ==> w[j] == 0
  {
    assert Offset(2 * s) == 3 - s;
  }

  lemma LateWindow(v: seq<Byte>, s: nat)
    requires |v| == NN && 1 <= s < MAX_SHIFT_DISTANCE
    ensures |Masked(v)| == |Masked(Window(v, 2 * s + 1))| == NN
    ensures var w := Masked(Window(v, 2 * s + 1));
      w[..NN - s] == Masked(v)[s..s + (NN - s)] && forall j :: NN - s <= j < NN ==> w[j] == 0
  {
    assert Offset(2 * s + 1) == 3 + s;
  }

  /** Reading s symbols early puts s zeros in front of what was received. */
  lemma LostDistance(v: seq<Byte>, u: seq<Sym>, s: nat)
    requires |v| == |u| == NN && 1 <= s <= MAX_SHIFT_DISTANCE
    ensures Distance(Masked(Window(v, 2 * s)), u) == Mismatches(Masked(v), 0, u, s, NN - s) + Weight(u[..s])
  {
    hide Add, Weight, Window, Masked;
    EarlyWindow(v, s);
    var w := Masked(Window(v, 2 * s));
    assert u[s..] == u[s..s + (NN - s)];
    AddZeros(w[..s], u[..s]);
    var tail := AddSeq(w[s..], u[s..]);
    assert AddSeq(w, u) == u[..s] + tail;
    WeightConcat(u[..s], tail);
  }

  /** Reading s symbols late puts s zeros behind it. */
  lemma InsertedDistance(v: seq<Byte>, u: seq<Sym>, s: nat)
    requires |v| == |u| == NN && 1 <= s < MAX_SHIFT_DISTANCE
    ensures Distance(Masked(Window(v, 2 * s + 1)), u) == Mismatches(Masked(v), s, u, 0, NN - s) + Weight(u[NN - s..])
  {
    hide Add, Weight, Window, Masked;
    LateWindow(v, s);
    var w, n := Masked(Window(v, 2 * s + 1)), NN - s;
    assert u[..n] == u[0..0 + n];
    AddZeros(w[n..], u[n..]);
    var head := AddSeq(w[..n], u[..n]);
    assert AddSeq(w, u) == head + u[n..];
    WeightConcat(head, u[n..]);
  }

  /** The first s symbols were lost; v holds the rest, with whatever at its end.
      Lost symbols that were zero cost nothing. */
  lemma LostSymbols(m: seq<Byte>, v: seq<Byte>, s: nat)
    requires |m| == MESSAGE_BYTES && |v| == NN && 1 <= s <= MAX_SHIFT_DISTANCE
    requires Mismatches(Masked(v), 0, Encoded(m), s, NN - s) + Weight(Encoded(m)[..s]) <= 5
    requires forall b :: 0 <= b < 2 * s ==> Attempt(v, b).0 < 0
    ensures var wrong := Mismatches(Masked(v), 0, Encoded(m), s, NN - s) + Weight(Encoded(m)[..s]);
      Decoded(v) == (1 + 2 * s + 10 * wrong, Carried(m))
  {
    hide Decoded, Decode, Encoded, Weight, Distance, Mismatches, Attempt, Masked, Window, Carried;
    LostDistance(v, Encoded(m), s);
    AttemptRecovers(m, v, 2 * s);
  }

  /** s symbols were inserted in front; v holds the first of those sent after
      them. Symbols cut off at the end that were zero cost nothing. */
  lemma InsertedSymbols(m: seq<Byte>, v: seq<Byte>, s: nat)
    requires |m| == MESSAGE_BYTES && |v| == NN && 1 <= s < MAX_SHIFT_DISTANCE
    requires Mismatches(Masked(v), s, Encoded(m), 0, NN - s) + Weight(Encoded(m)[NN - s..]) <= 5
    requires forall b :: 0 <= b < 2 * s + 1 ==> Attempt(v, b).0 < 0
    ensures var wrong := Mismatches(Masked(v), s, Encoded(m), 0, NN - s) + Weight(Encoded(m)[NN - s..]);
      Decoded(v) == (2 + 2 * s + 10 * wrong, Carried(m))
  {
    hide Decoded, Decode, Encoded, Weight, Distance, Mismatches, Attempt, Masked, Window, Carried;
    InsertedDistance(v, Encoded(m), s);
    AttemptRecovers(m, v, 2 * s + 1);
  }
}
