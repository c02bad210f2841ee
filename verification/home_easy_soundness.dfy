/** Whatever edges arrive, a Home Easy code is published only for a frame. */
module HomeEasySoundness {
  import opened Bits
  import opened BitTests
  import opened Rx433
  import opened RadioEvents

  /** Bit j of a code of thirty-two bits, the top bit first. */
  function CodeBit(code: nat, j: nat): Bit
    requires j < 32
  {
    TestBit(code, 31 - j)
  }

  // ----- the gaps of a frame -----

  predicate ShortGap(gap: Word32)
  {
    384 <= gap < 768
  }

  predicate LongGap(gap: Word32)
  {
    1408 <= gap < 1664
  }

  predicate FrameStart(gap: Word32)
  {
    2816 <= gap < 3072
  }

  /** Both gaps of a bit: the long one first for a one. */
  predicate BitPair(bit: Bit, first: Word32, second: Word32)
  {
    if bit == 1 then LongGap(first) && ShortGap(second) else ShortGap(first) && LongGap(second)
  }

  /** A start gap and the pairs of the first n bits of this code, top bit first. */
  predicate Spells(gaps: seq<Word32>, code: nat, n: nat)
    requires n <= 32
  {
    && |gaps| == 2 * n + 1 && FrameStart(gaps[0])
    && forall j :: 0 <= j < n ==> BitPair(CodeBit(code, j), gaps[2 * j + 1], gaps[2 * j + 2])
  }

  lemma GapsAre(gap: Word32)
    ensures GapOf(gap) == Short <==> ShortGap(gap)
    ensures GapOf(gap) == Long <==> LongGap(gap)
    ensures GapOf(gap) == Start <==> FrameStart(gap)
  {
  }

  // ----- what the decoder has seen -----

  function Last(gaps: seq<Word32>, n: nat): (r: seq<Word32>)
    requires n <= |gaps|
    ensures |r| == n
  {
    gaps[|gaps| - n..]
  }

  /** The bits not received yet are zero. */
  predicate NoLaterBits(data: nat, n: nat)
    requires n <= 32
  {
    forall j :: n <= j < 32 ==> CodeBit(data, j) == 0
  }

  /** The state of the decoder is explained by the last gaps. */
  predicate Explained(h: He, gaps: seq<Word32>)
  {
    h.state != Reset ==>
      var n := 2 * h.bitCount + if h.state == ReadyForBit then 1 else 2;
      && h.bitCount < 32 && n <= |gaps| && NoLaterBits(h.bitData, h.bitCount)
      && Spells(Last(gaps, n)[..2 * h.bitCount + 1], h.bitData, h.bitCount)
      && (h.state == ReceivedShort ==> ShortGap(Last(gaps, n)[n - 1]))
      && (h.state == ReceivedLong ==> LongGap(Last(gaps, n)[n - 1]))
  }

  /** One more bit. */
  lemma SpellsMore(gaps: seq<Word32>, data: nat, n: nat, bit: Bit, first: Word32, second: Word32) returns (data': nat)
    requires n < 32 && Spells(gaps, data, n) && NoLaterBits(data, n) && BitPair(bit, first, second)
    ensures data' == if bit == 1 then Or(data, HeMask(n)) else data
    ensures Spells(gaps + [first, second], data', n + 1) && NoLaterBits(data', n + 1)
  {
    hide CodeBit, HeMask, Or, Spells;
    data' := if bit == 1 then Or(data, HeMask(n)) else data;
    forall j | 0 <= j < 32
      ensures CodeBit(data', j) == if j == n then bit else CodeBit(data, j)
    {
      BitAdded(data, n, j);
    }
    SpellsPair(gaps, data, data', n, first, second);
  }

  lemma BitAdded(data: nat, n: nat, j: nat)
    requires n < 32 && j < 32
    ensures CodeBit(Or(data, HeMask(n)), j) == if j == n then 1 else CodeBit(data, j)
  {
    hide TestBit, HeMask, Or, Pow2;
    MaskIs(n);
    OrBitAt(data, HeMask(n), 31 - j);
    PowerBitAt(31 - n, 31 - j);
  }

  lemma SpellsPair(gaps: seq<Word32>, data: nat, data': nat, n: nat, first: Word32, second: Word32)
    requires n < 32 && Spells(gaps, data, n) && BitPair(CodeBit(data', n), first, second)
    requires forall j :: 0 <= j < n ==> CodeBit(data', j) == CodeBit(data, j)
    ensures Spells(gaps + [first, second], data', n + 1)
  {
    hide CodeBit, BitPair;
    var all := gaps + [first, second];
    forall j | 0 <= j < n + 1
      ensures BitPair(CodeBit(data', j), all[2 * j + 1], all[2 * j + 2])
    {
      if j < n {
        assert all[2 * j + 1] == gaps[2 * j + 1] && all[2 * j + 2] == gaps[2 * j + 2];
      }
    }
  }

  lemma MaskIs(n: nat)
    requires n < 32
    ensures HeMask(n) == Pow2(31 - n)
  {
    hide Pow2;
    ShiftedOne(31, n);
  }

  /** Every step keeps it explained, and a code that is complete is spelled by
      the last sixty-five gaps. */
  lemma StepExplained(h: He, gaps: seq<Word32>, gap: Word32)
    requires Explained(h, gaps)
    ensures Explained(HeStep(h, gap), gaps + [gap])
    ensures HeCompletes(h, gap) && h.state != Reset ==>
      |gaps| >= 64 && Spells(Last(gaps + [gap], 65), HeStep(h, gap).code, 32)
  {
    GapsAre(gap);
    hide GapOf, Or, HeMask, Spells, NoLaterBits, Last, ShortGap, LongGap;
    if FrameStart(gap) {
      LastGap(gaps, gap);
      NothingSpelled(gap);
    } else if h.state == ReadyForBit {
      var n := 2 * h.bitCount + 1;
      LastExtends(gaps, gap, n);
      assert Last(gaps + [gap], n + 1)[..n] == Last(gaps, n)[..n];
    } else if (h.state == ReceivedShort && LongGap(gap)) || (h.state == ReceivedLong && ShortGap(gap)) {
      var n := 2 * h.bitCount + 2;
      var seen := Last(gaps, n);
      var front, first := seen[..n - 1], seen[n - 1];
      PairIs(h.state, first, gap);
      var data := SpellsMore(front, h.bitData, h.bitCount, if h.state == ReceivedLong then 1 else 0, first, gap);
      LastExtends(gaps, gap, n);
      assert Last(gaps + [gap], n + 1) == front + [first, gap];
      assert Last(gaps + [gap], n + 1)[..n + 1] == front + [first, gap];
    }
  }

  lemma PairIs(state: HeState, first: Word32, second: Word32)
    requires (state == ReceivedShort && ShortGap(first) && LongGap(second))
             || (state == ReceivedLong && LongGap(first) && ShortGap(second))
    ensures BitPair(if state == ReceivedLong then 1 else 0, first, second)
  {
  }

  lemma LastGap(gaps: seq<Word32>, gap: Word32)
    ensures Last(gaps + [gap], 1) == [gap] && Last(gaps + [gap], 1)[..1] == [gap]
  {
  }

  lemma LastExtends(gaps: seq<Word32>, gap: Word32, n: nat)
    requires n <= |gaps|
    ensures Last(gaps + [gap], n + 1) == Last(gaps, n) + [gap]
  {
  }

  lemma NothingSpelled(gap: Word32)
    requires FrameStart(gap)
    ensures Spells([gap], 0, 0) && NoLaterBits(0, 0)
  {
    hide TestBit;
    forall j | 0 <= j < 32
      ensures CodeBit(0, j) == 0
    {
      ZeroBitAt(31 - j);
    }
  }

  // ----- whole runs -----

  /** The gaps between one time stamp and the next. */
  function Gaps(first: Word32, times: seq<Word32>): (gaps: seq<Word32>)
    ensures |gaps| == |times|
  {
    seq(|times|, k requires 0 <= k < |times| => Sub32(times[k], if k == 0 then first else times[k - 1]))
  }

  lemma NothingSeen(h: He)
    requires h.state == Reset
    ensures Explained(h, [])
  {
  }

  lemma OneStep(st: State, t: Word32)
    requires Valid(st)
    ensures var next := Step(st, t);
      |st.nc.buffer| == NC_DATA_SIZE && Run(st, [t]) == next && next.oldTime == t
      && next.he == HeStep(st.he, Sub32(t, st.oldTime))
  {
    StepValid(st, t);
    assert [t][1..] == [];
    hide Valid, HeStep, NcStep;
  }

  lemma StepGaps(first: Word32, times: seq<Word32>, t: Word32)
    ensures Gaps(first, times + [t])
         == Gaps(first, times) + [Sub32(t, if times == [] then first else times[|times| - 1])]
  {
    hide Sub32;
  }

  lemma {:induction false} RunExplained(st: State, times: seq<Word32>)
    requires Valid(st) && st.he.state == Reset
    ensures Valid(Run(st, times)) && Explained(Run(st, times).he, Gaps(st.oldTime, times))
    ensures Run(st, times).oldTime == if times == [] then st.oldTime else times[|times| - 1]
    decreases |times|
  {
    hide Explained, Valid, Step;
    if times == [] {
      assert Gaps(st.oldTime, times) == [];
      NothingSeen(st.he);
    } else {
      var n := |times| - 1;
      var front, t := times[..n], times[n];
      RunExplained(st, front);
      RunValid(st, times);
      assert times == front + [t];
      RunConcat(st, front, [t]);
      OneStep(Run(st, front), t);
      hide Run;
      StepGaps(st.oldTime, front, t);
      StepExplained(Run(st, front).he, Gaps(st.oldTime, front), Sub32(t, Run(st, front).oldTime));
    }
  }

  /** Whatever the edges, noise or not: an edge that publishes a Home Easy code is
      the last of a frame whose gaps spell that code. */
  lemma OnlyFramesArePublished(st: State, times: seq<Word32>, now: Word32)
    requires Valid(st) && st.he.state == Reset && Valid(Run(st, times))
    requires |Run(st, times).nc.buffer| == NC_DATA_SIZE
    requires HeCompletes(Run(st, times).he, Sub32(now, Run(st, times).oldTime))
    ensures |times| >= 64
    ensures Spells(Last(Gaps(st.oldTime, times + [now]), 65), Step(Run(st, times), now).he.code, 32)
  {
    hide Run, Step, Explained, Gaps, HeStep, Spells, Valid;
    RunExplained(st, times);
    var end := Run(st, times);
    var gap := Sub32(now, end.oldTime);
    StepGaps(st.oldTime, times, now);
    OneStep(end, now);
    StepExplained(end.he, Gaps(st.oldTime, times), gap);
    hide GapOf;
  }
}
