/** The transmitter of tx433_driver.py: a list of pulses, and the level of the
    pin when they are played. */
module Tx433 {
  import opened Bits
  import opened Packing
  import opened Rx433

  /** Set the pin, clear the pin or leave it, then wait. */
  datatype Pulse = Pulse(on: bool, off: bool, delay: nat)

  function LevelAfter(p: Pulse, level: bool): bool
  {
    if p.on then true else if p.off then false else level
  }

  /** The level of the pin at time t, when the first pulse is played at time 0. */
  function LevelAt(ps: seq<Pulse>, level: bool, t: int): bool
    decreases |ps|
  {
    if ps == [] || t < 0 then level else LevelAt(ps[1..], LevelAfter(ps[0], level), t - ps[0].delay)
  }

  function Duration(ps: seq<Pulse>): nat
  {
    if ps == [] then 0 else ps[0].delay + Duration(ps[1..])
  }

  function FinalLevel(ps: seq<Pulse>, level: bool): bool
  {
    if ps == [] then level else FinalLevel(ps[1..], LevelAfter(ps[0], level))
  }

  lemma {:induction false} LevelConcat(a: seq<Pulse>, b: seq<Pulse>, level: bool, t: int)
    ensures LevelAt(a + b, level, t)
         == if t < Duration(a) then LevelAt(a, level, t) else LevelAt(b, FinalLevel(a, level), t - Duration(a))
    ensures Duration(a + b) == Duration(a) + Duration(b)
    ensures FinalLevel(a + b, level) == FinalLevel(b, FinalLevel(a, level))
    decreases |a|
  {
    if a == [] {
      assert a + b == b;
    } else {
      assert (a + b)[1..] == a[1..] + b;
      LevelConcat(a[1..], b, LevelAfter(a[0], level), t - a[0].delay);
    }
  }

  // ----- when the pin is high -----

  /** From the rising edge to the falling one. */
  datatype High = High(rise: int, fall: int)

  predicate During(h: High, t: int)
  {
    h.rise <= t < h.fall
  }

  ghost predicate Within(highs: seq<High>, t: int)
  {
    exists k :: 0 <= k < |highs| && During(highs[k], t)
  }

  lemma WithinConcat(a: seq<High>, b: seq<High>, t: int)
    ensures Within(a + b, t) <==> Within(a, t) || Within(b, t)
  {
    if Within(a, t) {
      var k :| 0 <= k < |a| && During(a[k], t);
      assert During((a + b)[k], t);
    }
    if Within(b, t) {
      var k :| 0 <= k < |b| && During(b[k], t);
      assert During((a + b)[|a| + k], t);
    }
  }

  lemma WithinOne(h: High, t: int)
    ensures Within([h], t) <==> During(h, t)
    ensures !Within([], t)
  {
    assert [h][0] == h;
  }

  /** The pin is high in these intervals and at no other time. */
  ghost predicate HighExactly(ps: seq<Pulse>, highs: seq<High>)
  {
    forall t :: LevelAt(ps, false, t) <==> Within(highs, t)
  }

  /** None is empty, and each ends before the next begins. */
  predicate Apart(highs: seq<High>)
  {
    && (forall k :: 0 <= k < |highs| ==> highs[k].rise < highs[k].fall)
    && (forall j, k :: 0 <= j < k < |highs| ==> highs[j].fall < highs[k].rise)
  }

  /** The receiver sees an edge at these times, in this order, and no other. */
  ghost predicate RisesAt(ps: seq<Pulse>, edges: seq<int>)
  {
    && (forall j, k :: 0 <= j < k < |edges| ==> edges[j] < edges[k])
    && (forall t :: t in edges <==> LevelAt(ps, false, t) && !LevelAt(ps, false, t - 1))
  }

  function RisesOf(highs: seq<High>): (edges: seq<int>)
    ensures |edges| == |highs|
    ensures forall k :: 0 <= k < |highs| ==> edges[k] == highs[k].rise
  {
    seq(|highs|, k requires 0 <= k < |highs| => highs[k].rise)
  }

  lemma RisesAreSeen(ps: seq<Pulse>, highs: seq<High>)
    requires HighExactly(ps, highs) && Apart(highs)
    ensures RisesAt(ps, RisesOf(highs))
  {
    var edges := RisesOf(highs);
    forall t
      ensures t in edges <==> LevelAt(ps, false, t) && !LevelAt(ps, false, t - 1)
    {
      if t in edges {
        var k :| 0 <= k < |highs| && edges[k] == t;
        assert During(highs[k], t);
        assert forall j :: 0 <= j < |highs| ==> !During(highs[j], t - 1);
      } else if Within(highs, t) {
        var k :| 0 <= k < |highs| && During(highs[k], t);
        assert edges[k] == highs[k].rise != t;
        assert During(highs[k], t - 1);
      }
    }
  }

  /** Intervals of one length. */
  function Wide(edges: seq<int>, width: nat): (highs: seq<High>)
    ensures |highs| == |edges|
    ensures forall k :: 0 <= k < |edges| ==> highs[k] == High(edges[k], edges[k] + width)
  {
    seq(|edges|, k requires 0 <= k < |edges| => High(edges[k], edges[k] + width))
  }

  lemma WideConcat(a: seq<int>, b: seq<int>, width: nat)
    ensures Wide(a + b, width) == Wide(a, width) + Wide(b, width)
    ensures RisesOf(Wide(a, width)) == a
  {
  }

  // ----- the frames, as edge times -----

  /** Where data bit j of a symbol starts, from the start of the symbol. */
  function DataTime(j: nat): nat
  {
    NC_PULSE * 5 + NC_PULSE * 2 * j
  }

  /** The edges for the data bits from bit j on. */
  function DataEdges(symbol: nat, base: int, j: nat): seq<int>
    decreases SYMBOL_SIZE - j
  {
    if j >= SYMBOL_SIZE then []
    else if BitOf(symbol, SYMBOL_SIZE, j) == 1 then [base + DataTime(j)] + DataEdges(symbol, base, j + 1)
    else DataEdges(symbol, base, j + 1)
  }

  /** Symbols from the i-th on, then the closing pulse. */
  function Frame(message: seq<Byte>, i: nat): seq<int>
    requires i <= |message|
    decreases |message| - i
  {
    var base := NC_SYMBOL_TIME * i;
    if i == |message| then [base]
    else [base, base + NC_PULSE * 3] + DataEdges(message[i], base, 0) + Frame(message, i + 1)
  }

  /** The first pulse of a symbol is longer than the others. */
  function SymbolHighs(symbol: nat, base: int): seq<High>
  {
    [High(base, base + NC_PULSE * 2)] + Wide([base + NC_PULSE * 3] + DataEdges(symbol, base, 0), NC_PULSE)
  }

  /** The pulses of the frame from the i-th symbol on. */
  function FrameHighs(message: seq<Byte>, i: nat): seq<High>
    requires i <= |message|
    decreases |message| - i
  {
    var base := NC_SYMBOL_TIME * i;
    if i == |message| then [High(base, base + NC_PULSE)]
    else SymbolHighs(message[i], base) + FrameHighs(message, i + 1)
  }

  lemma {:induction false} FrameRises(message: seq<Byte>, i: nat)
    requires i <= |message|
    ensures RisesOf(FrameHighs(message, i)) == Frame(message, i)
    decreases |message| - i
  {
    hide DataEdges;
    if i < |message| {
      FrameRises(message, i + 1);
      var base := NC_SYMBOL_TIME * i;
      assert RisesOf(SymbolHighs(message[i], base)) == [base, base + NC_PULSE * 3] + DataEdges(message[i], base, 0);
    }
  }

  const HE_PULSE := 220
  const HE_START := 220 + 2700
  const HE_ZERO := 220 + 1330     // the long gap
  const HE_ONE := 220 + 320       // the short gap
  const HE_GAP := 220 + 10270
  const HE_BITS := 32

  /** Both gaps of a bit together. */
  const HE_BIT_TIME := HE_ZERO + HE_ONE
  const HE_FRAME_TIME := HE_START + HE_BITS * HE_BIT_TIME + HE_GAP

  function HeFirstGap(bit: Bit): nat
  {
    if bit == 1 then HE_ZERO else HE_ONE
  }

  /** The edges in front of both gaps of the bits from bit j on. */
  function HeBitEdges(code: nat, base: int, j: nat): seq<int>
    decreases HE_BITS - j
  {
    if j >= HE_BITS then []
    else [base, base + HeFirstGap(BitOf(code, HE_BITS, j))] + HeBitEdges(code, base + HE_BIT_TIME, j + 1)
  }

  /** One frame: start, bits, end code. */
  function HeFrame(code: nat, base: int): seq<int>
  {
    [base] + HeBitEdges(code, base + HE_START, 0) + [base + HE_START + HE_BITS * HE_BIT_TIME]
  }

  function HeFrames(code: nat, base: int, attempts: nat): seq<int>
  {
    if attempts == 0 then []
    else HeFrames(code, base, attempts - 1) + HeFrame(code, base + HE_FRAME_TIME * (attempts - 1))
  }

  // ----- the driver -----

  /** A pulse train that is high in these intervals and ends low. */
  ghost predicate Plays(ps: seq<Pulse>, highs: seq<High>, duration: int)
  {
    && HighExactly(ps, highs) && Apart(highs) && (forall k :: 0 <= k < |highs| ==> highs[k].fall < duration)
    && Duration(ps) == duration && !FinalLevel(ps, false)
  }

  /** Every pulse of a Home Easy code has the same length. */
  ghost predicate PlaysHe(ps: seq<Pulse>, edges: seq<int>, duration: int)
  {
    Plays(ps, Wide(edges, HE_PULSE), duration)
  }

  /** Pulses of a new code after these. */
  ghost predicate Follows(highs: seq<High>, first: seq<High>, edges: seq<int>)
  {
    highs == first + Wide(edges, NC_PULSE)
  }

  lemma FollowsStep(highs: seq<High>, first: seq<High>, edges: seq<int>, now: int)
    requires Follows(highs, first, edges)
    ensures Follows(highs + [High(now, now + NC_PULSE)], first, edges + [now])
  {
  }

  lemma LevelOfPulse(high: nat, low: nat, t: int)
    ensures var two := [Pulse(true, false, high), Pulse(false, true, low)];
      && (LevelAt(two, false, t) <==> 0 <= t < high)
      && Duration(two) == high + low && !FinalLevel(two, false)
  {
    var p, q := Pulse(true, false, high), Pulse(false, true, low);
    assert [p, q][1..] == [q] && [q][1..] == [];
    assert LevelAt([q], true, t - high) == if t - high < 0 then true else LevelAt([], false, t - high - low);
    assert Duration([q]) == low && !FinalLevel([q], true);
  }

  lemma PlaysHigh(ps: seq<Pulse>, highs: seq<High>, d: int, high: nat, low: nat)
    requires Plays(ps, highs, d) && high > 0 && low > 0
    ensures Plays(ps + [Pulse(true, false, high)] + [Pulse(false, true, low)], highs + [High(d, d + high)],
                  d + high + low)
  {
    var two, h := [Pulse(true, false, high), Pulse(false, true, low)], High(d, d + high);
    assert ps + [Pulse(true, false, high)] + [Pulse(false, true, low)] == ps + two;
    hide LevelAt, Duration, FinalLevel;
    forall t
      ensures LevelAt(ps + two, false, t) <==> Within(highs + [h], t)
    {
      LevelConcat(ps, two, false, t);
      LevelOfPulse(high, low, t - d);
      WithinConcat(highs, [h], t);
      WithinOne(h, t);
    }
    LevelConcat(ps, two, false, 0);
    LevelOfPulse(high, low, 0);
  }

  lemma PlaysAwait(ps: seq<Pulse>, highs: seq<High>, d: int, low: nat)
    requires Plays(ps, highs, d)
    ensures Plays(ps + [Pulse(false, false, low)], highs, d + low)
  {
    var one := [Pulse(false, false, low)];
    assert one[1..] == [];
    forall t
      ensures LevelAt(ps + one, false, t) == LevelAt(ps, false, t)
    {
      LevelConcat(ps, one, false, t);
      assert t >= d ==> !LevelAt(ps, false, t);
    }
    LevelConcat(ps, one, false, 0);
  }

  class Driver {
    var pulses: seq<Pulse>

    constructor ()
      ensures pulses == []
    {
      pulses := [];
    }

    method SendHighVar(high: nat, low: nat, ghost highs: seq<High>, ghost d: int)
      requires Plays(pulses, highs, d) && high > 0 && low > 0
      modifies this
      ensures Plays(pulses, highs + [High(d, d + high)], d + high + low)
    {
      PlaysHigh(pulses, highs, d, high, low);
      pulses := pulses + [Pulse(true, false, high)];
      pulses := pulses + [Pulse(false, true, low)];
    }

    method Await(low: nat, ghost highs: seq<High>, ghost d: int)
      requires Plays(pulses, highs, d)
      modifies this
      ensures Plays(pulses, highs, d + low)
    {
      PlaysAwait(pulses, highs, d, low);
      pulses := pulses + [Pulse(false, false, low)];
    }

    method SendHigh(low: nat, ghost edges: seq<int>, ghost d: int)
      requires PlaysHe(pulses, edges, d) && low > 0
      modifies this
      ensures PlaysHe(pulses, edges + [d], d + 220 + low)
    {
      WideConcat(edges, [d], HE_PULSE);
      assert Wide([d], HE_PULSE) == [High(d, d + 220)];
      SendHighVar(220, low, Wide(edges, HE_PULSE), d);
    }

    method SendSymbol(symbol: Byte, ghost highs: seq<High>, ghost base: int)
      requires Plays(pulses, highs, base)
      modifies this
      ensures Plays(pulses, highs + SymbolHighs(symbol, base), base + NC_SYMBOL_TIME)
    {
      hide Plays, SymbolHighs;
      ghost var first := highs + [High(base, base + NC_PULSE * 2)];
      ghost var all := first + [High(base + NC_PULSE * 3, base + NC_PULSE * 4)];
      assert Follows(all, first, [base + NC_PULSE * 3]);
      hide Follows;
      SendHighVar(NC_PULSE * 2, NC_PULSE, highs, base);
      SendHighVar(NC_PULSE, NC_PULSE, first, base + NC_PULSE * 3);
      all := SendData(symbol, first, all, base);
      SymbolDone(all, highs, symbol, base);
    }

    /** The loop over the bits of a symbol. */
    method SendData(symbol: Byte, ghost first: seq<High>, ghost before: seq<High>, ghost base: int)
      returns (ghost all: seq<High>)
      requires Plays(pulses, before, base + NC_PULSE * 5) && Follows(before, first, [base + NC_PULSE * 3])
      modifies this
      ensures Plays(pulses, all, base + NC_SYMBOL_TIME)
      ensures Follows(all, first, [base + NC_PULSE * 3] + DataEdges(symbol, base, 0))
    {
      hide Plays, Follows, DataEdges, BitOf, Pow2;
      all := before;
      ghost var played: seq<int> := [base + NC_PULSE * 3];
      ghost var target := played + DataEdges(symbol, base, 0);
      var s: nat := symbol;
      var j := 0;
      DataTimes(0);
      NotShifted(symbol);
      hide Shifted, TestBit, DataTime;
      while j < SYMBOL_SIZE
        invariant 0 <= j <= SYMBOL_SIZE
        invariant s == Shifted(symbol, j)
        invariant played + DataEdges(symbol, base, j) == target
        invariant Follows(all, first, played) && Plays(pulses, all, base + DataTime(j))
      {
        ghost var now := base + DataTime(j);
        ShiftedBit(symbol, j);
        DataTimes(j);
        DataStep(symbol, base, j, played);
        if TestBit(s, SYMBOL_SIZE - 1) == 1 {
          SendHighVar(NC_PULSE, NC_PULSE, all, now);
          FollowsStep(all, first, played, now);
          all, played := all + [High(now, now + NC_PULSE)], played + [now];
        } else {
          Await(NC_PULSE * 2, all, now);
        }
        s := 2 * s;
        j := j + 1;
      }
      NoMoreData(symbol, base, played);
    }

    /** Play a new code; what was queued is handed over and forgotten. */
    method WriteNc(message: seq<Byte>) returns (wave: seq<Pulse>)
      requires |message| >= NC_DATA_SIZE
      modifies this
      ensures HighExactly(wave, FrameHighs(message[..NC_DATA_SIZE], 0))
      ensures Apart(FrameHighs(message[..NC_DATA_SIZE], 0))
      ensures RisesAt(wave, Frame(message[..NC_DATA_SIZE], 0))
      ensures pulses == []
    {
      hide Plays, SymbolHighs;
      pulses := [];
      ghost var m := message[..NC_DATA_SIZE];
      ghost var sent: seq<High> := [];
      NothingPlayed();
      var i := 0;
      while i < NC_DATA_SIZE
        invariant 0 <= i <= NC_DATA_SIZE
        invariant sent + FrameHighs(m, i) == FrameHighs(m, 0)
        invariant Plays(pulses, sent, NC_SYMBOL_TIME * i)
      {
        ghost var base := NC_SYMBOL_TIME * i;
        SendSymbol(message[i], sent, base);
        assert FrameHighs(m, i) == SymbolHighs(m[i], base) + FrameHighs(m, i + 1);
        sent := sent + SymbolHighs(message[i], base);
        i := i + 1;
      }
      SendHighVar(NC_PULSE, NC_PULSE, sent, NC_SYMBOL_TIME * i);
      PlaysMeans(pulses, FrameHighs(m, 0), NC_SYMBOL_TIME * i + NC_PULSE + NC_PULSE);
      FrameRises(m, 0);
      wave := pulses;
      pulses := [];
    }

    method SendZero(ghost edges: seq<int>, ghost d: int)
      requires PlaysHe(pulses, edges, d)
      modifies this
      ensures PlaysHe(pulses, edges + [d], d + HE_ZERO)
    {
      SendHigh(1330, edges, d);
    }

    method SendOne(ghost edges: seq<int>, ghost d: int)
      requires PlaysHe(pulses, edges, d)
      modifies this
      ensures PlaysHe(pulses, edges + [d], d + HE_ONE)
    {
      SendHigh(320, edges, d);
    }

    method SendHeBit(bit: Bit, ghost edges: seq<int>, ghost d: int)
      requires PlaysHe(pulses, edges, d)
      modifies this
      ensures PlaysHe(pulses, edges + [d, d + HeFirstGap(bit)], d + HE_BIT_TIME)
    {
      hide PlaysHe;
      assert edges + [d] + [d + HeFirstGap(bit)] == edges + [d, d + HeFirstGap(bit)];
      if bit == 1 {
        SendZero(edges, d);
        SendOne(edges + [d], d + HE_ZERO);
      } else {
        SendOne(edges, d);
        SendZero(edges + [d], d + HE_ONE);
      }
    }

    method SendHeBits(code: nat, ghost edges: seq<int>, ghost base: int)
      requires PlaysHe(pulses, edges, base)
      modifies this
      ensures PlaysHe(pulses, edges + HeBitEdges(code, base, 0), base + HE_BITS * HE_BIT_TIME)
    {
      hide PlaysHe, HeBitEdges, BitOf, Pow2, HeFirstGap, BitsTime, TestBit;
      ghost var played, d := edges, base;
      ghost var target := played + HeBitEdges(code, base, 0);
      BitsTimes(0);
      var j := HE_BITS;
      while j > 0
        invariant 0 <= j <= HE_BITS && d == base + BitsTime(HE_BITS - j)
        invariant played + HeBitEdges(code, d, HE_BITS - j) == target
        invariant PlaysHe(pulses, played, d)
      {
        BitsTimes(HE_BITS - j);
        j := j - 1;
        var bit := TestBit(code, j);
        HeBitStep(code, d, j, bit, played);
        SendHeBit(bit, played, d);
        played := played + [d, d + HeFirstGap(bit)];
        d := d + HE_BIT_TIME;
      }
      NoMoreBits(code, d, played);
    }

    method SendHeFrame(code: nat, ghost edges: seq<int>, ghost base: int)
      requires PlaysHe(pulses, edges, base)
      modifies this
      ensures PlaysHe(pulses, edges + HeFrame(code, base), base + HE_FRAME_TIME)
    {
      hide PlaysHe, HeBitEdges;
      ghost var d := base + HE_START;
      SendHigh(2700, edges, base);
      SendHeBits(code, edges + [base], d);
      SendHigh(10270, edges + [base] + HeBitEdges(code, d, 0), d + HE_BITS * HE_BIT_TIME);
      HeFrameParts(code, base, edges);
    }

    method WriteHe(code: nat, attempts: nat) returns (wave: seq<Pulse>)
      modifies this
      ensures HighExactly(wave, Wide(HeFrames(code, 0, attempts), HE_PULSE))
      ensures Apart(Wide(HeFrames(code, 0, attempts), HE_PULSE))
      ensures RisesAt(wave, HeFrames(code, 0, attempts))
      ensures pulses == []
    {
      hide Plays, HeFrame;
      pulses := [];
      NothingPlayed();
      var i := 0;
      assert Wide(HeFrames(code, 0, i), HE_PULSE) == [];
      while i < attempts
        invariant 0 <= i <= attempts
        invariant PlaysHe(pulses, HeFrames(code, 0, i), HE_FRAME_TIME * i)
      {
        SendHeFrame(code, HeFrames(code, 0, i), HE_FRAME_TIME * i);
        i := i + 1;
      }
      PlaysMeans(pulses, Wide(HeFrames(code, 0, attempts), HE_PULSE), HE_FRAME_TIME * i);
      WideConcat(HeFrames(code, 0, attempts), [], HE_PULSE);
      wave := pulses;
      pulses := [];
    }
  }

  lemma SymbolDone(all: seq<High>, highs: seq<High>, symbol: nat, base: int)
    requires Follows(all, highs + [High(base, base + NC_PULSE * 2)],
                     [base + NC_PULSE * 3] + DataEdges(symbol, base, 0))
    ensures all == highs + SymbolHighs(symbol, base)
  {
    hide DataEdges;
  }

  function BitsTime(n: nat): nat
  {
    HE_BIT_TIME * n
  }

  lemma BitsTimes(n: nat)
    ensures BitsTime(0) == 0 && BitsTime(n + 1) == BitsTime(n) + HE_BIT_TIME
    ensures BitsTime(HE_BITS) == HE_BITS * HE_BIT_TIME
  {
  }

  lemma DataTimes(j: nat)
    ensures DataTime(0) == NC_PULSE * 5 && DataTime(j + 1) == DataTime(j) + NC_PULSE * 2
    ensures DataTime(SYMBOL_SIZE) == NC_SYMBOL_TIME
  {
  }

  lemma DataStep(symbol: nat, base: int, j: nat, played: seq<int>)
    requires j < SYMBOL_SIZE
    ensures played + DataEdges(symbol, base, j)
         == (if BitOf(symbol, SYMBOL_SIZE, j) == 1 then played + [base + DataTime(j)] else played)
            + DataEdges(symbol, base, j + 1)
  {
    var now, rest := base + DataTime(j), DataEdges(symbol, base, j + 1);
    hide BitOf;
    assert played + ([now] + rest) == (played + [now]) + rest;
  }

  lemma NoMoreData(symbol: nat, base: int, played: seq<int>)
    ensures played + DataEdges(symbol, base, SYMBOL_SIZE) == played
  {
  }

  lemma HeBitStep(code: nat, d: int, j: nat, bit: Bit, played: seq<int>)
    requires j < HE_BITS && bit == TestBit(code, j)
    ensures played + HeBitEdges(code, d, HE_BITS - 1 - j)
         == (played + [d, d + HeFirstGap(bit)]) + HeBitEdges(code, d + HE_BIT_TIME, HE_BITS - j)
  {
    assert bit == BitOf(code, HE_BITS, HE_BITS - 1 - j);
    hide BitOf;
  }

  lemma NoMoreBits(code: nat, d: int, played: seq<int>)
    ensures played + HeBitEdges(code, d, HE_BITS) == played
  {
  }

  lemma HeFrameParts(code: nat, base: int, edges: seq<int>)
    ensures (edges + [base] + HeBitEdges(code, base + HE_START, 0)) + [base + HE_START + HE_BITS * HE_BIT_TIME]
         == edges + HeFrame(code, base)
  {
    var bits, last := HeBitEdges(code, base + HE_START, 0), base + HE_START + HE_BITS * HE_BIT_TIME;
    assert HeFrame(code, base) == [base] + bits + [last];
    hide HeBitEdges, HeFrame;
    assert (edges + [base] + bits) + [last] == edges + ([base] + bits + [last]);
  }

  lemma NothingPlayed()
    ensures Plays([], [], 0)
  {
    assert forall t :: !LevelAt([], false, t) && !Within([], t);
  }

  lemma PlaysMeans(ps: seq<Pulse>, highs: seq<High>, d: int)
    requires Plays(ps, highs, d)
    ensures HighExactly(ps, highs) && Apart(highs) && RisesAt(ps, RisesOf(highs))
  {
    RisesAreSeen(ps, highs);
  }

  function Shifted(symbol: nat, j: nat): nat
  {
    symbol * Pow2(j)
  }

  lemma NotShifted(symbol: nat)
    ensures Shifted(symbol, 0) == symbol
  {
    assert Pow2(0) == 1;
  }

  /** Testing the top bit after j shifts tests bit j. */
  lemma ShiftedBit(symbol: nat, j: nat)
    requires j < SYMBOL_SIZE
    ensures TestBit(Shifted(symbol, j), SYMBOL_SIZE - 1) == BitOf(symbol, SYMBOL_SIZE, j)
    ensures 2 * Shifted(symbol, j) == Shifted(symbol, j + 1)
  {
    PowersOfTwo(4 - j, j);
    CancelFactor(symbol, Pow2(4 - j), Pow2(j));
    assert Pow2(j + 1) == 2 * Pow2(j);
    hide Pow2;
    MulAssociative(symbol, 2, Pow2(j));
  }
}
