/** A frame sent by the driver, with every edge displaced a little, is what the
    decoder publishes. */
module RadioLink {
  import opened Bits
  import opened Packing
  import opened GF32
  import opened Rx433
  import opened RadioEvents
  import opened Tx433

  const SLACK := 47    // microseconds an edge of a new code may be displaced

  /** Edge k of the frame that starts at time T happened within eps of its time. */
  ghost predicate Near(ts: seq<int>, es: seq<int>, T: int, eps: int)
  {
    |ts| == |es| && forall k :: 0 <= k < |ts| ==> -eps <= ts[k] - (T + es[k]) <= eps
  }

  /** micros() at the given times. */
  function Stamps(ts: seq<int>): (r: seq<Word32>)
    ensures |r| == |ts|
    ensures forall k :: 0 <= k < |ts| ==> r[k] == ts[k] % WRAP
  {
    seq(|ts|, k requires 0 <= k < |ts| => ts[k] % WRAP)
  }

  /** The clock wraps, but gaps shorter than its range come out right. */
  lemma GapOfTimes(a: int, b: int)
    requires 0 <= b - a < WRAP
    ensures Sub32(b % WRAP, a % WRAP) == b - a
  {
    var q := a / WRAP - b / WRAP;
    assert b % WRAP - a % WRAP == (b - a) + q * WRAP;
    ModMultiple(b - a, q);
  }

  /** Nothing is near NC_PULSE * 3 microseconds except a start code. */
  lemma CloseToStart(delta: Word32)
    ensures IsClose(delta, NC_PULSE * 3, 96) <==> 672 <= delta < 864
  {
  }

  // ----- the Home Easy decoder during a new code -----

  /** Where the Home Easy decoder can be after the edge m half bit times into a
      symbol: never near the end of a code. */
  predicate HeAt(h: He, m: nat)
  {
    h.state == Reset ||
    match m
    case 0 => (h.state == ReceivedShort && h.bitCount == 0) || (h.state == ReadyForBit && h.bitCount <= 2)
    case 1 => h.state == ReceivedShort && h.bitCount <= 2
    case 3 => (h.state == ReadyForBit && h.bitCount == 1) || (h.state == ReceivedLong && h.bitCount <= 2)
    case 4 => (h.state == ReadyForBit && h.bitCount <= 3) || (h.state == ReceivedShort && h.bitCount == 1)
    case 5 => h.state == ReceivedShort && h.bitCount <= 3
    case 6 => (h.state == ReadyForBit && h.bitCount == 0) || (h.state == ReceivedLong && h.bitCount == 1)
    case _ => false
  }

  lemma HeInSymbol(h: He, m: nat, n: nat, delta: Word32)
    requires HeAt(h, m) && m < n <= 6 && -2 * SLACK <= delta - NC_PULSE * 2 * (n - m) <= 2 * SLACK
    ensures HeAt(HeStep(h, delta), n) && !HeCompletes(h, delta)
  {
    GapsInSymbol(n - m, delta);
    hide GapOf, Or, Pow2;
  }

  lemma GapsInSymbol(k: nat, delta: Word32)
    requires 1 <= k <= 6 && -2 * SLACK <= delta - NC_PULSE * 2 * k <= 2 * SLACK
    ensures GapOf(delta) == if k == 1 then Short else if k == 3 then Long
                            else if k == 6 && delta < 3072 then Start else Other
  {
  }

  lemma HeAtSymbolStart(h: He, delta: Word32)
    requires HeAt(h, 6) && 674 <= delta <= 862
    ensures HeAt(HeStep(h, delta), 0) && !HeCompletes(h, delta)
  {
    assert GapOf(delta) == Short || GapOf(delta) == Other;
    hide GapOf, Or, Pow2;
  }

  // ----- the new code decoder during a new code -----

  /** The buffer holds the symbols before the i-th, and j bits of that one. */
  ghost predicate Holds(buffer: seq<nat>, msg: seq<Sym>, i: nat, j: nat)
  {
    && |buffer| == |msg| == NC_DATA_SIZE && i <= NC_DATA_SIZE && j <= 5
    && (forall q :: 0 <= q < i && q < NC_DATA_SIZE ==> buffer[q] == msg[q])
    && (i < NC_DATA_SIZE ==> buffer[i] == Field(BitsOf(msg[i], 5), 0, 5, j))
    && (forall q :: i < q < NC_DATA_SIZE ==> buffer[q] == 0)
  }

  /** In symbol i, past j data bits; the last edge was m half bits after the
      start edge at time t0, at time tl. */
  ghost predicate InSymbol(st: State, msg: seq<Sym>, T: int, i: nat, j: nat, m: nat, t0: int, tl: int)
  {
    && Valid(st) && i < NC_DATA_SIZE && m <= j <= 5
    && st.nc.count == i && st.nc.timebase == t0 % WRAP && st.oldTime == tl % WRAP
    && -SLACK <= t0 - (T + NC_SYMBOL_TIME * i + NC_PULSE * 3) <= SLACK
    && -SLACK <= tl - (T + NC_SYMBOL_TIME * i + NC_PULSE * 3 + NC_PULSE * 2 * m) <= SLACK
    && (m == 0 ==> tl == t0) && Holds(st.nc.buffer, msg, i, j)
    && HeAt(st.he, m)
  }

  /** At the first edge of symbol i, at time tl; tb was the start of the one
      before, if the decoder was not idle. */
  ghost predicate AtBoundary(st: State, msg: seq<Sym>, T: int, i: nat, tb: int, tl: int)
  {
    && Valid(st) && i < NC_DATA_SIZE && |msg| == NC_DATA_SIZE
    && st.oldTime == tl % WRAP && -SLACK <= tl - (T + NC_SYMBOL_TIME * i) <= SLACK
    && HeAt(st.he, 6)
    && (if i == 0 && st.nc.count == IDLE then true
        else st.nc.count == i && st.nc.timebase == tb % WRAP
             && -SLACK <= tb - (T + NC_SYMBOL_TIME * (i - 1) + NC_PULSE * 3) <= SLACK && Holds(st.nc.buffer, msg, i, 0))
  }

  lemma FieldStarts(s: Sym)
    ensures Field(BitsOf(s, 5), 0, 5, 0) == 0
  {
  }

  lemma FieldComplete(s: Sym)
    ensures Field(BitsOf(s, 5), 0, 5, 5) == s
  {
    assert Pow2(5) == 32;
    ValueOfBits(s, 5);
    var bits := BitsOf(s, 5);
    assert bits[0..5] == bits;
    assert ShiftLeft(ValueOf(bits), 0) == ValueOf(bits);
  }

  /** What a start code that comes in time does to the new code decoder. */
  lemma StartStep(c: Nc, now: Word32, delta: Word32)
    requires |c.buffer| == NC_DATA_SIZE && 672 <= delta < 864
    requires c.count == IDLE || (c.count < NC_DATA_SIZE && 3744 <= Sub32(now, c.timebase) < 3936)
    ensures !NcPublishes(c, now, delta)
    ensures NcStep(c, now, delta)
         == if c.count == IDLE then c.(count := 0, timebase := now, buffer := ZeroBuffer()) else c.(timebase := now)
  {
    CloseToStart(delta);
    CloseInterval(Sub32(now, c.timebase), NC_SYMBOL_TIME, EPSILON);
    assert Skip(c, now, 0) == (c, 0);
    hide Sub32, IsClose, Skip;
  }

  lemma StartGaps(st: State, msg: seq<Sym>, T: int, i: nat, tb: int, tl: int, t: int)
    requires AtBoundary(st, msg, T, i, tb, tl)
    requires -SLACK <= t - (T + NC_SYMBOL_TIME * i + NC_PULSE * 3) <= SLACK
    ensures Sub32(t % WRAP, st.oldTime) == t - tl && 674 <= t - tl <= 862
    ensures st.nc.count != IDLE ==>
      st.nc.count == i && Sub32(t % WRAP, st.nc.timebase) == t - tb && 3744 <= t - tb < 3936
  {
    GapOfTimes(tl, t);
    if st.nc.count != IDLE {
      GapOfTimes(tb, t);
    }
  }

  /** The second edge of a symbol: the start code is recognised. */
  lemma StartEdge(st: State, msg: seq<Sym>, T: int, i: nat, tb: int, tl: int, t: int)
    requires AtBoundary(st, msg, T, i, tb, tl)
    requires -SLACK <= t - (T + NC_SYMBOL_TIME * i + NC_PULSE * 3) <= SLACK
    ensures var next := Step(st, t % WRAP);
      InSymbol(next, msg, T, i, 0, 0, t, t) && EventsAt(st, t % WRAP) == []
  {
    var now, delta := t % WRAP, t - tl;
    StartGaps(st, msg, T, i, tb, tl, t);
    assert |st.nc.buffer| == NC_DATA_SIZE;
    FieldStarts(msg[i]);
    hide Step, EventsAt, HeStep, NcStep, HeCompletes, NcPublishes, HeAt, Valid, Sub32, Field, BitOf;
    StepValid(st, now);
    HeAtSymbolStart(st.he, delta);
    StartStep(st.nc, now, delta);
    SilentStep(st, now, delta);
  }

  /** Bits that are zero have no edge. */
  lemma ZeroBit(st: State, msg: seq<Sym>, T: int, i: nat, j: nat, m: nat, t0: int, tl: int)
    requires InSymbol(st, msg, T, i, j, m, t0, tl) && j < 5 && BitOf(msg[i], 5, j) == 0
    ensures InSymbol(st, msg, T, i, j + 1, m, t0, tl)
  {
    FieldStep(BitsOf(msg[i], 5), 0, 5, j);
    ShiftZero(4 - j);
    OrZero(Field(BitsOf(msg[i], 5), 0, 5, j));
    hide Field, Or, ShiftLeft, BitOf, HeAt, Valid;
  }

  lemma OrZero(a: nat)
    ensures Or(a, 0) == a
  {
  }

  /** A pulse near half bit n of a symbol rounds to n. */
  lemma PulseRounds(delta2: Word32, n: nat)
    requires 1 <= n <= 6 && -2 * SLACK <= delta2 - NC_PULSE * 2 * n <= 2 * SLACK
    ensures (delta2 + 256) / 512 == n && IsClose(NC_PULSE * 2 * n, delta2, 96) && delta2 < 3936
  {
    var x := delta2 + 256;
    assert x == n * 512 + (delta2 - NC_PULSE * 2 * n + 256);
    DivModUnique(x, 512, n, delta2 - NC_PULSE * 2 * n + 256);
  }

  /** What a pulse near half bit n does to the new code decoder. */
  lemma PulseStep(c: Nc, now: Word32, delta: Word32, n: nat)
    requires |c.buffer| == NC_DATA_SIZE && c.count < NC_DATA_SIZE
    requires 1 <= n <= 6 && -2 * SLACK <= Sub32(now, c.timebase) - NC_PULSE * 2 * n <= 2 * SLACK
    requires !(672 <= delta < 864)
    ensures n <= 5 ==>
      NcStep(c, now, delta) == c.(buffer := c.buffer[c.count := Or(c.buffer[c.count], Pow2(5) / Pow2(n))])
    ensures n == 6 ==>
      (NcStep(c, now, delta)
       == if c.count + 1 == NC_DATA_SIZE then Publish(c).(count := IDLE) else c.(count := c.count + 1))
    ensures NcPublishes(c, now, delta) <==> n == 6 && c.count + 1 == NC_DATA_SIZE
  {
    CloseToStart(delta);
    PulseRounds(Sub32(now, c.timebase), n);
    hide Sub32, IsClose, Or, Pow2, Skip;
  }

  lemma DataTimeIs(j: nat)
    ensures DataTime(j) == 1280 + NC_PULSE * 2 * j
  {
  }

  lemma HoldsOneMoreBit(buffer: seq<nat>, msg: seq<Sym>, i: nat, j: nat)
    requires Holds(buffer, msg, i, j) && i < NC_DATA_SIZE && j < 5 && BitOf(msg[i], 5, j) == 1
    ensures Holds(buffer[i := Or(buffer[i], Pow2(5) / Pow2(j + 1))], msg, i, j + 1)
  {
    FieldStep(BitsOf(msg[i], 5), 0, 5, j);
    ShiftedOne(5, j + 1);
    hide Field, Or, Pow2, ShiftLeft, BitOf;
  }

  lemma DataGaps(st: State, msg: seq<Sym>, T: int, i: nat, j: nat, m: nat, t0: int, tl: int, t: int)
    requires InSymbol(st, msg, T, i, j, m, t0, tl) && j < 5
    requires -SLACK <= t - (T + NC_SYMBOL_TIME * i + DataTime(j)) <= SLACK
    ensures Sub32(t % WRAP, st.oldTime) == t - tl && Sub32(t % WRAP, st.nc.timebase) == t - t0
    ensures -2 * SLACK <= t - tl - NC_PULSE * 2 * (j + 1 - m) <= 2 * SLACK
    ensures -2 * SLACK <= t - t0 - NC_PULSE * 2 * (j + 1) <= 2 * SLACK
    ensures !(672 <= t - tl < 864)
  {
    DataTimeIs(j);
    GapOfTimes(tl, t);
    GapOfTimes(t0, t);
  }

  /** An edge near data bit j puts it in the buffer. */
  lemma DataEdge(st: State, msg: seq<Sym>, T: int, i: nat, j: nat, m: nat, t0: int, tl: int, t: int)
    requires InSymbol(st, msg, T, i, j, m, t0, tl) && j < 5 && BitOf(msg[i], 5, j) == 1
    requires -SLACK <= t - (T + NC_SYMBOL_TIME * i + DataTime(j)) <= SLACK
    ensures InSymbol(Step(st, t % WRAP), msg, T, i, j + 1, j + 1, t0, t) && EventsAt(st, t % WRAP) == []
  {
    DataGaps(st, msg, T, i, j, m, t0, tl, t);
    DataTimeIs(j);
    assert |st.nc.buffer| == NC_DATA_SIZE;
    hide Step, EventsAt, HeStep, NcStep, HeCompletes, NcPublishes, HeAt, Holds, Or, Pow2, Valid, Sub32, BitOf, DataTime;
    var now, n, delta := t % WRAP, j + 1, t - tl;
    StepValid(st, now);
    HeInSymbol(st.he, m, n, delta);
    PulseStep(st.nc, now, delta, n);
    HoldsOneMoreBit(st.nc.buffer, msg, i, j);
    SilentStep(st, now, delta);
  }

  lemma HoldsSymbol(buffer: seq<nat>, msg: seq<Sym>, i: nat)
    requires Holds(buffer, msg, i, 5) && i < NC_DATA_SIZE
    ensures if i + 1 < NC_DATA_SIZE then Holds(buffer, msg, i + 1, 0) else buffer == msg
  {
    FieldComplete(msg[i]);
    if i + 1 < NC_DATA_SIZE {
      FieldStarts(msg[i + 1]);
    }
    hide Field, BitOf;
  }

  /** All symbols before the k-th are in the buffer, or the message has been
      published if that is all of them; tb was the start of the symbol before. */
  ghost predicate Received(st: State, msg: seq<Sym>, T: int, k: nat, tb: int, tl: int)
  {
    if k < NC_DATA_SIZE then AtBoundary(st, msg, T, k, tb, tl)
    else Valid(st) && st.oldTime == tl % WRAP && st.nc.count == IDLE && st.nc.code == msg && st.nc.ready
  }

  /** What the end of symbol i publishes. */
  function PublishedBy(msg: seq<Sym>, i: nat): seq<Event>
  {
    if i + 1 < NC_DATA_SIZE then [] else [NewCode(msg)]
  }

  lemma StopGaps(st: State, msg: seq<Sym>, T: int, i: nat, m: nat, t0: int, tl: int, t: int)
    requires InSymbol(st, msg, T, i, 5, m, t0, tl)
    requires -SLACK <= t - (T + NC_SYMBOL_TIME * (i + 1)) <= SLACK
    ensures Sub32(t % WRAP, st.oldTime) == t - tl && Sub32(t % WRAP, st.nc.timebase) == t - t0
    ensures -2 * SLACK <= t - tl - NC_PULSE * 2 * (6 - m) <= 2 * SLACK
    ensures -2 * SLACK <= t - t0 - NC_PULSE * 2 * 6 <= 2 * SLACK
    ensures !(672 <= t - tl < 864)
  {
    assert NC_SYMBOL_TIME * (i + 1) == NC_SYMBOL_TIME * i + NC_SYMBOL_TIME;
    GapOfTimes(tl, t);
    GapOfTimes(t0, t);
  }

  /** The first edge after the data ends the symbol, and the message if it was
      the last one. */
  lemma StopEdge(st: State, msg: seq<Sym>, T: int, i: nat, m: nat, t0: int, tl: int, t: int)
    requires InSymbol(st, msg, T, i, 5, m, t0, tl)
    requires -SLACK <= t - (T + NC_SYMBOL_TIME * (i + 1)) <= SLACK
    ensures Received(Step(st, t % WRAP), msg, T, i + 1, t0, t)
    ensures EventsAt(st, t % WRAP) == PublishedBy(msg, i)
  {
    StopGaps(st, msg, T, i, m, t0, tl, t);
    assert |st.nc.buffer| == NC_DATA_SIZE;
    hide Step, EventsAt, HeStep, NcStep, HeCompletes, NcPublishes, HeAt, Holds, Or, Pow2, Valid, Sub32;
    var now, delta := t % WRAP, t - tl;
    StepValid(st, now);
    HeInSymbol(st.he, m, 6, delta);
    PulseStep(st.nc, now, delta, 6);
    HoldsSymbol(st.nc.buffer, msg, i);
    NewCodeStep(st, now, delta);
  }

  // ----- whole symbols and whole frames -----

  lemma StampsFront(ts: seq<int>)
    requires ts != []
    ensures Stamps(ts)[0] == ts[0] % WRAP && Stamps(ts)[1..] == Stamps(ts[1..])
  {
  }

  lemma StampsConcat(a: seq<int>, b: seq<int>)
    ensures Stamps(a + b) == Stamps(a) + Stamps(b)
  {
  }

  lemma NearFront(ts: seq<int>, es: seq<int>, T: int, eps: int)
    requires Near(ts, es, T, eps) && es != []
    ensures |ts| == |es| && -eps <= ts[0] - (T + es[0]) <= eps && Near(ts[1..], es[1..], T, eps)
  {
  }

  lemma NearSplit(ts: seq<int>, a: seq<int>, b: seq<int>, T: int, eps: int)
    requires Near(ts, a + b, T, eps)
    ensures |ts| == |a| + |b| && Near(ts[..|a|], a, T, eps) && Near(ts[|a|..], b, T, eps)
    ensures ts == ts[..|a|] + ts[|a|..]
  {
    forall k | 0 <= k < |b|
      ensures -eps <= ts[|a|..][k] - (T + b[k]) <= eps
    {
      assert (a + b)[|a| + k] == b[k];
    }
    forall k | 0 <= k < |a|
      ensures -eps <= ts[..|a|][k] - (T + a[k]) <= eps
    {
      assert (a + b)[k] == a[k];
    }
  }

  /** These edges take the receiver from one state to another, and this is what
      it publishes on the way. */
  ghost predicate Goes(st: State, ts: seq<int>, end: State, log: seq<Event>)
  {
    Valid(st) && Valid(end) && Run(st, Stamps(ts)) == end && EventLog(st, Stamps(ts)) == log
  }

  lemma GoesOn(st: State, a: seq<int>, mid: State, la: seq<Event>, b: seq<int>, end: State, lb: seq<Event>)
    requires Goes(st, a, mid, la) && Goes(mid, b, end, lb)
    ensures Goes(st, a + b, end, la + lb)
  {
    StampsConcat(a, b);
    hide Stamps, Valid;
    RunConcat(st, Stamps(a), Stamps(b));
    LogConcat(st, Stamps(a), Stamps(b));
  }

  lemma StandsStill(st: State)
    requires Valid(st)
    ensures Goes(st, [], st, [])
  {
    assert Stamps([]) == [];
    hide Valid;
  }

  lemma OneEdge(st: State, t: int)
    requires Valid(st)
    ensures Goes(st, [t], Step(st, t % WRAP), EventsAt(st, t % WRAP))
  {
    var ts := [t];
    RunFront(st, ts);
    assert ts[1..] == [] && Stamps(ts[1..]) == [];
    hide Step, Valid, EventsAt, Stamps;
  }

  /** One step of a run, with its events. */
  lemma RunFront(st: State, ts: seq<int>)
    requires Valid(st) && ts != []
    ensures |st.nc.buffer| == NC_DATA_SIZE
    ensures var next := Step(st, ts[0] % WRAP);
      && Valid(next)
      && Run(st, Stamps(ts)) == Run(next, Stamps(ts[1..]))
      && EventLog(st, Stamps(ts)) == EventsAt(st, ts[0] % WRAP) + EventLog(next, Stamps(ts[1..]))
  {
    StepValid(st, ts[0] % WRAP);
    StampsFront(ts);
    assert |st.nc.buffer| == NC_DATA_SIZE;
    hide Step, Valid, EventsAt, Stamps;
  }

  lemma {:induction false} DataPhase(st: State, msg: seq<Sym>, T: int, i: nat, j: nat, m: nat, t0: int, tl: int,
                                     ts: seq<int>)
    returns (end: State, m': nat, tl': int)
    requires InSymbol(st, msg, T, i, j, m, t0, tl)
    requires Near(ts, DataEdges(msg[i], NC_SYMBOL_TIME * i, j), T, SLACK)
    ensures Goes(st, ts, end, []) && InSymbol(end, msg, T, i, 5, m', t0, tl')
    decreases 5 - j
  {
    assert Valid(st);
    if j == 5 {
      end, m', tl' := st, m, tl;
      assert ts == [];
      hide Valid, InSymbol, Goes;
      StandsStill(st);
    } else if BitOf(msg[i], 5, j) == 0 {
      hide InSymbol, Near, BitOf, Valid, Goes;
      ZeroBit(st, msg, T, i, j, m, t0, tl);
      end, m', tl' := DataPhase(st, msg, T, i, j + 1, m, t0, tl, ts);
    } else {
      NearFront(ts, DataEdges(msg[i], NC_SYMBOL_TIME * i, j), T, SLACK);
      hide InSymbol, Near, BitOf, Valid, Step, EventsAt, Goes;
      DataEdge(st, msg, T, i, j, m, t0, tl, ts[0]);
      OneEdge(st, ts[0]);
      var next := Step(st, ts[0] % WRAP);
      end, m', tl' := DataPhase(next, msg, T, i, j + 1, j + 1, t0, ts[0], ts[1..]);
      GoesOn(st, [ts[0]], next, [], ts[1..], end, []);
      assert [ts[0]] + ts[1..] == ts;
    }
  }

  /** The data edges of a symbol and the first edge after it. */
  lemma SymbolCloses(st: State, msg: seq<Sym>, T: int, i: nat, j: nat, m: nat, t0: int, tl: int,
                     data: seq<int>, t2: int)
    returns (end: State)
    requires InSymbol(st, msg, T, i, j, m, t0, tl)
    requires Near(data, DataEdges(msg[i], NC_SYMBOL_TIME * i, j), T, SLACK)
    requires -SLACK <= t2 - (T + NC_SYMBOL_TIME * (i + 1)) <= SLACK
    ensures Goes(st, data + [t2], end, PublishedBy(msg, i)) && Received(end, msg, T, i + 1, t0, t2)
  {
    hide InSymbol, Received, Goes, Near, DataEdges, Step, EventsAt, PublishedBy, Valid;
    var filled, m', last := DataPhase(st, msg, T, i, j, m, t0, tl, data);
    GoesEnds(st, data, filled, []);
    StopEdge(filled, msg, T, i, m', t0, last, t2);
    OneEdge(filled, t2);
    end := Step(filled, t2 % WRAP);
    GoesOn(st, data, filled, [], [t2], end, PublishedBy(msg, i));
    assert [] + PublishedBy(msg, i) == PublishedBy(msg, i);
  }

  /** A symbol from its second edge to the first edge after it. */
  lemma OneSymbol(st: State, msg: seq<Sym>, T: int, i: nat, tb: int, tl: int, t1: int, data: seq<int>, t2: int)
    returns (end: State)
    requires AtBoundary(st, msg, T, i, tb, tl)
    requires -SLACK <= t1 - (T + NC_SYMBOL_TIME * i + NC_PULSE * 3) <= SLACK
    requires Near(data, DataEdges(msg[i], NC_SYMBOL_TIME * i, 0), T, SLACK)
    requires -SLACK <= t2 - (T + NC_SYMBOL_TIME * (i + 1)) <= SLACK
    ensures Goes(st, [t1] + data + [t2], end, PublishedBy(msg, i)) && Received(end, msg, T, i + 1, t1, t2)
  {
    assert Valid(st) && |st.nc.buffer| == NC_DATA_SIZE;
    StartEdge(st, msg, T, i, tb, tl, t1);
    hide AtBoundary, InSymbol, Received, Goes, Near, DataEdges, Step, EventsAt, PublishedBy, Valid;
    OneEdge(st, t1);
    var started := Step(st, t1 % WRAP);
    end := SymbolCloses(started, msg, T, i, 0, 0, t1, t1, data, t2);
    GoesOn(st, [t1], started, [], data + [t2], end, PublishedBy(msg, i));
    assert [t1] + (data + [t2]) == [t1] + data + [t2];
    assert [] + PublishedBy(msg, i) == PublishedBy(msg, i);
  }

  lemma GoesEnds(st: State, ts: seq<int>, end: State, log: seq<Event>)
    requires Goes(st, ts, end, log)
    ensures Valid(st) && Valid(end) && |end.nc.buffer| == NC_DATA_SIZE
  {
  }

  // ----- frames, complete or cut off after k symbols -----

  /** The frame of the first k symbols, from the first edge of symbol i on. */
  function Rest(msg: seq<Sym>, i: nat, k: nat): seq<int>
    requires i <= k <= |msg|
  {
    Frame(msg[..k], i)
  }

  lemma RestHead(msg: seq<Sym>, i: nat, k: nat)
    requires i <= k <= |msg|
    ensures Rest(msg, i, k) != [] && Rest(msg, i, k)[0] == NC_SYMBOL_TIME * i
    ensures i == k ==> Rest(msg, i, k)[1..] == []
    ensures i < k ==>
      Rest(msg, i, k)[1..]
      == [NC_SYMBOL_TIME * i + NC_PULSE * 3] + (DataEdges(msg[i], NC_SYMBOL_TIME * i, 0) + Rest(msg, i + 1, k))
  {
    hide DataEdges;
  }

  /** One edge, some more, and one after them, apart from the rest. */
  lemma NearParts(ts: seq<int>, e1: int, es: seq<int>, rest: seq<int>, T: int, eps: int)
    returns (data: seq<int>, t2: int, later: seq<int>)
    requires Near(ts, [e1] + (es + rest), T, eps) && rest != []
    ensures ts != [] && -eps <= ts[0] - (T + e1) <= eps && Near(data, es, T, eps)
    ensures -eps <= t2 - (T + rest[0]) <= eps && Near(later, rest[1..], T, eps)
    ensures ts == [ts[0]] + data + [t2] + later
  {
    NearFront(ts, [e1] + (es + rest), T, eps);
    assert ([e1] + (es + rest))[1..] == es + rest;
    NearSplit(ts[1..], es, rest, T, eps);
    data := ts[1..][..|es|];
    var others := ts[1..][|es|..];
    NearFront(others, rest, T, eps);
    t2, later := others[0], others[1..];
    hide Near;
    assert others == [t2] + later;
  }

  /** The edges of symbol i, apart from those after it. */
  lemma SymbolEdges(msg: seq<Sym>, T: int, i: nat, k: nat, ts: seq<int>)
    returns (data: seq<int>, t2: int, later: seq<int>)
    requires i < k <= |msg| && Near(ts, Rest(msg, i, k)[1..], T, SLACK)
    ensures ts != [] && -SLACK <= ts[0] - (T + NC_SYMBOL_TIME * i + NC_PULSE * 3) <= SLACK
    ensures Near(data, DataEdges(msg[i], NC_SYMBOL_TIME * i, 0), T, SLACK)
    ensures -SLACK <= t2 - (T + NC_SYMBOL_TIME * (i + 1)) <= SLACK
    ensures Near(later, Rest(msg, i + 1, k)[1..], T, SLACK) && ts == [ts[0]] + data + [t2] + later
  {
    RestHead(msg, i, k);
    RestHead(msg, i + 1, k);
    hide Rest, DataEdges, Near;
    data, t2, later := NearParts(ts, NC_SYMBOL_TIME * i + NC_PULSE * 3, DataEdges(msg[i], NC_SYMBOL_TIME * i, 0),
                                 Rest(msg, i + 1, k), T, SLACK);
  }

  function PublishedFrom(msg: seq<Sym>, i: nat, k: nat): seq<Event>
  {
    if i < k == NC_DATA_SIZE then [NewCode(msg)] else []
  }

  /** From the second edge of symbol i to the last of k symbols. */
  lemma {:induction false} SymbolsFrom(st: State, msg: seq<Sym>, T: int, i: nat, k: nat, tb: int, tl: int, ts: seq<int>)
    returns (end: State, tb': int)
    requires Received(st, msg, T, i, tb, tl) && |msg| == NC_DATA_SIZE && i <= k <= NC_DATA_SIZE
    requires Near(ts, Rest(msg, i, k)[1..], T, SLACK)
    ensures Goes(st, ts, end, PublishedFrom(msg, i, k))
    ensures Received(end, msg, T, k, tb', if ts == [] then tl else ts[|ts| - 1])
    decreases k - i
  {
    assert Valid(st);
    if i == k {
      RestHead(msg, i, k);
      assert ts == [];
      hide Goes, Received, Valid, Near, Rest;
      end, tb' := st, tb;
      StandsStill(st);
    } else {
      assert AtBoundary(st, msg, T, i, tb, tl);
      hide Goes, Received, Valid, Near, Rest, AtBoundary, DataEdges, PublishedBy;
      var data, t2, later := SymbolEdges(msg, T, i, k, ts);
      var mid := OneSymbol(st, msg, T, i, tb, tl, ts[0], data, t2);
      end, tb' := SymbolsFrom(mid, msg, T, i + 1, k, ts[0], t2, later);
      GoesOn(st, [ts[0]] + data + [t2], mid, PublishedBy(msg, i), later, end, PublishedFrom(msg, i + 1, k));
      PublishedOnce(msg, i, k);
      assert later == [] ==> ts[|ts| - 1] == t2;
      assert later != [] ==> ts[|ts| - 1] == later[|later| - 1];
    }
  }

  lemma PublishedOnce(msg: seq<Sym>, i: nat, k: nat)
    requires i < k <= NC_DATA_SIZE
    ensures PublishedBy(msg, i) + PublishedFrom(msg, i + 1, k) == PublishedFrom(msg, i, k)
  {
  }

  // ----- the first edge after a quiet gap -----

  /** Longer than any symbol, and short enough that the wrapped clock still
      tells it apart from a short one. */
  predicate QuietGap(gap: Word32)
  {
    NC_SYMBOL_TIME + EPSILON <= gap < WRAP - SPAN
  }

  /** What was left of an earlier message is published if at most five symbols
      of it are missing. */
  function Leftover(st: State): seq<Event>
  {
    if st.nc.count < NC_DATA_SIZE && st.nc.count + MAX_INCOMPLETE_SKIP >= NC_DATA_SIZE
    then [NewCode(st.nc.buffer)] else []
  }

  lemma QuietNc(c: Nc, oldTime: Word32, now: Word32)
    requires NcValid(c, oldTime) && QuietGap(Sub32(now, oldTime))
    ensures var delta := Sub32(now, oldTime);
      && NcStep(c, now, delta).count == IDLE
      && (NcPublishes(c, now, delta) <==> c.count < NC_DATA_SIZE && c.count + MAX_INCOMPLETE_SKIP >= NC_DATA_SIZE)
      && (NcPublishes(c, now, delta) ==> NcStep(c, now, delta).code == c.buffer)
  {
    var delta := Sub32(now, oldTime);
    CloseToStart(delta);
    if c.count < NC_DATA_SIZE {
      GapsAdd(c.timebase, oldTime, now);
      assert Sub32(now, c.timebase) >= NC_SYMBOL_TIME + EPSILON by {
        hide Sub32;
      }
    }
    hide Sub32, Skip, IsClose;
  }

  lemma QuietEdge(st: State, now: Word32)
    requires Valid(st) && QuietGap(Sub32(now, st.oldTime))
    ensures var next := Step(st, now);
      && Valid(next) && next.oldTime == now && next.he.state == Reset && next.nc.count == IDLE
      && EventsAt(st, now) == Leftover(st)
  {
    var delta := Sub32(now, st.oldTime);
    assert GapOf(delta) == Other;
    StepValid(st, now);
    QuietNc(st.nc, st.oldTime, now);
    hide Sub32, NcStep, NcPublishes, IsClose, GapOf;
  }

  /** The first edge of a frame, after a quiet gap. */
  lemma FirstFrameEdge(st: State, msg: seq<Sym>, T: int, t: int) returns (next: State)
    requires Valid(st) && |msg| == NC_DATA_SIZE && -SLACK <= t - T <= SLACK
    requires QuietGap(Sub32(t % WRAP, st.oldTime))
    ensures Goes(st, [t], next, Leftover(st)) && AtBoundary(next, msg, T, 0, 0, t)
  {
    hide EventsAt, Leftover, QuietGap, Goes;
    QuietEdge(st, t % WRAP);
    OneEdge(st, t);
    hide Step, Valid;
    next := Step(st, t % WRAP);
  }

  /** The frame of the first k symbols, after a quiet gap. */
  lemma FrameOf(st: State, msg: seq<Sym>, k: nat, T: int, ts: seq<int>) returns (end: State, tb: int)
    requires Valid(st) && k <= |msg| == NC_DATA_SIZE && Near(ts, Frame(msg[..k], 0), T, SLACK)
    requires ts != [] ==> QuietGap(Sub32(ts[0] % WRAP, st.oldTime))
    ensures ts != [] && Goes(st, ts, end, Leftover(st) + PublishedFrom(msg, 0, k))
    ensures Received(end, msg, T, k, tb, ts[|ts| - 1])
  {
    assert Rest(msg, 0, k) == Frame(msg[..k], 0);
    RestHead(msg, 0, k);
    hide Rest, Frame, DataEdges, Leftover, QuietGap, Goes, PublishedFrom, Valid, AtBoundary;
    NearFront(ts, Rest(msg, 0, k), T, SLACK);
    hide Near;
    var next := FirstFrameEdge(st, msg, T, ts[0]);
    assert Received(next, msg, T, 0, 0, ts[0]);
    hide Received;
    end, tb := SymbolsFrom(next, msg, T, 0, k, 0, ts[0], ts[1..]);
    GoesOn(st, [ts[0]], next, Leftover(st), ts[1..], end, PublishedFrom(msg, 0, k));
    assert ts == [ts[0]] + ts[1..];
  }

  /** A frame with every edge displaced by at most 47 microseconds, after a
      quiet gap, delivers its message in its last edge and publishes nothing
      else, whatever the decoder was doing before and wherever the clock wraps. */
  lemma NewCodeFrame(st: State, msg: seq<Sym>, T: int, ts: seq<int>)
    requires Valid(st) && |msg| == NC_DATA_SIZE && Near(ts, Frame(msg, 0), T, SLACK)
    requires ts != [] ==> QuietGap(Sub32(ts[0] % WRAP, st.oldTime))
    ensures EventLog(st, Stamps(ts)) == Leftover(st) + [NewCode(msg)]
    ensures var end := Run(st, Stamps(ts)); end.nc.code == msg && end.nc.ready && end.nc.count == IDLE
  {
    hide Frame, DataEdges, Leftover, Stamps, QuietGap, Near, Valid;
    assert msg[..NC_DATA_SIZE] == msg;
    var end, tb := FrameOf(st, msg, NC_DATA_SIZE, T, ts);
  }

  // ----- a frame that is cut off -----

  function ZeroSymbols(n: nat): (z: seq<Sym>)
    ensures |z| == n
    ensures forall i :: 0 <= i < n ==> z[i] == 0
  {
    seq(n, _ => 0)
  }

  /** The next edge to arrive when the rest of a frame is lost: later than the
      second edge of a symbol, and soon enough for the clock. */
  predicate LateGap(gap: Word32)
  {
    NC_SYMBOL_TIME / 4 <= gap < WRAP - SPAN
  }

  /** What is published of a message of which k symbols came. */
  function Salvaged(msg: seq<Sym>, k: nat): seq<Event>
    requires k <= |msg| == NC_DATA_SIZE
  {
    if k + MAX_INCOMPLETE_SKIP >= NC_DATA_SIZE then [NewCode(msg[..k] + ZeroSymbols(NC_DATA_SIZE - k))] else []
  }

  lemma LateEdge(st: State, msg: seq<Sym>, T: int, k: nat, tb: int, tl: int, now: Word32)
    requires AtBoundary(st, msg, T, k, tb, tl) && LateGap(Sub32(now, st.oldTime))
    ensures |st.nc.buffer| == NC_DATA_SIZE
    ensures Step(st, now).nc.count == IDLE
    ensures EventsAt(st, now) == Salvaged(msg, k)
  {
    var delta := Sub32(now, st.oldTime);
    CloseToStart(delta);
    assert |st.nc.buffer| == NC_DATA_SIZE && !HeCompletes(st.he, delta);
    if st.nc.count != IDLE {
      var delta2 := Sub32(now, st.nc.timebase);
      GapOfTimes(tb, tl);
      GapsAdd(st.nc.timebase, st.oldTime, now);
      assert delta2 >= NC_SYMBOL_TIME + EPSILON by {
        hide Sub32, Holds, HeAt, Valid;
      }
      CutBuffer(st.nc.buffer, msg, k);
    }
    hide Sub32, Skip, IsClose, HeCompletes, HeStep, Holds, HeAt, Valid;
  }

  lemma CutBuffer(buffer: seq<nat>, msg: seq<Sym>, k: nat)
    requires Holds(buffer, msg, k, 0) && k < NC_DATA_SIZE
    ensures buffer == msg[..k] + ZeroSymbols(NC_DATA_SIZE - k)
  {
    FieldStarts(msg[k]);
    hide Field, BitOf;
  }

  /** When a frame breaks off after k symbols, the next edge publishes them with
      zeros for the rest if at most five are missing, and nothing otherwise. */
  lemma CutFrame(st: State, msg: seq<Sym>, k: nat, T: int, ts: seq<int>, now: int)
    requires Valid(st) && k < |msg| == NC_DATA_SIZE && Near(ts, Frame(msg[..k], 0), T, SLACK)
    requires ts != [] ==> QuietGap(Sub32(ts[0] % WRAP, st.oldTime)) && LateGap(Sub32(now % WRAP, ts[|ts| - 1] % WRAP))
    ensures EventLog(st, Stamps(ts + [now])) == Leftover(st) + Salvaged(msg, k)
    ensures Run(st, Stamps(ts + [now])).nc.count == IDLE
  {
    hide Frame, DataEdges, Leftover, QuietGap, Near, Valid, Goes;
    var end, tb := FrameOf(st, msg, k, T, ts);
    assert AtBoundary(end, msg, T, k, tb, ts[|ts| - 1]) && PublishedFrom(msg, 0, k) == [];
    BoundaryValid(end, msg, T, k, tb, ts[|ts| - 1]);
    LateEdge(end, msg, T, k, tb, ts[|ts| - 1], now % WRAP);
    hide AtBoundary, Step, EventsAt, LateGap, ZeroSymbols;
    OneEdge(end, now);
    GoesOn(st, ts, end, Leftover(st) + [], [now], Step(end, now % WRAP), EventsAt(end, now % WRAP));
    assert Goes(st, ts + [now], Step(end, now % WRAP), Leftover(st) + [] + EventsAt(end, now % WRAP));
    GoesMeans(st, ts + [now], Step(end, now % WRAP), Leftover(st) + [] + EventsAt(end, now % WRAP));
  }

  lemma BoundaryValid(st: State, msg: seq<Sym>, T: int, k: nat, tb: int, tl: int)
    requires AtBoundary(st, msg, T, k, tb, tl)
    ensures Valid(st) && |st.nc.buffer| == NC_DATA_SIZE && st.oldTime == tl % WRAP && k < NC_DATA_SIZE == |msg|
  {
  }

  lemma GoesMeans(st: State, ts: seq<int>, end: State, log: seq<Event>)
    requires Goes(st, ts, end, log)
    ensures Valid(st) && Run(st, Stamps(ts)) == end && EventLog(st, Stamps(ts)) == log
  {
  }

  // ----- a frame that is cut off anywhere -----

  /** The first k symbols are in the buffer, and perhaps some bits of the next. */
  ghost predicate Partly(st: State, msg: seq<Sym>, k: nat, tl: int)
  {
    && Valid(st) && k < |msg| == NC_DATA_SIZE && st.oldTime == tl % WRAP
    && (if st.nc.count == IDLE then k == 0
        else st.nc.count == k && forall q :: 0 <= q < k ==> st.nc.buffer[q] == msg[q])
  }

  lemma BoundaryIsPartly(st: State, msg: seq<Sym>, T: int, k: nat, tb: int, tl: int)
    requires AtBoundary(st, msg, T, k, tb, tl)
    ensures Partly(st, msg, k, tl)
  {
    hide HeAt;
  }

  lemma InSymbolIsPartly(st: State, msg: seq<Sym>, T: int, i: nat, j: nat, m: nat, t0: int, tl: int)
    requires InSymbol(st, msg, T, i, j, m, t0, tl)
    ensures Partly(st, msg, i, tl)
  {
    hide HeAt, Field, BitOf;
  }

  /** The time of the last of these edges, the one before them being at tl. */
  function LastEdge(tl: int, ts: seq<int>): int
  {
    if ts == [] then tl else ts[|ts| - 1]
  }

  lemma NoMoreEdges(tl: int)
    ensures LastEdge(tl, []) == tl
  {
  }

  lemma LastOfMore(tl: int, ts: seq<int>)
    requires ts != []
    ensures LastEdge(ts[0], ts[1..]) == LastEdge(tl, ts)
  {
  }

  lemma InSymbolValid(st: State, msg: seq<Sym>, T: int, i: nat, j: nat, m: nat, t0: int, tl: int)
    requires InSymbol(st, msg, T, i, j, m, t0, tl)
    ensures Valid(st) && j <= 5 && i < |msg| == NC_DATA_SIZE && |st.nc.buffer| == NC_DATA_SIZE
  {
  }

  /** The edge of bit j, apart from those after it. */
  lemma DataFront(msg: seq<Sym>, T: int, i: nat, j: nat, q: nat, ts: seq<int>)
    requires i < |msg| && j < 5 && BitOf(msg[i], 5, j) == 1
    requires 0 < q <= |DataEdges(msg[i], NC_SYMBOL_TIME * i, j)|
    requires Near(ts, DataEdges(msg[i], NC_SYMBOL_TIME * i, j)[..q], T, SLACK)
    ensures ts != [] && -SLACK <= ts[0] - (T + NC_SYMBOL_TIME * i + DataTime(j)) <= SLACK
    ensures var es, later := DataEdges(msg[i], NC_SYMBOL_TIME * i, j), DataEdges(msg[i], NC_SYMBOL_TIME * i, j + 1);
      q - 1 <= |later| && es[q..] == later[q - 1..] && Near(ts[1..], later[..q - 1], T, SLACK)
  {
    var es, later := DataEdges(msg[i], NC_SYMBOL_TIME * i, j), DataEdges(msg[i], NC_SYMBOL_TIME * i, j + 1);
    assert es == [NC_SYMBOL_TIME * i + DataTime(j)] + later;
    hide DataEdges, DataTime, BitOf;
    assert es[..q][1..] == later[..q - 1];
    NearFront(ts, es[..q], T, SLACK);
    hide Near;
  }

  /** It puts the bit in the buffer and publishes nothing. */
  lemma OneDataEdge(st: State, msg: seq<Sym>, T: int, i: nat, j: nat, m: nat, t0: int, tl: int, t: int)
    returns (next: State)
    requires InSymbol(st, msg, T, i, j, m, t0, tl) && j < 5 && BitOf(msg[i], 5, j) == 1
    requires -SLACK <= t - (T + NC_SYMBOL_TIME * i + DataTime(j)) <= SLACK
    ensures Goes(st, [t], next, []) && InSymbol(next, msg, T, i, j + 1, j + 1, t0, t)
  {
    hide Valid, InSymbol, Goes, Step, EventsAt, BitOf, DataTime;
    InSymbolValid(st, msg, T, i, j, m, t0, tl);
    DataEdge(st, msg, T, i, j, m, t0, tl, t);
    OneEdge(st, t);
    next := Step(st, t % WRAP);
  }

  lemma NoEdgeForZero(symbol: nat, base: int, j: nat)
    requires j <= 5
    ensures j == 5 ==> DataEdges(symbol, base, j) == []
    ensures j < 5 && BitOf(symbol, 5, j) == 0 ==> DataEdges(symbol, base, j) == DataEdges(symbol, base, j + 1)
  {
    hide BitOf;
  }

  /** The first q data edges of a symbol: the decoder is past some bit j', and
      the edges still to come are those of the bits from there on. */
  lemma {:induction false} DataUntil(st: State, msg: seq<Sym>, T: int, i: nat, j: nat, m: nat, t0: int, tl: int,
                                     q: nat, ts: seq<int>)
    returns (end: State, j': nat, m': nat, tl': int)
    requires InSymbol(st, msg, T, i, j, m, t0, tl) && q <= |DataEdges(msg[i], NC_SYMBOL_TIME * i, j)|
    requires Near(ts, DataEdges(msg[i], NC_SYMBOL_TIME * i, j)[..q], T, SLACK)
    ensures Goes(st, ts, end, []) && InSymbol(end, msg, T, i, j', m', t0, tl') && tl' == LastEdge(tl, ts)
    ensures DataEdges(msg[i], NC_SYMBOL_TIME * i, j)[q..] == DataEdges(msg[i], NC_SYMBOL_TIME * i, j')
    decreases 5 - j
  {
    hide Valid, InSymbol, Goes, LastEdge, Near, BitOf, DataEdges, DataTime;
    InSymbolValid(st, msg, T, i, j, m, t0, tl);
    NoEdgeForZero(msg[i], NC_SYMBOL_TIME * i, j);
    if q == 0 {
      end, j', m', tl' := st, j, m, tl;
      NearLengths(ts, [], T, SLACK);
      NoMoreEdges(tl);
      StandsStill(st);
    } else if j < 5 && BitOf(msg[i], 5, j) == 0 {
      ZeroBit(st, msg, T, i, j, m, t0, tl);
      end, j', m', tl' := DataUntil(st, msg, T, i, j + 1, m, t0, tl, q, ts);
    } else {
      DataFront(msg, T, i, j, q, ts);
      var next := OneDataEdge(st, msg, T, i, j, m, t0, tl, ts[0]);
      end, j', m', tl' := DataUntil(next, msg, T, i, j + 1, j + 1, t0, ts[0], q - 1, ts[1..]);
      var none: seq<Event> := [];
      GoesOn(st, [ts[0]], next, none, ts[1..], end, none);
      LastOfMore(tl, ts);
      assert [ts[0]] + ts[1..] == ts && none + none == none;
    }
  }

  lemma NearLengths(ts: seq<int>, es: seq<int>, T: int, eps: int)
    requires Near(ts, es, T, eps)
    ensures |ts| == |es|
  {
  }

  /** Some of the edges of a symbol, from its second edge on. */
  lemma SymbolBegins(st: State, msg: seq<Sym>, T: int, i: nat, tb: int, tl: int, n: nat, ts: seq<int>)
    returns (end: State)
    requires AtBoundary(st, msg, T, i, tb, tl) && n <= |DataEdges(msg[i], NC_SYMBOL_TIME * i, 0)|
    requires Near(ts, [NC_SYMBOL_TIME * i + NC_PULSE * 3] + DataEdges(msg[i], NC_SYMBOL_TIME * i, 0)[..n], T, SLACK)
    ensures Goes(st, ts, end, []) && Partly(end, msg, i, LastEdge(tl, ts))
  {
    hide DataEdges, AtBoundary, InSymbol, Goes, Near, Step, EventsAt, Valid, Partly, LastEdge;
    BoundaryValid(st, msg, T, i, tb, tl);
    var es := DataEdges(msg[i], NC_SYMBOL_TIME * i, 0)[..n];
    NearFront(ts, [NC_SYMBOL_TIME * i + NC_PULSE * 3] + es, T, SLACK);
    assert ([NC_SYMBOL_TIME * i + NC_PULSE * 3] + es)[1..] == es;
    StartEdge(st, msg, T, i, tb, tl, ts[0]);
    OneEdge(st, ts[0]);
    var next := Step(st, ts[0] % WRAP);
    var j, m, last;
    end, j, m, last := DataUntil(next, msg, T, i, 0, 0, ts[0], ts[0], n, ts[1..]);
    InSymbolIsPartly(end, msg, T, i, j, m, ts[0], last);
    LastOfMore(tl, ts);
    var none: seq<Event> := [];
    GoesOn(st, [ts[0]], next, none, ts[1..], end, none);
    assert [ts[0]] + ts[1..] == ts && none + none == none;
  }

  /** How many edges come after the first edge of symbol i, up to symbol k. */
  function EdgesTo(msg: seq<Sym>, i: nat, k: nat): nat
    requires i <= k <= |msg|
  {
    RestHead(msg, i, k);
    |Rest(msg, i, k)| - 1
  }

  lemma {:induction false} MoreSymbolsMoreEdges(msg: seq<Sym>, i: nat, k: nat, l: nat)
    requires i <= k <= l <= |msg|
    ensures EdgesTo(msg, i, k) <= EdgesTo(msg, i, l)
    decreases k - i
  {
    hide EdgesTo, DataEdges;
    if i == k {
      RestHead(msg, i, l);
      EdgesToNone(msg, i);
    } else {
      EdgesToStep(msg, i, k);
      EdgesToStep(msg, i, l);
      MoreSymbolsMoreEdges(msg, i + 1, k, l);
    }
  }

  lemma EdgesToNone(msg: seq<Sym>, i: nat)
    requires i <= |msg|
    ensures EdgesTo(msg, i, i) == 0
  {
    RestHead(msg, i, i);
    hide Rest;
  }

  lemma EdgesToStep(msg: seq<Sym>, i: nat, k: nat)
    requires i < k <= |msg|
    ensures EdgesTo(msg, k, k) == 0
    ensures EdgesTo(msg, i, k) == |DataEdges(msg[i], NC_SYMBOL_TIME * i, 0)| + 2 + EdgesTo(msg, i + 1, k)
  {
    RestHead(msg, i, k);
    RestHead(msg, i + 1, k);
    RestHead(msg, k, k);
    hide Rest, DataEdges;
  }

  /** The first n edges after the first edge of symbol i. */
  lemma {:induction false} Begins(st: State, msg: seq<Sym>, T: int, i: nat, tb: int, tl: int, n: nat, ts: seq<int>)
    returns (end: State, k: nat)
    requires AtBoundary(st, msg, T, i, tb, tl) && n < EdgesTo(msg, i, NC_DATA_SIZE)
    requires Near(ts, Rest(msg, i, NC_DATA_SIZE)[1..][..n], T, SLACK)
    ensures i <= k < NC_DATA_SIZE && EdgesTo(msg, i, k) <= n < EdgesTo(msg, i, k + 1)
    ensures Goes(st, ts, end, []) && Partly(end, msg, k, LastEdge(tl, ts))
    decreases NC_DATA_SIZE - i, 0
  {
    hide Goes, Partly, AtBoundary, Valid, Rest, DataEdges, EdgesTo, Near, LastEdge;
    BoundaryValid(st, msg, T, i, tb, tl);
    var e1, data, rest := SymbolShape(msg, i);
    if n == 0 {
      NearLengths(ts, Rest(msg, i, NC_DATA_SIZE)[1..][..n], T, SLACK);
      end, k := st, i;
      NoMoreEdges(tl);
      assert ts == [];
      StandsStill(st);
      BoundaryIsPartly(st, msg, T, i, tb, tl);
    } else if n < |data| + 2 {
      assert ([e1] + (data + rest))[..n] == [e1] + data[..n - 1];
      end := SymbolBegins(st, msg, T, i, tb, tl, n - 1, ts);
      k := i;
    } else {
      var left := n - |data| - 2;
      var ds, t2, us := PrefixParts(ts, e1, data, rest, n, T, SLACK, tl);
      end, k := SymbolThenBegins(st, msg, T, i, tb, tl, ts[0], ds, t2, left, us);
      EdgesToStep(msg, i, k);
      EdgesToStep(msg, i, k + 1);
    }
  }

  /** A symbol in the frame of the whole message. */
  lemma SymbolShape(msg: seq<Sym>, i: nat) returns (e1: int, data: seq<int>, rest: seq<int>)
    requires i < |msg| == NC_DATA_SIZE
    ensures e1 == NC_SYMBOL_TIME * i + NC_PULSE * 3 && data == DataEdges(msg[i], NC_SYMBOL_TIME * i, 0)
    ensures rest == Rest(msg, i + 1, NC_DATA_SIZE) && rest != [] && rest[0] == NC_SYMBOL_TIME * (i + 1)
    ensures Rest(msg, i, NC_DATA_SIZE) != [] && Rest(msg, i, NC_DATA_SIZE)[1..] == [e1] + (data + rest)
    ensures EdgesTo(msg, i, NC_DATA_SIZE) == |data| + 1 + |rest|
    ensures EdgesTo(msg, i + 1, NC_DATA_SIZE) == |rest| - 1
    ensures EdgesTo(msg, i, i) == 0 && EdgesTo(msg, i, i + 1) == |data| + 2
    ensures i + 1 == NC_DATA_SIZE ==> |rest| == 1
  {
    e1, data := NC_SYMBOL_TIME * i + NC_PULSE * 3, DataEdges(msg[i], NC_SYMBOL_TIME * i, 0);
    rest := Rest(msg, i + 1, NC_DATA_SIZE);
    RestHead(msg, i, NC_DATA_SIZE);
    RestHead(msg, i + 1, NC_DATA_SIZE);
    RestHead(msg, i, i);
    hide Rest, DataEdges;
    EdgesToStep(msg, i, i + 1);
  }

  /** The same when only the first n edges came. */
  lemma PrefixParts(ts: seq<int>, e1: int, es: seq<int>, rest: seq<int>, n: nat, T: int, eps: int, tl: int)
    returns (data: seq<int>, t2: int, later: seq<int>)
    requires |es| + 2 <= n <= |es| + 1 + |rest| && Near(ts, ([e1] + (es + rest))[..n], T, eps)
    ensures ts != [] && -eps <= ts[0] - (T + e1) <= eps && Near(data, es, T, eps)
    ensures -eps <= t2 - (T + rest[0]) <= eps && Near(later, rest[1..][..n - |es| - 2], T, eps)
    ensures ts == [ts[0]] + data + [t2] + later
    ensures LastEdge(t2, later) == LastEdge(tl, ts)
  {
    hide Near;
    var some := rest[..n - |es| - 1];
    assert ([e1] + (es + rest))[..n] == [e1] + (es + some);
    data, t2, later := NearParts(ts, e1, es, some, T, eps);
    assert some[0] == rest[0] && some[1..] == rest[1..][..n - |es| - 2];
  }

  lemma {:induction false} SymbolThenBegins(st: State, msg: seq<Sym>, T: int, i: nat, tb: int, tl: int, t1: int,
                                            data: seq<int>, t2: int, n: nat, ts: seq<int>)
    returns (end: State, k: nat)
    requires AtBoundary(st, msg, T, i, tb, tl) && i + 1 < NC_DATA_SIZE
    requires -SLACK <= t1 - (T + NC_SYMBOL_TIME * i + NC_PULSE * 3) <= SLACK
    requires Near(data, DataEdges(msg[i], NC_SYMBOL_TIME * i, 0), T, SLACK)
    requires -SLACK <= t2 - (T + NC_SYMBOL_TIME * (i + 1)) <= SLACK
    requires n < EdgesTo(msg, i + 1, NC_DATA_SIZE)
    requires Near(ts, Rest(msg, i + 1, NC_DATA_SIZE)[1..][..n], T, SLACK)
    ensures i + 1 <= k < NC_DATA_SIZE && EdgesTo(msg, i + 1, k) <= n < EdgesTo(msg, i + 1, k + 1)
    ensures Goes(st, [t1] + data + [t2] + ts, end, []) && Partly(end, msg, k, LastEdge(t2, ts))
    decreases NC_DATA_SIZE - i - 1, 1
  {
    hide Goes, Partly, Valid, Near, AtBoundary, Rest, DataEdges, EdgesTo;
    var mid := OneSymbol(st, msg, T, i, tb, tl, t1, data, t2);
    assert AtBoundary(mid, msg, T, i + 1, t1, t2) && PublishedBy(msg, i) == [];
    end, k := Begins(mid, msg, T, i + 1, t1, t2, n, ts);
    GoesOn(st, [t1] + data + [t2], mid, PublishedBy(msg, i), ts, end, []);
    assert PublishedBy(msg, i) + [] == [];
  }

  /** What is published of a message that broke off in symbol k. */
  function SalvagedAs(heard: seq<Sym>, k: nat): seq<Event>
  {
    if k + MAX_INCOMPLETE_SKIP >= NC_DATA_SIZE then [NewCode(heard)] else []
  }

  lemma PartlyLeft(st: State, msg: seq<Sym>, k: nat, tl: int) returns (heard: seq<Sym>)
    requires Partly(st, msg, k, tl)
    ensures Valid(st) && st.oldTime == tl % WRAP
    ensures |heard| == NC_DATA_SIZE && heard[..k] == msg[..k] && Leftover(st) == SalvagedAs(heard, k)
  {
    heard := if st.nc.count == IDLE then ZeroSymbols(NC_DATA_SIZE) else st.nc.buffer;
  }

  /** The quiet gap after a frame that broke off. */
  lemma QuietAfter(st: State, msg: seq<Sym>, k: nat, tl: int, now: int) returns (last: State, heard: seq<Sym>)
    requires Partly(st, msg, k, tl) && QuietGap(Sub32(now % WRAP, tl % WRAP))
    ensures k < NC_DATA_SIZE == |msg| == |heard| && heard[..k] == msg[..k]
    ensures Goes(st, [now], last, SalvagedAs(heard, k)) && last.nc.count == IDLE
  {
    assert k < |msg| == NC_DATA_SIZE;
    hide Partly, Valid, Step, EventsAt, Leftover, SalvagedAs, QuietGap, Goes;
    heard := PartlyLeft(st, msg, k, tl);
    QuietEdge(st, now % WRAP);
    OneEdge(st, now);
    last := Step(st, now % WRAP);
  }

  /** However many edges of a frame come before it breaks off, the symbols that
      came whole are published after the next quiet gap if at most five are not
      among them, and otherwise nothing is. */
  lemma CutAnywhere(st: State, msg: seq<Sym>, n: nat, T: int, ts: seq<int>, now: int)
    returns (k: nat, heard: seq<Sym>)
    requires Valid(st) && |msg| == NC_DATA_SIZE && 0 < n < |Frame(msg, 0)| && Near(ts, Frame(msg, 0)[..n], T, SLACK)
    requires ts != [] ==> QuietGap(Sub32(ts[0] % WRAP, st.oldTime)) && QuietGap(Sub32(now % WRAP, ts[|ts| - 1] % WRAP))
    ensures k < NC_DATA_SIZE && EdgesTo(msg, 0, k) < n <= EdgesTo(msg, 0, k + 1)
    ensures |heard| == NC_DATA_SIZE && heard[..k] == msg[..k]
    ensures EventLog(st, Stamps(ts + [now])) == Leftover(st) + SalvagedAs(heard, k)
    ensures Run(st, Stamps(ts + [now])).nc.count == IDLE
  {
    hide Frame, DataEdges, Leftover, QuietGap, Goes, AtBoundary, Valid, SalvagedAs, Partly, Near;
    var all := Rest(msg, 0, NC_DATA_SIZE);
    assert msg[..NC_DATA_SIZE] == msg;
    assert all == Frame(msg, 0);
    assert EdgesTo(msg, 0, NC_DATA_SIZE) == |all| - 1;
    hide Rest, EdgesTo;
    RestHead(msg, 0, NC_DATA_SIZE);
    NearFront(ts, all[..n], T, SLACK);
    assert all[..n][1..] == all[1..][..n - 1];
    var next := FirstFrameEdge(st, msg, T, ts[0]);
    var end, last;
    end, k := Begins(next, msg, T, 0, 0, ts[0], n - 1, ts[1..]);
    GoesOn(st, [ts[0]], next, Leftover(st), ts[1..], end, []);
    assert [ts[0]] + ts[1..] == ts;
    assert LastEdge(ts[0], ts[1..]) == ts[|ts| - 1];
    last, heard := QuietAfter(end, msg, k, ts[|ts| - 1], now);
    GoesOn(st, ts, end, Leftover(st) + [], [now], last, SalvagedAs(heard, k));
    GoesMeans(st, ts + [now], last, Leftover(st) + [] + SalvagedAs(heard, k));
    assert Leftover(st) + [] == Leftover(st);
  }

  /** Edges played from time T on, none displaced. */
  function At(T: int, es: seq<int>): (ts: seq<int>)
    ensures |ts| == |es|
    ensures forall k :: 0 <= k < |es| ==> ts[k] == T + es[k]
  {
    seq(|es|, k requires 0 <= k < |es| => T + es[k])
  }

  lemma StartsValid()
    ensures Valid(InitialState()) && Leftover(InitialState()) == []
  {
  }

  /** So a receiver just switched on receives the first frame played to it. */
  lemma FirstFrame(msg: seq<Sym>, T: int)
    requires |msg| == NC_DATA_SIZE && QuietGap(T % WRAP)
    ensures Valid(InitialState())
    ensures EventLog(InitialState(), Stamps(At(T, Frame(msg, 0)))) == [NewCode(msg)]
  {
    hide Frame, DataEdges, Stamps, QuietGap;
    StartsValid();
    RestHead(msg, 0, NC_DATA_SIZE);
    assert msg[..NC_DATA_SIZE] == msg;
    hide Rest;
    var st, ts := InitialState(), At(T, Frame(msg, 0));
    assert st.oldTime == 0 && ts[0] == T;
    assert Sub32(T % WRAP, 0) == T % WRAP;
    assert Near(ts, Frame(msg, 0), T, SLACK);
    hide Valid, Near, At, InitialState, EventLog, Run, Leftover;
    NewCodeFrame(st, msg, T, ts);
  }
}
