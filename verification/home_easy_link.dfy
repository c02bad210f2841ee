/** A Home Easy frame sent by the driver, with every edge displaced a little, is
    what the decoder publishes. */
module HomeEasyLink {
  import opened Bits
  import opened Packing
  import opened Rx433
  import opened RadioEvents
  import opened Tx433
  import opened RadioLink

  const HE_SLACK := 52    // microseconds an edge of a Home Easy code may be displaced

  /** A gap of the transmitter, give or take the slack at both ends. */
  predicate Around(gap: Word32, nominal: nat)
  {
    nominal <= gap + 2 * HE_SLACK && gap <= nominal + 2 * HE_SLACK
  }

  lemma GapsOfFrame(gap: Word32)
    ensures Around(gap, HE_START) ==> GapOf(gap) == Start
    ensures Around(gap, HE_ZERO) ==> GapOf(gap) == Long
    ensures Around(gap, HE_ONE) ==> GapOf(gap) == Short
    ensures Around(gap, HE_GAP) ==> QuietGap(gap)
  {
  }

  /** The decoder has the first j bits of the code, and is ready for the next. */
  function HeAfter(code: nat, j: nat, published: nat): He
    requires j < HE_BITS
  {
    He(ReadyForBit, j, Field(BitsOf(code, HE_BITS), 0, HE_BITS, j), published)
  }

  /** At the first edge of bit j, at time tl; d is where it should be. */
  ghost predicate AtBit(st: State, code: nat, T: int, d: int, j: nat, tl: int)
  {
    && Valid(st) && st.oldTime == tl % WRAP && -HE_SLACK <= tl - (T + d) <= HE_SLACK && j < HE_BITS
    && st.he == HeAfter(code, j, st.he.code)
  }

  /** An edge that is no start code of the other protocol. */
  lemma HeEdge(st: State, now: Word32, delta: Word32)
    requires Valid(st) && delta == Sub32(now, st.oldTime) && !(672 <= delta < 864)
    ensures |st.nc.buffer| == NC_DATA_SIZE
    ensures var next := Step(st, now);
      Valid(next) && next.oldTime == now && next.he == HeStep(st.he, delta)
    ensures st.nc.count == IDLE ==> Step(st, now).nc == st.nc && !NcPublishes(st.nc, now, delta)
  {
    CloseToStart(delta);
    StepValid(st, now);
    hide HeStep, IsClose, Sub32;
  }

  /** Both gaps of a bit. */
  lemma BitGaps(h: He, bit: Bit, g1: Word32, g2: Word32)
    requires h.state == ReadyForBit && h.bitCount < HE_BITS
    requires Around(g1, HeFirstGap(bit)) && Around(g2, HE_BIT_TIME - HeFirstGap(bit))
    ensures !HeCompletes(h, g1) && (HeCompletes(HeStep(h, g1), g2) <==> h.bitCount + 1 == HE_BITS)
    ensures HeStep(HeStep(h, g1), g2)
         == HeBit(h, if bit == 1 then Or(h.bitData, HeMask(h.bitCount)) else h.bitData)
  {
    GapsOfFrame(g1);
    GapsOfFrame(g2);
    hide GapOf, Or, HeMask, Around;
  }

  lemma DataBit(code: nat, j: nat)
    requires j < HE_BITS
    ensures var bits := BitsOf(code, HE_BITS);
      Field(bits, 0, HE_BITS, j + 1)
      == if bits[j] == 1 then Or(Field(bits, 0, HE_BITS, j), HeMask(j)) else Field(bits, 0, HE_BITS, j)
  {
    hide BitOf;
    ShiftedOne(31, j);
    hide HeMask, Pow2;
    FieldStep(BitsOf(code, HE_BITS), 0, HE_BITS, j);
    ShiftZero(31 - j);
    OrZero(Field(BitsOf(code, HE_BITS), 0, HE_BITS, j));
    hide Field, Or, ShiftLeft;
  }

  lemma CodeComplete(code: Word32)
    ensures Field(BitsOf(code, HE_BITS), 0, HE_BITS, HE_BITS) == code
  {
    WordPower();
    ValueOfBits(code, HE_BITS);
    var bits := BitsOf(code, HE_BITS);
    assert bits[0..HE_BITS] == bits;
    assert ShiftLeft(ValueOf(bits), 0) == ValueOf(bits);
    hide Pow2;
  }

  lemma BitDecoded(code: Word32, j: nat, published: nat, g1: Word32, g2: Word32)
    requires j < HE_BITS
    requires Around(g1, HeFirstGap(BitOf(code, HE_BITS, j)))
    requires Around(g2, HE_BIT_TIME - HeFirstGap(BitOf(code, HE_BITS, j)))
    ensures var h := HeAfter(code, j, published);
      && !HeCompletes(h, g1) && (HeCompletes(HeStep(h, g1), g2) <==> j + 1 == HE_BITS)
      && HeStep(HeStep(h, g1), g2)
         == if j + 1 < HE_BITS then HeAfter(code, j + 1, published) else He(Reset, HE_BITS, code, code)
  {
    var h := HeAfter(code, j, published);
    hide BitOf, Field, Or, HeMask, HeFirstGap, HeStep, HeCompletes;
    BitGaps(h, BitOf(code, HE_BITS, j), g1, g2);
    DataBit(code, j);
    CodeComplete(code);
  }

  /** The edge in the middle of a bit and the one at its end. */
  lemma BitEdges(st: State, code: Word32, T: int, d: int, j: nat, tl: int, t1: int, t2: int)
    returns (mid: State, next: State)
    requires AtBit(st, code, T, d, j, tl)
    requires -HE_SLACK <= t1 - (T + d + HeFirstGap(BitOf(code, HE_BITS, j))) <= HE_SLACK
    requires -HE_SLACK <= t2 - (T + d + HE_BIT_TIME) <= HE_SLACK
    ensures Valid(st) && Valid(mid) && mid == Step(st, t1 % WRAP) && next == Step(mid, t2 % WRAP)
    ensures if j + 1 < HE_BITS then AtBit(next, code, T, d + HE_BIT_TIME, j + 1, t2)
            else next.he.code == code && next.he.state == Reset && next.oldTime == t2 % WRAP && Valid(next)
    ensures st.nc.count == IDLE ==> mid.nc == st.nc && EventsAt(st, t1 % WRAP) == []
    ensures mid.nc.count == IDLE ==>
      next.nc == mid.nc && EventsAt(mid, t2 % WRAP) == if j + 1 < HE_BITS then [] else [HomeEasyCode(code)]
  {
    hide Field, BitOf, Pow2;
    GapOfTimes(tl, t1);
    GapOfTimes(t1, t2);
    BitDecoded(code, j, st.he.code, t1 - tl, t2 - t1);
    hide HeStep, HeCompletes, NcStep, NcPublishes, Valid, HeAfter, Sub32, BitOf;
    HeEdge(st, t1 % WRAP, t1 - tl);
    mid := Step(st, t1 % WRAP);
    HeEdge(mid, t2 % WRAP, t2 - t1);
    next := Step(mid, t2 % WRAP);
  }

  // ----- whole frames -----

  /** The edges that follow the first edge of bit j. */
  function BitTail(code: nat, d: int, j: nat): seq<int>
    requires j < HE_BITS
    decreases HE_BITS - j
  {
    var two := [d + HeFirstGap(BitOf(code, HE_BITS, j)), d + HE_BIT_TIME];
    if j + 1 == HE_BITS then two else two + BitTail(code, d + HE_BIT_TIME, j + 1)
  }

  lemma {:induction false} TailOfBits(code: nat, d: int, j: nat, last: int)
    requires j < HE_BITS && last == d + (HE_BITS - j) * HE_BIT_TIME
    ensures HeBitEdges(code, d, j) + [last] == [d] + BitTail(code, d, j)
    decreases HE_BITS - j
  {
    hide BitOf, HeFirstGap;
    var mid, d' := d + HeFirstGap(BitOf(code, HE_BITS, j)), d + HE_BIT_TIME;
    var rest := HeBitEdges(code, d', j + 1);
    assert HeBitEdges(code, d, j) == [d, mid] + rest;
    if j + 1 == HE_BITS {
      assert rest == [];
    } else {
      TailOfBits(code, d', j + 1, last);
      var tail := BitTail(code, d', j + 1);
      assert BitTail(code, d, j) == [mid, d'] + tail;
      hide HeBitEdges, BitTail;
      assert ([d, mid] + rest) + [last] == [d, mid] + (rest + [last]);
      assert [d, mid] + ([d'] + tail) == [d] + ([mid, d'] + tail);
    }
  }

  lemma FrameIs(code: nat, base: int)
    ensures HeFrame(code, base) == [base] + ([base + HE_START] + BitTail(code, base + HE_START, 0))
  {
    hide HeBitEdges, BitTail;
    var d, last := base + HE_START, base + HE_START + HE_BITS * HE_BIT_TIME;
    TailOfBits(code, d, 0, last);
    var bits := HeBitEdges(code, d, 0);
    assert HeFrame(code, base) == [base] + bits + [last];
    hide HeFrame;
    assert [base] + bits + [last] == [base] + (bits + [last]);
  }

  /** These edges make the receiver publish the code; when no new code message
      is in progress they do nothing else. */
  ghost predicate Decodes(st: State, ts: seq<int>, code: nat)
    requires Valid(st)
  {
    var end := Run(st, Stamps(ts));
    && end.he.code == code
    && (st.nc.count == IDLE ==> end.nc == st.nc && EventLog(st, Stamps(ts)) == [HomeEasyCode(code)])
    && ts != [] && end.oldTime == ts[|ts| - 1] % WRAP
  }

  /** An edge in front that publishes nothing. */
  lemma DecodesLater(st: State, ts: seq<int>, code: nat)
    requires Valid(st) && |ts| > 1
    requires Valid(Step(st, ts[0] % WRAP)) && Decodes(Step(st, ts[0] % WRAP), ts[1..], code)
    requires st.nc.count == IDLE ==> Step(st, ts[0] % WRAP).nc == st.nc && EventsAt(st, ts[0] % WRAP) == []
    ensures Decodes(st, ts, code)
  {
    RunFront(st, ts);
    hide Step, EventsAt, Valid, Stamps;
  }

  /** The edges of bit j, apart from the rest. */
  lemma TailFront(code: nat, T: int, d: int, j: nat, ts: seq<int>)
    requires j < HE_BITS && Near(ts, BitTail(code, d, j), T, HE_SLACK)
    ensures |ts| >= 2
    ensures -HE_SLACK <= ts[0] - (T + d + HeFirstGap(BitOf(code, HE_BITS, j))) <= HE_SLACK
    ensures -HE_SLACK <= ts[1..][0] - (T + d + HE_BIT_TIME) <= HE_SLACK
    ensures if j + 1 == HE_BITS then ts[1..][1..] == []
            else Near(ts[1..][1..], BitTail(code, d + HE_BIT_TIME, j + 1), T, HE_SLACK)
  {
    var es := BitTail(code, d, j);
    assert es[0] == d + HeFirstGap(BitOf(code, HE_BITS, j)) && es[1] == d + HE_BIT_TIME;
    assert if j + 1 == HE_BITS then es[1..][1..] == [] else es[1..][1..] == BitTail(code, d + HE_BIT_TIME, j + 1);
    NearFront(ts, es, T, HE_SLACK);
    NearFront(ts[1..], es[1..], T, HE_SLACK);
    hide BitTail, BitOf, HeFirstGap;
    NearLength(ts[1..][1..], es[1..][1..], T, HE_SLACK);
  }

  lemma {:induction false} BitsPhase(st: State, code: Word32, T: int, d: int, j: nat, tl: int, ts: seq<int>)
    requires AtBit(st, code, T, d, j, tl)
    requires Near(ts, BitTail(code, d, j), T, HE_SLACK)
    ensures Valid(st) && Decodes(st, ts, code)
    decreases HE_BITS - j
  {
    assert j < HE_BITS;
    hide BitTail, BitOf, HeFirstGap, Near, Step, EventsAt, Stamps, AtBit, Valid, Decodes, Run, EventLog;
    TailFront(code, T, d, j, ts);
    var us := ts[1..];
    var mid, next := BitEdges(st, code, T, d, j, tl, ts[0], us[0]);
    if j + 1 == HE_BITS {
      LastBit(mid, us, code);
    } else {
      BitsPhase(next, code, T, d + HE_BIT_TIME, j + 1, us[0], us[1..]);
      DecodesLater(mid, us, code);
    }
    DecodesLater(st, ts, code);
  }

  lemma LastBit(st: State, ts: seq<int>, code: nat)
    requires Valid(st) && |ts| == 1
    requires var next := Step(st, ts[0] % WRAP);
      next.he.code == code
      && (st.nc.count == IDLE ==> next.nc == st.nc && EventsAt(st, ts[0] % WRAP) == [HomeEasyCode(code)])
    ensures Decodes(st, ts, code)
  {
    RunFront(st, ts);
    assert ts[1..] == [] && Stamps(ts[1..]) == [];
    assert Step(st, ts[0] % WRAP).oldTime == ts[0] % WRAP;
    hide Step, EventsAt, Valid, Stamps;
  }

  lemma NearLength(ts: seq<int>, es: seq<int>, T: int, eps: int)
    requires Near(ts, es, T, eps)
    ensures |ts| == |es|
  {
  }

  // ----- the start of a frame -----

  /** The second edge of a frame starts a code, whatever the decoder was doing. */
  lemma StartOfBits(st: State, code: Word32, T: int, d: int, tl: int, t: int)
    requires Valid(st) && st.oldTime == tl % WRAP && -HE_SLACK <= tl - (T + d) <= HE_SLACK
    requires -HE_SLACK <= t - (T + d + HE_START) <= HE_SLACK
    ensures var next := Step(st, t % WRAP);
      && AtBit(next, code, T, d + HE_START, 0, t)
      && (st.nc.count == IDLE ==> next.nc == st.nc && EventsAt(st, t % WRAP) == [])
  {
    var delta := t - tl;
    GapOfTimes(tl, t);
    GapsOfFrame(delta);
    assert HeStep(st.he, delta) == HeAfter(code, 0, st.he.code) && !HeCompletes(st.he, delta) by {
      hide Or, HeMask;
    }
    hide HeStep, HeCompletes, NcStep, NcPublishes, Valid, HeAfter, Sub32;
    HeEdge(st, t % WRAP, delta);
  }

  /** The frame without its first edge. */
  lemma FrameAfterFirst(st: State, code: Word32, T: int, d: int, tl: int, ts: seq<int>)
    requires Valid(st) && st.oldTime == tl % WRAP && -HE_SLACK <= tl - (T + d) <= HE_SLACK
    requires Near(ts, [d + HE_START] + BitTail(code, d + HE_START, 0), T, HE_SLACK)
    ensures Decodes(st, ts, code)
  {
    hide BitTail;
    var es := [d + HE_START] + BitTail(code, d + HE_START, 0);
    NearFront(ts, es, T, HE_SLACK);
    assert es[1..] == BitTail(code, d + HE_START, 0);
    StartOfBits(st, code, T, d, tl, ts[0]);
    hide Near, Step, EventsAt, Valid, Decodes;
    var next := Step(st, ts[0] % WRAP);
    BitsPhase(next, code, T, d + HE_START, 0, ts[0], ts[1..]);
    assert |ts| > 1 by {
      TailFront(code, T, d + HE_START, 0, ts[1..]);
    }
    DecodesLater(st, ts, code);
  }

  /** One frame of write_he with every edge displaced by at most 52 microseconds
      sets rx433_home_easy to its code, whatever the decoder was doing before. */
  lemma HomeEasyFrame(st: State, code: Word32, T: int, base: int, ts: seq<int>)
    requires Valid(st) && Near(ts, HeFrame(code, base), T, HE_SLACK)
    ensures Valid(Run(st, Stamps(ts))) && Run(st, Stamps(ts)).he.code == code
  {
    FirstEdge(st, code, T, base, ts);
    RunValid(st, Stamps(ts));
    hide Valid, Step, EventsAt, Near;
    RunFront(st, ts);
  }

  lemma FirstEdge(st: State, code: Word32, T: int, base: int, ts: seq<int>)
    requires Valid(st) && Near(ts, HeFrame(code, base), T, HE_SLACK)
    ensures ts != [] && Valid(Step(st, ts[0] % WRAP)) && Decodes(Step(st, ts[0] % WRAP), ts[1..], code)
  {
    hide BitTail, HeFrame;
    FrameIs(code, base);
    var rest := [base + HE_START] + BitTail(code, base + HE_START, 0);
    NearFront(ts, [base] + rest, T, HE_SLACK);
    assert ([base] + rest)[1..] == rest;
    StepValid(st, ts[0] % WRAP);
    var next := Step(st, ts[0] % WRAP);
    assert next.oldTime == ts[0] % WRAP;
    hide Step, Valid, Near, Decodes;
    FrameAfterFirst(next, code, T, base, ts[0], ts[1..]);
  }

  /** After a quiet gap it publishes its code and nothing else: no frame of one
      protocol is ever taken for one of the other. */
  lemma QuietHomeEasyFrame(st: State, code: Word32, T: int, base: int, ts: seq<int>)
    requires Valid(st) && Near(ts, HeFrame(code, base), T, HE_SLACK)
    requires ts != [] ==> QuietGap(Sub32(ts[0] % WRAP, st.oldTime))
    ensures EventLog(st, Stamps(ts)) == Leftover(st) + [HomeEasyCode(code)]
    ensures ts != [] && var end := Run(st, Stamps(ts));
      Valid(end) && end.he.code == code && end.nc.count == IDLE && end.oldTime == ts[|ts| - 1] % WRAP
  {
    hide HeFrame, HeBitEdges, BitTail;
    FirstEdge(st, code, T, base, ts);
    QuietEdge(st, ts[0] % WRAP);
    RunValid(st, Stamps(ts));
    hide Valid, Step, EventsAt, Near, QuietGap, Leftover, Stamps;
    RunFront(st, ts);
  }

  // ----- repeated frames -----

  lemma LastOfFrame(code: nat, base: int)
    ensures var es := HeFrame(code, base); |es| > 1 && es[0] == base && es[|es| - 1] == base + HE_FRAME_TIME - HE_GAP
  {
    hide HeBitEdges;
    var bits := HeBitEdges(code, base + HE_START, 0);
    assert HeFrame(code, base) == [base] + bits + [base + HE_FRAME_TIME - HE_GAP];
  }

  lemma FramesStep(code: nat, n: nat)
    ensures HeFrames(code, 0, n + 1) == HeFrames(code, 0, n) + HeFrame(code, HE_FRAME_TIME * n)
  {
    hide HeFrame;
    assert 0 + HE_FRAME_TIME * n == HE_FRAME_TIME * n;
  }

  lemma LastOfFrames(code: nat, n: nat)
    ensures var es := HeFrames(code, 0, n + 1); es != [] && es[|es| - 1] == HE_FRAME_TIME * n + HE_FRAME_TIME - HE_GAP
  {
    hide HeFrames, HeFrame;
    FramesStep(code, n);
    LastOfFrame(code, HE_FRAME_TIME * n);
  }

  /** The gap between one frame and the next. */
  lemma FrameGap(code: nat, T: int, n: nat, a: seq<int>, b: seq<int>)
    requires Near(a, HeFrames(code, 0, n + 1), T, HE_SLACK)
    requires Near(b, HeFrame(code, HE_FRAME_TIME * (n + 1)), T, HE_SLACK)
    ensures a != [] && b != [] && QuietGap(Sub32(b[0] % WRAP, a[|a| - 1] % WRAP))
  {
    hide HeFrames, HeFrame, QuietGap;
    LastOfFrames(code, n);
    LastOfFrame(code, HE_FRAME_TIME * (n + 1));
    var first, last := b[0], a[|a| - 1];
    assert HE_GAP - 2 * HE_SLACK <= first - last <= HE_GAP + 2 * HE_SLACK;
    hide Near;
    GapOfTimes(last, first);
    GapsOfFrame(first - last);
  }

  ghost function Codes(code: nat, n: nat): (events: seq<Event>)
    ensures |events| == n && forall i :: 0 <= i < n ==> events[i] == HomeEasyCode(code)
  {
    seq(n, _ => HomeEasyCode(code))
  }

  /** These edges publish the code n times, after what a quiet gap flushes, and
      nothing else. */
  ghost predicate Repeats(st: State, ts: seq<int>, code: nat, n: nat)
    requires Valid(st)
  {
    && ts != [] && EventLog(st, Stamps(ts)) == Leftover(st) + Codes(code, n)
    && var end := Run(st, Stamps(ts));
       Valid(end) && end.nc.count == IDLE && end.oldTime == ts[|ts| - 1] % WRAP && end.he.code == code
  }

  lemma OnceMore(st: State, code: Word32, T: int, n: nat, a: seq<int>, b: seq<int>)
    requires Valid(st) && Repeats(st, a, code, n) && Near(b, HeFrame(code, HE_FRAME_TIME * n), T, HE_SLACK)
    requires b != [] && QuietGap(Sub32(b[0] % WRAP, a[|a| - 1] % WRAP))
    ensures Repeats(st, a + b, code, n + 1)
  {
    hide Near, HeFrame, Stamps, QuietGap, Valid;
    var s := Run(st, Stamps(a));
    assert Leftover(s) == [];
    hide Leftover;
    QuietHomeEasyFrame(s, code, T, HE_FRAME_TIME * n, b);
    StampsConcat(a, b);
    RunConcat(st, Stamps(a), Stamps(b));
    LogConcat(st, Stamps(a), Stamps(b));
    assert Codes(code, n + 1) == Codes(code, n) + [HomeEasyCode(code)];
  }

  lemma FirstAttempt(st: State, code: Word32, T: int, ts: seq<int>)
    requires Valid(st) && Near(ts, HeFrame(code, 0), T, HE_SLACK)
    requires ts != [] ==> QuietGap(Sub32(ts[0] % WRAP, st.oldTime))
    ensures Repeats(st, ts, code, 1)
  {
    hide Near, Leftover, Stamps, HeFrame, QuietGap, Valid;
    QuietHomeEasyFrame(st, code, T, 0, ts);
    assert Codes(code, 1) == [HomeEasyCode(code)];
  }

  /** The last attempt, apart from those before. */
  lemma LastAttempt(code: nat, T: int, n: nat, ts: seq<int>) returns (a: seq<int>, b: seq<int>)
    requires Near(ts, HeFrames(code, 0, n + 1), T, HE_SLACK)
    ensures ts == a + b && Near(a, HeFrames(code, 0, n), T, HE_SLACK)
    ensures Near(b, HeFrame(code, HE_FRAME_TIME * n), T, HE_SLACK)
    ensures |a| == |HeFrames(code, 0, n)|
  {
    hide HeFrames, HeFrame;
    FramesStep(code, n);
    var front, frame := HeFrames(code, 0, n), HeFrame(code, HE_FRAME_TIME * n);
    NearSplit(ts, front, frame, T, HE_SLACK);
    a, b := ts[..|front|], ts[|front|..];
  }

  /** Every attempt of write_he publishes the code once, and nothing else is
      published but what a quiet gap flushes. */
  lemma {:induction false} HomeEasyAttempts(st: State, code: Word32, T: int, n: nat, ts: seq<int>)
    requires Valid(st) && n > 0 && Near(ts, HeFrames(code, 0, n), T, HE_SLACK)
    requires ts != [] ==> QuietGap(Sub32(ts[0] % WRAP, st.oldTime))
    ensures Repeats(st, ts, code, n)
    decreases n
  {
    hide HeFrame, HeBitEdges, BitTail, QuietGap, Valid, Near, Repeats;
    assert n == 1 ==> HeFrames(code, 0, n - 1) == [];
    hide HeFrames;
    var a, b := LastAttempt(code, T, n - 1, ts);
    if n == 1 {
      assert ts == b;
      FirstAttempt(st, code, T, ts);
    } else {
      FrameGap(code, T, n - 2, a, b);
      HomeEasyAttempts(st, code, T, n - 1, a);
      OnceMore(st, code, T, n - 1, a, b);
    }
  }

  /** A receiver just switched on receives every attempt played to it. */
  lemma FirstCode(code: Word32, T: int, n: nat)
    requires n > 0 && QuietGap(T % WRAP)
    ensures Valid(InitialState())
    ensures EventLog(InitialState(), Stamps(At(T, HeFrames(code, 0, n)))) == Codes(code, n)
  {
    hide HeFrame, HeBitEdges, BitTail, HeFrames, Stamps, QuietGap;
    StartsValid();
    var st, ts := InitialState(), At(T, HeFrames(code, 0, n));
    FirstOfFrames(code, n);
    assert st.oldTime == 0 && ts[0] == T;
    assert Sub32(T % WRAP, 0) == T % WRAP;
    assert Near(ts, HeFrames(code, 0, n), T, HE_SLACK);
    hide Valid, Near, At, InitialState, EventLog, Run, Leftover;
    HomeEasyAttempts(st, code, T, n, ts);
  }

  lemma {:induction false} FirstOfFrames(code: nat, n: nat)
    requires n > 0
    ensures HeFrames(code, 0, n) != [] && HeFrames(code, 0, n)[0] == 0
  {
    hide HeFrame, HeBitEdges, BitTail;
    LastOfFrame(code, HE_FRAME_TIME * (n - 1));
    FramesStep(code, n - 1);
    if n > 1 {
      FirstOfFrames(code, n - 1);
    } else {
      assert HeFrames(code, 0, n - 1) == [];
    }
  }
}
