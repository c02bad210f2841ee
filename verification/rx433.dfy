/** The edge decoder of rx433.c: two state machines stepped once for every
    rising edge, on 32 bit microsecond timestamps that wrap. */
module Rx433 {
  import opened Bits

  const NC_PULSE := 0x100
  const EPSILON := NC_PULSE * 3 / 8
  const SYMBOL_SIZE := 5
  const NC_DATA_SIZE := 31
  const NC_SYMBOL_TIME := NC_PULSE * 5 + NC_PULSE * 2 * SYMBOL_SIZE
  const MAX_INCOMPLETE_SKIP := 5
  const WRAP := 0x1_0000_0000
  const IDLE: Word32 := 0xFFFF_FFFF      // ~0: no message in progress

  /** Subtraction of 32 bit unsigned numbers. */
  function Sub32(a: int, b: int): Word32
  {
    (a - b) % WRAP
  }

  /** IS_CLOSE: centre - epsilon <= delta < centre + epsilon. */
  predicate IsClose(delta: Word32, centre: Word32, epsilon: nat)
  {
    (delta + epsilon - centre) % WRAP < epsilon * 2
  }

  datatype HeState = Reset | ReceivedLong | ReceivedShort | ReadyForBit

  /** The Home Easy decoder and the code it last published. */
  datatype He = He(state: HeState, bitCount: nat, bitData: nat, code: nat)

  /** The new code decoder, and the buffer and flag it publishes into. */
  datatype Nc = Nc(buffer: seq<nat>, timebase: Word32, count: Word32, code: seq<nat>, ready: bool)

  datatype State = State(oldTime: Word32, he: He, nc: Nc)

  // ----- Home Easy -----

  /** What a gap of delta microseconds means. */
  datatype Gap = Short | Long | Start | Other

  function GapOf(delta: Word32): Gap
  {
    var d := delta / 128;
    if 3 <= d <= 5 then Short
    else if d == 11 || d == 12 then Long
    else if d == 22 || d == 23 then Start
    else Other
  }

  /** A complete pair of gaps has been received: bit 1 or bit 0. */
  function HeBit(h: He, data: nat): He
  {
    if h.bitCount + 1 >= 32 then He(Reset, h.bitCount + 1, data, data)
    else He(ReadyForBit, h.bitCount + 1, data, h.code)
  }

  /** The bit for position n: (1 << 31) >> n. */
  function HeMask(n: nat): (mask: nat)
  {
    Pow2(31) / Pow2(n)
  }

  function HeStep(h: He, delta: Word32): He
  {
    match GapOf(delta)
    case Short =>
      (match h.state
       case ReadyForBit => h.(state := ReceivedShort)
       case ReceivedLong => HeBit(h, Or(h.bitData, HeMask(h.bitCount)))
       case _ => h.(state := Reset))
    case Long =>
      (match h.state
       case ReadyForBit => h.(state := ReceivedLong)
       case ReceivedShort => HeBit(h, h.bitData)
       case _ => h.(state := Reset))
    case Start => He(ReadyForBit, 0, 0, h.code)
    case Other => h.(state := Reset)
  }

  // ----- new codes -----

  function Publish(c: Nc): Nc
  {
    c.(code := c.buffer, ready := true)
  }

  function ZeroBuffer(): (b: seq<nat>)
    ensures |b| == NC_DATA_SIZE
    ensures forall i :: 0 <= i < NC_DATA_SIZE ==> b[i] == 0
  {
    seq(NC_DATA_SIZE, _ => 0)
  }

  /** Skip over symbols that were missed altogether. */
  function Skip(c: Nc, newTime: Word32, skip: nat): (r: (Nc, nat))
    decreases NC_DATA_SIZE - c.count
  {
    if c.count < NC_DATA_SIZE && Sub32(newTime, c.timebase) > NC_SYMBOL_TIME * 3 / 2 then
      Skip(c.(count := c.count + 1, timebase := (c.timebase + NC_SYMBOL_TIME) % WRAP), newTime, skip + 1)
    else (c, skip)
  }

  /** The gap before this edge is that of a start code. */
  function NcStart(c0: Nc, newTime: Word32): Nc
  {
    var skipped := Skip(c0, newTime, 0);
    var c, skip := skipped.0, skipped.1;
    if c.count >= NC_DATA_SIZE then
      var d := if c.count == NC_DATA_SIZE && skip <= MAX_INCOMPLETE_SKIP then Publish(c) else c;
      d.(count := 0, timebase := newTime, buffer := ZeroBuffer())
    else if IsClose(Sub32(newTime, c.timebase), NC_SYMBOL_TIME, EPSILON) then c.(timebase := newTime)
    else c
  }

  /** A pulse inside a symbol, delta2 after its start. */
  function NcBit(c: Nc, delta2: Word32): Nc
    requires |c.buffer| == NC_DATA_SIZE && c.count < NC_DATA_SIZE
  {
    var bit := (delta2 + NC_PULSE) / (NC_PULSE * 2);
    var ideal := NC_PULSE * 2 * bit;
    if bit == 0 || ideal >= WRAP || !IsClose(ideal, delta2, EPSILON) then c
    else if bit < SYMBOL_SIZE + 1 then
      c.(buffer := c.buffer[c.count := Or(c.buffer[c.count], Pow2(SYMBOL_SIZE) / Pow2(bit))])
    else if c.count + 1 == NC_DATA_SIZE then Publish(c).(count := IDLE)
    else c.(count := c.count + 1)
  }

  function NcStep(c: Nc, newTime: Word32, delta: Word32): Nc
    requires |c.buffer| == NC_DATA_SIZE
  {
    var delta2 := Sub32(newTime, c.timebase);
    if IsClose(delta, NC_PULSE * 3, EPSILON) then NcStart(c, newTime)
    else if c.count >= NC_DATA_SIZE then c
    else if delta2 < NC_SYMBOL_TIME + EPSILON then NcBit(c, delta2)
    else
      (if c.count + MAX_INCOMPLETE_SKIP >= NC_DATA_SIZE then Publish(c) else c).(count := IDLE)
  }

  /** One interrupt. */
  function Step(st: State, newTime: Word32): State
    requires |st.nc.buffer| == NC_DATA_SIZE
  {
    var delta := Sub32(newTime, st.oldTime);
    State(newTime, HeStep(st.he, delta), NcStep(st.nc, newTime, delta))
  }

  // ----- what holds between any two interrupts, whatever the timestamps -----

  /** Longest time the last edge can be away from the start of its symbol. */
  const SPAN := NC_SYMBOL_TIME * 3 / 2

  predicate HeValid(h: He)
  {
    && (h.state != Reset ==> h.bitCount < 32)
    && h.bitCount <= 32
    && h.bitData < WRAP && h.code < WRAP
  }

  predicate Symbols(b: seq<nat>)
  {
    |b| == NC_DATA_SIZE && forall i :: 0 <= i < |b| ==> b[i] < 32
  }

  predicate NcValid(c: Nc, oldTime: Word32)
  {
    && Symbols(c.buffer) && Symbols(c.code)
    && (c.count < NC_DATA_SIZE || c.count == IDLE)
    && (c.count < NC_DATA_SIZE ==> Sub32(oldTime, c.timebase) <= SPAN)
  }

  predicate Valid(st: State)
  {
    HeValid(st.he) && NcValid(st.nc, st.oldTime)
  }

  function InitialState(): State
  {
    State(0, He(Reset, 0, 0, 0), Nc(ZeroBuffer(), 0, IDLE, ZeroBuffer(), false))
  }

  lemma WordPower()
    ensures Pow2(31) == 0x8000_0000 && Pow2(32) == WRAP
  {
    WordPowers();
    assert Pow2(32) == 2 * Pow2(31);
  }

  lemma {:induction false} Pow2Monotone(m: nat, n: nat)
    requires m <= n
    ensures Pow2(m) <= Pow2(n)
  {
    if m < n {
      Pow2Monotone(m, n - 1);
    }
  }

  /** A one bit shifted right is a lower power of two. */
  lemma ShiftedOne(m: nat, n: nat)
    requires n <= m
    ensures Pow2(m) / Pow2(n) == Pow2(m - n) == ShiftLeft(1, m - n)
  {
    PowersOfTwo(m - n, n);
    DivModUnique(Pow2(m), Pow2(n), Pow2(m - n), 0);
    ShiftLeftIsProduct(1, m - n);
  }

  lemma HeStepValid(h: He, delta: Word32)
    requires HeValid(h)
    ensures HeValid(HeStep(h, delta))
  {
    WordPower();
    hide Or, Pow2;
    if h.state == ReceivedLong {
      ShiftedOne(31, h.bitCount);
      Pow2Monotone(31 - h.bitCount, 31);
      OrBelow(h.bitData, HeMask(h.bitCount), 32);
    }
    hide GapOf;
  }

  lemma ModAdd(x: int, y: int)
    ensures (x % WRAP + y) % WRAP == (x + y) % WRAP
  {
    var q := x / WRAP;
    assert x == q * WRAP + x % WRAP;
    ModMultiple(x % WRAP + y, q);
  }

  lemma ModMultiple(x: int, q: int)
    ensures (x + q * WRAP) % WRAP == x % WRAP
  {
  }

  /** Two gaps in a row add up. */
  lemma GapsAdd(a: int, b: int, c: int)
    ensures Sub32(c, a) == (Sub32(c, b) + Sub32(b, a)) % WRAP
  {
    ModAdd(c - b, Sub32(b, a));
    ModAdd(b - a, c - b);
  }

  lemma GapToLater(newTime: Word32, t: Word32, d: nat)
    ensures Sub32(newTime, (t + d) % WRAP) == (Sub32(newTime, t) - d) % WRAP
  {
    var m := (t + d) % WRAP;
    var q := (t + d) / WRAP;
    assert newTime - m == (newTime - t - d) + q * WRAP;
    ModMultiple(newTime - t - d, q);
    ModAdd(newTime - t, 0 - d);
  }

  /** IsClose as an interval, away from the ends of the number range. */
  lemma CloseInterval(delta: Word32, centre: Word32, epsilon: nat)
    requires epsilon <= centre && centre + epsilon < WRAP / 2 && epsilon < 0x1000
    ensures IsClose(delta, centre, epsilon) <==> centre <= delta + epsilon && delta < centre + epsilon
  {
  }

  /** Where a start code can be, measured from the symbol last started. */
  lemma StartCodeGap(timebase: Word32, oldTime: Word32, newTime: Word32)
    requires Sub32(oldTime, timebase) <= SPAN
    requires IsClose(Sub32(newTime, oldTime), NC_PULSE * 3, EPSILON)
    ensures var g := Sub32(newTime, timebase);
      && g < SPAN + NC_PULSE * 4
      && (g > SPAN ==> Sub32(newTime, (timebase + NC_SYMBOL_TIME) % WRAP) == g - NC_SYMBOL_TIME)
  {
    CloseInterval(Sub32(newTime, oldTime), NC_PULSE * 3, EPSILON);
    GapsAdd(timebase, oldTime, newTime);
    GapToLater(newTime, timebase, NC_SYMBOL_TIME);
    hide Sub32, IsClose;
  }

  /** At most one symbol is skipped per edge. */
  lemma SkipsAtMostOnce(c: Nc, oldTime: Word32, newTime: Word32)
    requires c.count < NC_DATA_SIZE && Sub32(oldTime, c.timebase) <= SPAN
    requires IsClose(Sub32(newTime, oldTime), NC_PULSE * 3, EPSILON)
    ensures var r := Skip(c, newTime, 0);
      && r.1 == (if Sub32(newTime, c.timebase) > SPAN then 1 else 0)
      && r.0 == (if r.1 == 0 then c
                 else c.(count := c.count + 1, timebase := (c.timebase + NC_SYMBOL_TIME) % WRAP))
      && Sub32(newTime, r.0.timebase) <= SPAN
  {
    StartCodeGap(c.timebase, oldTime, newTime);
    hide Sub32, IsClose;
    var g, c1 := Sub32(newTime, c.timebase), c.(count := c.count + 1, timebase := (c.timebase + NC_SYMBOL_TIME) % WRAP);
    if g > SPAN {
      assert Skip(c1, newTime, 1) == (c1, 1);
    }
  }

  /** The loop over missed symbols runs only when the edge before had the gap of
      a start code as well: any other edge so late ends the message. */
  lemma SkipsOnlyAfterStart(st: State, t1: Word32, t2: Word32)
    requires Valid(st) && !IsClose(Sub32(t1, st.oldTime), NC_PULSE * 3, EPSILON)
    requires IsClose(Sub32(t2, t1), NC_PULSE * 3, EPSILON)
    ensures var c := Step(st, t1).nc; Skip(c, t2, 0) == (c, 0)
  {
    var c := Step(st, t1).nc;
    if c.count < NC_DATA_SIZE {
      assert st.nc.count < NC_DATA_SIZE && c.timebase == st.nc.timebase
             && Sub32(t1, c.timebase) < NC_SYMBOL_TIME + EPSILON by {
        hide Sub32, IsClose;
      }
      hide Step;
      CloseInterval(Sub32(t2, t1), NC_PULSE * 3, EPSILON);
      GapsAdd(c.timebase, t1, t2);
      assert Sub32(t2, c.timebase) <= SPAN by {
        hide Sub32, IsClose;
      }
      hide Sub32;
    } else {
      hide Step;
    }
  }

  /** And it does run then. */
  lemma SkipCanHappen(c: Nc)
    requires c.count == 0 && c.timebase == 0
    ensures Sub32(5000, c.timebase) <= SPAN && IsClose(Sub32(5768, 5000), NC_PULSE * 3, EPSILON)
    ensures Skip(c, 5768, 0).1 == 1
  {
    SkipsAtMostOnce(c, 5000, 5768);
    hide Skip;
  }

  lemma NcBitValid(c: Nc, delta2: Word32)
    requires Symbols(c.buffer) && Symbols(c.code) && c.count < NC_DATA_SIZE
    requires delta2 < NC_SYMBOL_TIME + EPSILON
    ensures var d := NcBit(c, delta2);
      && Symbols(d.buffer) && Symbols(d.code) && d.timebase == c.timebase
      && (d.count < NC_DATA_SIZE || d.count == IDLE)
  {
    assert Pow2(5) == 32;
    var bit := (delta2 + NC_PULSE) / (NC_PULSE * 2);
    if 1 <= bit <= SYMBOL_SIZE {
      ShiftedOne(5, bit);
      Pow2Monotone(5 - bit, 4);
      assert Pow2(4) == 16;
      OrBelow(c.buffer[c.count], Pow2(SYMBOL_SIZE) / Pow2(bit), 5);
    }
    hide Or, Pow2;
  }

  /** One edge keeps the invariant, at whatever time it arrives; the loop over
      missed symbols runs at most once. */
  lemma StepValid(st: State, newTime: Word32)
    requires Valid(st)
    ensures Valid(Step(st, newTime))
    ensures IsClose(Sub32(newTime, st.oldTime), NC_PULSE * 3, EPSILON) ==> Skip(st.nc, newTime, 0).1 <= 1
  {
    var delta := Sub32(newTime, st.oldTime);
    var c := st.nc;
    HeStepValid(st.he, delta);
    hide HeStep;
    if IsClose(delta, NC_PULSE * 3, EPSILON) {
      NcStartValid(c, st.oldTime, newTime);
      hide NcStart, Skip;
    } else {
      NcOtherValid(c, st.oldTime, newTime);
      hide Skip;
    }
  }

  lemma StepClock(st: State, newTime: Word32)
    requires Valid(st)
    ensures |st.nc.buffer| == NC_DATA_SIZE && Step(st, newTime).oldTime == newTime
  {
  }

  lemma NcStartValid(c: Nc, oldTime: Word32, newTime: Word32)
    requires NcValid(c, oldTime)
    requires IsClose(Sub32(newTime, oldTime), NC_PULSE * 3, EPSILON)
    ensures NcValid(NcStart(c, newTime), newTime) && Skip(c, newTime, 0).1 <= 1
  {
    if c.count < NC_DATA_SIZE {
      SkipsAtMostOnce(c, oldTime, newTime);
    } else {
      assert Skip(c, newTime, 0) == (c, 0);
    }
    hide Skip, IsClose;
    assert Sub32(newTime, newTime) == 0;
  }

  lemma NcOtherValid(c: Nc, oldTime: Word32, newTime: Word32)
    requires NcValid(c, oldTime)
    requires !IsClose(Sub32(newTime, oldTime), NC_PULSE * 3, EPSILON)
    ensures NcValid(NcStep(c, newTime, Sub32(newTime, oldTime)), newTime)
  {
    var delta2 := Sub32(newTime, c.timebase);
    if c.count < NC_DATA_SIZE && delta2 < NC_SYMBOL_TIME + EPSILON {
      NcBitValid(c, delta2);
    }
    hide NcBit, IsClose, Sub32;
  }

  /** A run of interrupts. */
  function Run(st: State, times: seq<Word32>): State
    requires Valid(st)
    decreases |times|
  {
    if times == [] then st
    else
      StepValid(st, times[0]);
      Run(Step(st, times[0]), times[1..])
  }

  /** So after any sequence of timestamps at all. */
  lemma {:induction false} RunValid(st: State, times: seq<Word32>)
    requires Valid(st)
    ensures Valid(Run(st, times))
    decreases |times|
  {
    assert |st.nc.buffer| == NC_DATA_SIZE;
    hide Step, Valid;
    if times != [] {
      StepValid(st, times[0]);
      RunValid(Step(st, times[0]), times[1..]);
    }
  }

  lemma {:induction false} RunConcat(st: State, a: seq<Word32>, b: seq<Word32>)
    requires Valid(st)
    ensures Valid(Run(st, a)) && Run(st, a + b) == Run(Run(st, a), b)
    decreases |a|
  {
    assert |st.nc.buffer| == NC_DATA_SIZE;
    hide Step, Valid;
    if a == [] {
      assert a + b == b;
    } else {
      StepValid(st, a[0]);
      assert (a + b)[1..] == a[1..] + b;
      RunConcat(Step(st, a[0]), a[1..], b);
    }
  }
}
