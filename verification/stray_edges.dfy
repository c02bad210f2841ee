/** What noise does to a message: a stray edge inside a symbol. */
module StrayEdges {
  import opened Bits
  import opened Packing
  import opened GF32
  import opened Rx433
  import opened RadioEvents
  import opened Tx433
  import opened RadioLink
  import opened EdgeTable

  // ----- the messages among the events -----

  function Messages(log: seq<Event>): seq<seq<nat>>
  {
    if log == [] then []
    else (if log[0].NewCode? then [log[0].message] else []) + Messages(log[1..])
  }

  lemma {:induction false} MessagesConcat(a: seq<Event>, b: seq<Event>)
    ensures Messages(a + b) == Messages(a) + Messages(b)
    decreases |a|
  {
    if a == [] {
      assert a + b == b;
    } else {
      assert (a + b)[1..] == a[1..] + b;
      MessagesConcat(a[1..], b);
    }
  }

  lemma MessagesAt(st: State, now: Word32)
    requires Valid(st)
    ensures Messages(EventsAt(st, now))
         == if NcPublishes(st.nc, now, Sub32(now, st.oldTime)) then [Step(st, now).nc.code] else []
  {
    var delta := Sub32(now, st.oldTime);
    var e := if NcPublishes(st.nc, now, delta) then [NewCode(Step(st, now).nc.code)] else [];
    var h := if HeCompletes(st.he, delta) then [HomeEasyCode(Step(st, now).he.code)] else [];
    assert EventsAt(st, now) == h + e;
    MessagesConcat(h, e);
    assert forall x: Event :: [x][1..] == [];
    hide Step, NcPublishes, HeCompletes, Sub32, Valid;
  }

  // ----- the two decoders do not depend on each other -----

  /** The same but for the Home Easy decoder. */
  predicate SameNc(a: State, b: State)
  {
    a.oldTime == b.oldTime && a.nc == b.nc
  }

  /** What is received of one protocol does not depend on the state of the
      decoder of the other. */
  lemma {:induction false} DecodersAreIndependent(a: State, b: State, times: seq<Word32>)
    requires Valid(a) && Valid(b) && SameNc(a, b)
    ensures SameNc(Run(a, times), Run(b, times))
    ensures Messages(EventLog(a, times)) == Messages(EventLog(b, times))
    decreases |times|
  {
    assert |a.nc.buffer| == |b.nc.buffer| == NC_DATA_SIZE;
    if times != [] {
      var t, later := times[0], times[1..];
      StepValid(a, t);
      StepValid(b, t);
      assert SameNc(Step(a, t), Step(b, t));
      hide Step, Valid, NcStep, NcPublishes, EventsAt;
      MessagesAt(a, t);
      MessagesAt(b, t);
      DecodersAreIndependent(Step(a, t), Step(b, t), later);
      MessagesConcat(EventsAt(a, t), EventLog(Step(a, t), later));
      MessagesConcat(EventsAt(b, t), EventLog(Step(b, t), later));
    }
  }

  // ----- when something is published does not depend on what -----

  /** The same but for the symbols received so far. */
  predicate InTime(a: State, b: State)
  {
    a.oldTime == b.oldTime && a.nc.count == b.nc.count && a.nc.timebase == b.nc.timebase
  }

  lemma StepInTime(a: State, b: State, now: Word32)
    requires Valid(a) && Valid(b) && InTime(a, b)
    ensures |a.nc.buffer| == |b.nc.buffer| == NC_DATA_SIZE
    ensures InTime(Step(a, now), Step(b, now))
    ensures NcPublishes(a.nc, now, Sub32(now, a.oldTime)) <==> NcPublishes(b.nc, now, Sub32(now, b.oldTime))
  {
    var gap := Sub32(now, a.oldTime);
    assert |a.nc.buffer| == |b.nc.buffer| == NC_DATA_SIZE;
    assert Step(a, now).oldTime == now == Step(b, now).oldTime;
    assert a.nc.count < 31 || a.nc.count == 0xFFFF_FFFF;
    hide Valid, Step, NcPublishes, Sub32, BetweenSlots, NearestSlot, StartGap;
    if !StartGap(gap) {
      PulseEdge(a, now);
      PulseEdge(b, now);
    } else if a.nc.count < 31 {
      StartInMessage(a, now);
      StartInMessage(b, now);
    } else {
      StartWhenIdle(a, now);
      StartWhenIdle(b, now);
    }
  }

  lemma {:induction false} TimingOnly(a: State, b: State, times: seq<Word32>)
    requires Valid(a) && Valid(b) && InTime(a, b)
    ensures |Messages(EventLog(a, times))| == |Messages(EventLog(b, times))|
    decreases |times|
  {
    assert |a.nc.buffer| == |b.nc.buffer| == NC_DATA_SIZE;
    if times != [] {
      var t, later := times[0], times[1..];
      StepValid(a, t);
      StepValid(b, t);
      hide Step, Valid, NcPublishes, EventsAt, InTime;
      StepInTime(a, b, t);
      MessagesAt(a, t);
      MessagesAt(b, t);
      TimingOnly(Step(a, t), Step(b, t), later);
      MessagesConcat(EventsAt(a, t), EventLog(Step(a, t), later));
      MessagesConcat(EventsAt(b, t), EventLog(Step(b, t), later));
    }
  }

  // ----- inside a symbol -----

  /** The new code decoder is in symbol i, past j data bits. */
  ghost predicate NcInSymbol(c: Nc, msg: seq<Sym>, T: int, i: nat, j: nat, t0: int)
  {
    && i < NC_DATA_SIZE && j <= 5 && c.count == i && c.timebase == t0 % WRAP
    && -SLACK <= t0 - (T + NC_SYMBOL_TIME * i + NC_PULSE * 3) <= SLACK && Holds(c.buffer, msg, i, j)
  }

  /** The same state with the Home Easy decoder reset. */
  function Calm(st: State): State
  {
    st.(he := st.he.(state := Reset))
  }

  lemma CalmIsValid(st: State)
    requires Valid(st)
    ensures Valid(Calm(st)) && SameNc(Calm(st), st)
  {
  }

  /** Back on the grid of the symbol. */
  lemma CalmInSymbol(st: State, msg: seq<Sym>, T: int, i: nat, j: nat, t0: int, tl: int)
    requires Valid(st) && NcInSymbol(st.nc, msg, T, i, j, t0) && st.oldTime == tl % WRAP && j > 0
    requires -SLACK <= tl - (T + NC_SYMBOL_TIME * i + NC_PULSE * 3 + NC_PULSE * 2 * j) <= SLACK
    ensures InSymbol(Calm(st), msg, T, i, j, j, t0, tl)
  {
    CalmIsValid(st);
    hide Valid, Holds;
  }

  /** An edge that is not a bit: the gap before it is that of a start code, or it
      is between the places for bits. */
  predicate Ignorable(gap: nat, dist: nat)
  {
    672 <= gap < 864 || BetweenSlots(dist)
  }

  /** It is ignored: the decoder stays as it is, but for the time of the last edge. */
  lemma StrayIgnored(st: State, msg: seq<Sym>, T: int, i: nat, j: nat, t0: int, tl: int, x: int)
    requires Valid(st) && NcInSymbol(st.nc, msg, T, i, j, t0) && st.oldTime == tl % WRAP
    requires t0 <= tl <= x && x - t0 < 3744 && Ignorable(x - tl, x - t0)
    ensures var next := Step(st, x % WRAP);
      Valid(next) && next.nc == st.nc && next.oldTime == x % WRAP && Messages(EventsAt(st, x % WRAP)) == []
  {
    hide Valid, Step, NcPublishes, EventsAt, Sub32, Holds, Messages;
    StepClock(st, x % WRAP);
    GapOfTimes(tl, x);
    GapOfTimes(t0, x);
    StepValid(st, x % WRAP);
    MessagesAt(st, x % WRAP);
    if StartGap(x - tl) {
      StartInMessage(st, x % WRAP);
    } else {
      PulseEdge(st, x % WRAP);
    }
  }

  /** The next bit that is one. */
  lemma {:induction false} NextOne(c: Nc, msg: seq<Sym>, T: int, i: nat, j: nat, t0: int) returns (k: nat)
    requires |msg| == NC_DATA_SIZE && NcInSymbol(c, msg, T, i, j, t0)
    ensures NcInSymbol(c, msg, T, i, k, t0) && (k < 5 ==> BitOf(msg[i], 5, k) == 1)
    ensures DataEdges(msg[i], NC_SYMBOL_TIME * i, j) == DataEdges(msg[i], NC_SYMBOL_TIME * i, k)
    decreases 5 - j
  {
    if j == 5 || BitOf(msg[i], 5, j) == 1 {
      k := j;
    } else {
      FieldStep(BitsOf(msg[i], 5), 0, 5, j);
      ShiftZero(4 - j);
      OrZero(Field(BitsOf(msg[i], 5), 0, 5, j));
      hide Field, Or, ShiftLeft, BitOf;
      k := NextOne(c, msg, T, i, j + 1, t0);
    }
  }

  /** The rest of a frame, from inside a symbol. */
  lemma Finishes(st: State, msg: seq<Sym>, T: int, i: nat, j: nat, m: nat, t0: int, tl: int, ts: seq<int>)
    requires InSymbol(st, msg, T, i, j, m, t0, tl) && |msg| == NC_DATA_SIZE
    requires Near(ts, DataEdges(msg[i], NC_SYMBOL_TIME * i, j) + Rest(msg, i + 1, NC_DATA_SIZE), T, SLACK)
    ensures Valid(st) && Messages(EventLog(st, Stamps(ts))) == [msg]
  {
    InSymbolValid(st, msg, T, i, j, m, t0, tl);
    hide InSymbol, Near, DataEdges, Rest, Goes, Received, Valid, PublishedBy, Messages;
    var data, t2, later := RestOfSymbol(msg, T, i, j, ts);
    var next := SymbolCloses(st, msg, T, i, j, m, t0, tl, data, t2);
    var end, tb := SymbolsFrom(next, msg, T, i + 1, NC_DATA_SIZE, t0, t2, later);
    GoesOn(st, data + [t2], next, PublishedBy(msg, i), later, end, PublishedFrom(msg, i + 1, NC_DATA_SIZE));
    PublishedOnce(msg, i, NC_DATA_SIZE);
    GoesMeans(st, ts, end, [NewCode(msg)]);
    OneMessage(msg);
  }

  lemma RestOfSymbol(msg: seq<Sym>, T: int, i: nat, j: nat, ts: seq<int>)
    returns (data: seq<int>, t2: int, later: seq<int>)
    requires i < |msg| == NC_DATA_SIZE
    requires Near(ts, DataEdges(msg[i], NC_SYMBOL_TIME * i, j) + Rest(msg, i + 1, NC_DATA_SIZE), T, SLACK)
    ensures Near(data, DataEdges(msg[i], NC_SYMBOL_TIME * i, j), T, SLACK)
    ensures -SLACK <= t2 - (T + NC_SYMBOL_TIME * (i + 1)) <= SLACK
    ensures Near(later, Rest(msg, i + 1, NC_DATA_SIZE)[1..], T, SLACK) && ts == data + [t2] + later
  {
    hide Near, DataEdges, Rest;
    var es, rest := DataEdges(msg[i], NC_SYMBOL_TIME * i, j), Rest(msg, i + 1, NC_DATA_SIZE);
    RestHead(msg, i + 1, NC_DATA_SIZE);
    NearSplit(ts, es, rest, T, SLACK);
    var b := ts[|es|..];
    NearFront(b, rest, T, SLACK);
    data, t2, later := ts[..|es|], b[0], b[1..];
    assert b == [t2] + later;
  }

  lemma OneMessage(message: seq<nat>)
    ensures Messages([NewCode(message)]) == [message] && Messages([]) == []
  {
    assert [NewCode(message)][1..] == [];
  }

  // ----- the next edge after the stray one -----

  /** The gap after the stray edge is taken for that of a start code. */
  predicate Lost(x: int, next: int)
  {
    672 <= next - x < 864
  }

  /** The symbol without bit k. */
  function Without(s: Sym, k: nat): (r: Sym)
    requires k < 5 && BitOf(s, 5, k) == 1
    ensures r != s && forall t :: 0 <= t < 5 ==> BitOf(r, 5, t) == if t == k then 0 else BitOf(s, 5, t)
  {
    assert Pow2(5) == 32;
    ClearedBits(s, k);
    ValueOf(BitsOf(s, 5)[k := 0])
  }

  lemma ClearedBits(s: Sym, k: nat)
    requires k < 5
    ensures forall t :: 0 <= t < 5 ==>
      BitOf(ValueOf(BitsOf(s, 5)[k := 0]), 5, t) == if t == k then 0 else BitOf(s, 5, t)
  {
    hide BitOf, ValueOf;
    var bits := BitsOf(s, 5)[k := 0];
    forall t | 0 <= t < 5
      ensures BitOf(ValueOf(bits), 5, t) == bits[t]
    {
      BitOfValue(bits, t);
    }
  }

  lemma {:induction false} SameBitsSameEdges(v: nat, w: nat, base: int, j: nat)
    requires forall t :: j <= t < 5 ==> BitOf(v, 5, t) == BitOf(w, 5, t)
    ensures DataEdges(v, base, j) == DataEdges(w, base, j)
    decreases 5 - j
  {
    hide BitOf;
    if j < 5 {
      SameBitsSameEdges(v, w, base, j + 1);
    }
  }

  /** Missing bit k is receiving the symbol without it. */
  lemma HoldsWithout(buffer: seq<nat>, msg: seq<Sym>, i: nat, k: nat)
    requires Holds(buffer, msg, i, k) && i < NC_DATA_SIZE && k < 5 && BitOf(msg[i], 5, k) == 1
    ensures Holds(buffer, msg[i := Without(msg[i], k)], i, k + 1)
  {
    var s := Without(msg[i], k);
    var a, b := BitsOf(msg[i], 5), BitsOf(s, 5);
    FieldStep(b, 0, 5, k);
    ShiftZero(4 - k);
    assert a[0..k] == b[0..k];
    assert Field(a, 0, 5, k) == Field(b, 0, 5, k);
    OrZero(Field(b, 0, 5, k));
    hide Field, Or, ShiftLeft, BitOf;
  }

  lemma BitKept(st: State, msg: seq<Sym>, T: int, i: nat, k: nat, t0: int, x: int, t: int)
    requires Valid(st) && NcInSymbol(st.nc, msg, T, i, k, t0) && st.oldTime == x % WRAP && t0 <= x <= t
    requires k < 5 && i < |msg| && BitOf(msg[i], 5, k) == 1 && !Lost(x, t)
    requires -SLACK <= t - (T + NC_SYMBOL_TIME * i + DataTime(k)) <= SLACK
    ensures NcInSymbol(Step(st, t % WRAP).nc, msg, T, i, k + 1, t0)
    ensures !NcPublishes(st.nc, t % WRAP, Sub32(t % WRAP, st.oldTime))
  {
    DataTimeIs(k);
    GapOfTimes(x, t);
    GapOfTimes(t0, t);
    hide Valid, EventsAt, Sub32, Holds, BitOf, DataTime, HeStep, NcStep, NcPublishes, Or, Pow2;
    PulseStep(st.nc, t % WRAP, t - x, k + 1);
    HoldsOneMoreBit(st.nc.buffer, msg, i, k);
  }

  lemma BitLost(st: State, msg: seq<Sym>, T: int, i: nat, k: nat, t0: int, x: int, t: int)
    requires Valid(st) && NcInSymbol(st.nc, msg, T, i, k, t0) && st.oldTime == x % WRAP && t0 <= x <= t
    requires k < 5 && i < |msg| && BitOf(msg[i], 5, k) == 1 && Lost(x, t)
    requires -SLACK <= t - (T + NC_SYMBOL_TIME * i + DataTime(k)) <= SLACK
    ensures NcInSymbol(Step(st, t % WRAP).nc, msg[i := Without(msg[i], k)], T, i, k + 1, t0)
    ensures !NcPublishes(st.nc, t % WRAP, Sub32(t % WRAP, st.oldTime))
  {
    DataTimeIs(k);
    GapOfTimes(x, t);
    GapOfTimes(t0, t);
    hide Valid, Step, NcPublishes, EventsAt, Sub32, Holds, Without, BitOf, DataTime;
    StartInMessage(st, t % WRAP);
    HoldsWithout(st.nc.buffer, msg, i, k);
  }

  /** A bit after the stray edge is received unless it is lost, and then the
      message goes on as if it had not been there. */
  lemma BitAfterStray(st: State, msg: seq<Sym>, T: int, i: nat, k: nat, t0: int, x: int, t: int)
    requires Valid(st) && NcInSymbol(st.nc, msg, T, i, k, t0) && st.oldTime == x % WRAP && t0 <= x <= t
    requires k < 5 && i < |msg| && BitOf(msg[i], 5, k) == 1
    requires -SLACK <= t - (T + NC_SYMBOL_TIME * i + DataTime(k)) <= SLACK
    ensures var next, meant := Step(st, t % WRAP), if Lost(x, t) then msg[i := Without(msg[i], k)] else msg;
      && Valid(next) && Messages(EventsAt(st, t % WRAP)) == []
      && InSymbol(Calm(next), meant, T, i, k + 1, k + 1, t0, t)
  {
    hide Valid, Step, NcPublishes, EventsAt, Sub32, NcInSymbol, Without, BitOf, DataTime, Messages;
    StepClock(st, t % WRAP);
    StepValid(st, t % WRAP);
    MessagesAt(st, t % WRAP);
    DataTimeIs(k);
    var next, meant := Step(st, t % WRAP), if Lost(x, t) then msg[i := Without(msg[i], k)] else msg;
    if Lost(x, t) {
      BitLost(st, msg, T, i, k, t0, x, t);
    } else {
      BitKept(st, msg, T, i, k, t0, x, t);
    }
    CalmInSymbol(next, meant, T, i, k + 1, t0, t);
  }

  lemma StopKept(st: State, msg: seq<Sym>, T: int, i: nat, t0: int, x: int, t: int)
    requires Valid(st) && NcInSymbol(st.nc, msg, T, i, 5, t0) && st.oldTime == x % WRAP && t0 <= x <= t
    requires -SLACK <= t - (T + NC_SYMBOL_TIME * (i + 1)) <= SLACK && !Lost(x, t)
    ensures var next := Step(st, t % WRAP);
      && NcPublishes(st.nc, t % WRAP, Sub32(t % WRAP, st.oldTime)) == (i + 1 == NC_DATA_SIZE)
      && (i + 1 < NC_DATA_SIZE ==>
            next.nc.count == i + 1 && next.nc.timebase == t0 % WRAP && Holds(next.nc.buffer, msg, i + 1, 0))
      && (i + 1 == NC_DATA_SIZE ==> next.nc.count == IDLE && next.nc.code == msg && next.nc.ready)
  {
    GapOfTimes(x, t);
    GapOfTimes(t0, t);
    hide Valid, EventsAt, Sub32, Holds, HeStep, NcStep, NcPublishes, Or, Pow2;
    PulseStep(st.nc, t % WRAP, t - x, 6);
    HoldsSymbol(st.nc.buffer, msg, i);
  }

  /** The end of the symbol after the stray edge, if it is not lost. */
  lemma StopAfterStray(st: State, msg: seq<Sym>, T: int, i: nat, t0: int, x: int, t: int)
    requires Valid(st) && NcInSymbol(st.nc, msg, T, i, 5, t0) && st.oldTime == x % WRAP && t0 <= x <= t
    requires -SLACK <= t - (T + NC_SYMBOL_TIME * (i + 1)) <= SLACK && !Lost(x, t)
    ensures var next := Step(st, t % WRAP);
      && Valid(next) && Received(Calm(next), msg, T, i + 1, t0, t)
      && Messages(EventsAt(st, t % WRAP)) == if i + 1 == NC_DATA_SIZE then [msg] else []
  {
    assert |msg| == NC_DATA_SIZE;
    hide Valid, Step, NcPublishes, EventsAt, Sub32, Holds, Messages;
    StepClock(st, t % WRAP);
    StepValid(st, t % WRAP);
    MessagesAt(st, t % WRAP);
    StopKept(st, msg, T, i, t0, x, t);
    CalmIsValid(Step(st, t % WRAP));
  }

  /** If it is lost nothing changes. */
  lemma StopLost(st: State, msg: seq<Sym>, T: int, i: nat, t0: int, x: int, t: int)
    requires Valid(st) && NcInSymbol(st.nc, msg, T, i, 5, t0) && st.oldTime == x % WRAP && t0 <= x <= t
    requires -SLACK <= t - (T + NC_SYMBOL_TIME * (i + 1)) <= SLACK && Lost(x, t)
    ensures var next := Step(st, t % WRAP);
      && Valid(next) && next.nc == st.nc && next.oldTime == t % WRAP && Messages(EventsAt(st, t % WRAP)) == []
  {
    hide Valid, Step, NcPublishes, EventsAt, Sub32, Holds, Messages;
    StepClock(st, t % WRAP);
    StepValid(st, t % WRAP);
    MessagesAt(st, t % WRAP);
    GapOfTimes(x, t);
    GapOfTimes(t0, t);
    StartInMessage(st, t % WRAP);
  }

  // ----- one symbol behind -----

  /** The same edges, later. */
  function Later(es: seq<int>, d: int): (r: seq<int>)
    ensures |r| == |es|
    ensures forall k :: 0 <= k < |es| ==> r[k] == es[k] + d
  {
    seq(|es|, k requires 0 <= k < |es| => es[k] + d)
  }

  lemma LaterConcat(a: seq<int>, b: seq<int>, d: int)
    ensures Later(a + b, d) == Later(a, d) + Later(b, d)
  {
  }

  lemma {:induction false} DataLater(symbol: nat, base: int, d: int, j: nat)
    ensures DataEdges(symbol, base + d, j) == Later(DataEdges(symbol, base, j), d)
    decreases SYMBOL_SIZE - j
  {
    hide BitOf;
    if j < SYMBOL_SIZE {
      DataLater(symbol, base, d, j + 1);
      var now, rest := base + DataTime(j), DataEdges(symbol, base, j + 1);
      LaterConcat([now], rest, d);
      assert Later([now], d) == [now + d];
      hide Later;
    } else {
      assert Later([], d) == [];
    }
  }

  lemma {:induction false} FrameLater(a: seq<Byte>, b: seq<Byte>, i: nat)
    requires i <= |b| && |a| == |b| + 1 && a[i + 1..] == b[i..]
    ensures Frame(a, i + 1) == Later(Frame(b, i), NC_SYMBOL_TIME)
    decreases |b| - i
  {
    hide DataEdges;
    assert NC_SYMBOL_TIME * (i + 1) == NC_SYMBOL_TIME * i + NC_SYMBOL_TIME;
    if i < |b| {
      assert a[i + 1] == a[i + 1..][0] == b[i..][0] == b[i];
      assert a[i + 2..] == a[i + 1..][1..] && b[i + 1..] == b[i..][1..];
      FrameLater(a, b, i + 1);
      var base := NC_SYMBOL_TIME * i;
      DataLater(b[i], base, NC_SYMBOL_TIME, 0);
      var two, data := [base, base + NC_PULSE * 3], DataEdges(b[i], base, 0);
      LaterConcat(two + data, Frame(b, i + 1), NC_SYMBOL_TIME);
      LaterConcat(two, data, NC_SYMBOL_TIME);
      assert Later(two, NC_SYMBOL_TIME) == [base + NC_SYMBOL_TIME, base + NC_PULSE * 3 + NC_SYMBOL_TIME];
      hide Later;
    } else {
      assert Later([NC_SYMBOL_TIME * i], NC_SYMBOL_TIME) == [NC_SYMBOL_TIME * (i + 1)];
    }
  }

  lemma NearLater(ts: seq<int>, es: seq<int>, d: int, T: int, eps: int)
    requires Near(ts, Later(es, d), T, eps)
    ensures Near(ts, es, T + d, eps)
  {
    assert forall k :: 0 <= k < |es| ==> Later(es, d)[k] == es[k] + d;
  }

  /** The message without symbol i, as far as its timing goes. */
  function Lagging(msg: seq<Sym>, i: nat): (m: seq<Sym>)
    requires i < |msg|
    ensures |m| == |msg|
  {
    msg[..i] + msg[i + 1..] + [0]
  }

  lemma LaggingRest(msg: seq<Sym>, i: nat, T: int, ts: seq<int>)
    requires i + 1 < |msg| == NC_DATA_SIZE && Near(ts, Rest(msg, i + 1, NC_DATA_SIZE)[1..], T, SLACK)
    ensures Near(ts, Rest(Lagging(msg, i), i, NC_DATA_SIZE - 1)[1..], T + NC_SYMBOL_TIME, SLACK)
  {
    var b := Lagging(msg, i)[..NC_DATA_SIZE - 1];
    assert msg[..NC_DATA_SIZE] == msg && b == msg[..i] + msg[i + 1..];
    assert msg[i + 1..] == b[i..];
    RestHead(Lagging(msg, i), i, NC_DATA_SIZE - 1);
    FrameLater(msg, b, i);
    var es := Frame(b, i);
    hide Frame, Near, Lagging;
    assert Later(es, NC_SYMBOL_TIME)[1..] == Later(es[1..], NC_SYMBOL_TIME);
    NearLater(ts, es[1..], NC_SYMBOL_TIME, T, SLACK);
  }

  /** The decoder in its place, without the symbol it has not finished. */
  lemma BehindIsBoundary(st: State, msg: seq<Sym>, T: int, i: nat, t0: int, t: int) returns (b: State)
    requires Valid(st) && NcInSymbol(st.nc, msg, T, i, 5, t0) && st.oldTime == t % WRAP
    requires -SLACK <= t - (T + NC_SYMBOL_TIME * (i + 1)) <= SLACK
    ensures Valid(b) && InTime(st, b) && AtBoundary(b, Lagging(msg, i), T + NC_SYMBOL_TIME, i, t0, t)
  {
    b := Calm(st.(nc := st.nc.(buffer := st.nc.buffer[i := 0])));
    FieldStarts(Lagging(msg, i)[i]);
    hide Field;
  }

  /** After that the count is one behind, and the frame ends unpublished. */
  lemma NothingIsPublished(st: State, msg: seq<Sym>, T: int, i: nat, t0: int, t: int, ts: seq<int>)
    requires Valid(st) && NcInSymbol(st.nc, msg, T, i, 5, t0) && st.oldTime == t % WRAP
    requires -SLACK <= t - (T + NC_SYMBOL_TIME * (i + 1)) <= SLACK && i < |msg| == NC_DATA_SIZE
    requires Near(ts, Rest(msg, i + 1, NC_DATA_SIZE)[1..], T, SLACK)
    ensures Messages(EventLog(st, Stamps(ts))) == []
  {
    if i + 1 == NC_DATA_SIZE {
      RestHead(msg, i + 1, NC_DATA_SIZE);
      hide Valid, Rest, NcInSymbol;
      assert ts == [] && Stamps(ts) == [];
    } else {
      hide Valid, NcInSymbol, AtBoundary, Near, Rest, Goes, InTime, Lagging;
      var b := BehindIsBoundary(st, msg, T, i, t0, t);
      LaggingRest(msg, i, T, ts);
      var end, tb := SymbolsFrom(b, Lagging(msg, i), T + NC_SYMBOL_TIME, i, NC_DATA_SIZE - 1, t0, t, ts);
      GoesMeans(b, ts, end, []);
      TimingOnly(st, b, Stamps(ts));
      OneMessage([]);
    }
  }

  // ----- the whole frame -----

  lemma {:induction false} SameTail(a: seq<Byte>, b: seq<Byte>, i: nat)
    requires i <= |a| == |b| && a[i..] == b[i..]
    ensures Frame(a, i) == Frame(b, i)
    decreases |a| - i
  {
    hide DataEdges;
    if i < |a| {
      assert a[i] == a[i..][0] == b[i..][0] == b[i];
      assert a[i + 1..] == a[i..][1..] && b[i + 1..] == b[i..][1..];
      SameTail(a, b, i + 1);
    }
  }

  /** The message as it is received when bit k of symbol i is lost, or not. */
  lemma Meant(msg: seq<Sym>, i: nat, k: nat, lost: bool) returns (meant: seq<Sym>)
    requires i < |msg| == NC_DATA_SIZE && k < 5 && BitOf(msg[i], 5, k) == 1
    ensures meant == if lost then msg[i := Without(msg[i], k)] else msg
    ensures meant == msg <==> !lost
    ensures DataEdges(meant[i], NC_SYMBOL_TIME * i, k + 1) == DataEdges(msg[i], NC_SYMBOL_TIME * i, k + 1)
    ensures Rest(meant, i + 1, NC_DATA_SIZE) == Rest(msg, i + 1, NC_DATA_SIZE)
  {
    var s, base := msg[i], NC_SYMBOL_TIME * i;
    hide DataEdges, Frame, BitOf;
    meant := if lost then msg[i := Without(s, k)] else msg;
    hide Without;
    SameBitsSameEdges(s, meant[i], base, k + 1);
    assert msg[..NC_DATA_SIZE] == msg && meant[..NC_DATA_SIZE] == meant && msg[i + 1..] == meant[i + 1..];
    SameTail(msg, meant, i + 1);
  }

  /** The next edge and those after it. */
  lemma BitFront(msg: seq<Sym>, i: nat, k: nat, T: int, ts: seq<int>)
    requires i < |msg| == NC_DATA_SIZE && k < 5 && BitOf(msg[i], 5, k) == 1
    requires Near(ts, DataEdges(msg[i], NC_SYMBOL_TIME * i, k) + Rest(msg, i + 1, NC_DATA_SIZE), T, SLACK)
    ensures ts != [] && -SLACK <= ts[0] - (T + NC_SYMBOL_TIME * i + DataTime(k)) <= SLACK
    ensures Near(ts[1..], DataEdges(msg[i], NC_SYMBOL_TIME * i, k + 1) + Rest(msg, i + 1, NC_DATA_SIZE), T, SLACK)
  {
    var base := NC_SYMBOL_TIME * i;
    hide Rest, BitOf, Near;
    var es, later, rest := DataEdges(msg[i], base, k), DataEdges(msg[i], base, k + 1), Rest(msg, i + 1, NC_DATA_SIZE);
    assert es == [base + DataTime(k)] + later;
    hide DataEdges, DataTime;
    assert (es + rest)[1..] == later + rest && (es + rest)[0] == base + DataTime(k);
    NearFront(ts, es + rest, T, SLACK);
  }

  lemma AfterBit(st: State, msg: seq<Sym>, T: int, i: nat, k: nat, t0: int, x: int, ts: seq<int>)
    requires Valid(st) && NcInSymbol(st.nc, msg, T, i, k, t0) && st.oldTime == x % WRAP && i < |msg| == NC_DATA_SIZE
    requires k < 5 && BitOf(msg[i], 5, k) == 1
    requires Near(ts, DataEdges(msg[i], NC_SYMBOL_TIME * i, k) + Rest(msg, i + 1, NC_DATA_SIZE), T, SLACK)
    requires ts != [] ==> t0 <= x <= ts[0]
    ensures ts != [] && (Messages(EventLog(st, Stamps(ts))) == [msg] <==> !Lost(x, ts[0]))
  {
    hide Valid, NcInSymbol, Near, Rest, DataEdges, DataTime, BitOf, Without, Step, EventsAt, InSymbol, Lost, Stamps;
    BitFront(msg, i, k, T, ts);
    var meant := Meant(msg, i, k, Lost(x, ts[0]));
    RunFront(st, ts);
    BitAfterStray(st, msg, T, i, k, t0, x, ts[0]);
    var next := Step(st, ts[0] % WRAP);
    CalmIsValid(next);
    Finishes(Calm(next), meant, T, i, k + 1, k + 1, t0, ts[0], ts[1..]);
    DecodersAreIndependent(Calm(next), next, Stamps(ts[1..]));
    MessagesConcat(EventsAt(st, ts[0] % WRAP), EventLog(next, Stamps(ts[1..])));
    assert [] + [meant] == [meant];
  }

  lemma AfterLast(st: State, msg: seq<Sym>, T: int, i: nat, t0: int, x: int, ts: seq<int>)
    requires Valid(st) && NcInSymbol(st.nc, msg, T, i, 5, t0) && st.oldTime == x % WRAP && i < |msg| == NC_DATA_SIZE
    requires Near(ts, Rest(msg, i + 1, NC_DATA_SIZE), T, SLACK)
    requires ts != [] ==> t0 <= x <= ts[0]
    ensures ts != [] && (Messages(EventLog(st, Stamps(ts))) == [msg] <==> !Lost(x, ts[0]))
  {
    hide Valid, NcInSymbol, Rest, Step, EventsAt, Received, Lost, Stamps, Goes, Messages, PublishedFrom;
    RestHead(msg, i + 1, NC_DATA_SIZE);
    NearFront(ts, Rest(msg, i + 1, NC_DATA_SIZE), T, SLACK);
    hide Near;
    OneMessage(msg);
    RunFront(st, ts);
    var next, later := Step(st, ts[0] % WRAP), ts[1..];
    MessagesConcat(EventsAt(st, ts[0] % WRAP), EventLog(next, Stamps(later)));
    if Lost(x, ts[0]) {
      StopLost(st, msg, T, i, t0, x, ts[0]);
      NothingIsPublished(next, msg, T, i, t0, ts[0], later);
    } else {
      StopAfterStray(st, msg, T, i, t0, x, ts[0]);
      RestIsPublished(next, msg, T, i, t0, ts[0], later);
    }
  }

  /** The symbols after symbol i. */
  lemma RestIsPublished(st: State, msg: seq<Sym>, T: int, i: nat, t0: int, t: int, ts: seq<int>)
    requires Valid(st) && Received(Calm(st), msg, T, i + 1, t0, t) && i < |msg| == NC_DATA_SIZE
    requires Near(ts, Rest(msg, i + 1, NC_DATA_SIZE)[1..], T, SLACK)
    ensures Messages(EventLog(st, Stamps(ts))) == if i + 1 == NC_DATA_SIZE then [] else [msg]
  {
    hide Valid, Rest, Near, Received, Stamps, Goes, Messages;
    CalmIsValid(st);
    var end, tb := SymbolsFrom(Calm(st), msg, T, i + 1, NC_DATA_SIZE, t0, t, ts);
    GoesMeans(Calm(st), ts, end, PublishedFrom(msg, i + 1, NC_DATA_SIZE));
    DecodersAreIndependent(Calm(st), st, Stamps(ts));
    OneMessage(msg);
  }

  lemma AfterStray(st: State, msg: seq<Sym>, T: int, i: nat, j: nat, t0: int, x: int, ts: seq<int>)
    requires Valid(st) && NcInSymbol(st.nc, msg, T, i, j, t0) && st.oldTime == x % WRAP && i < |msg| == NC_DATA_SIZE
    requires Near(ts, DataEdges(msg[i], NC_SYMBOL_TIME * i, j) + Rest(msg, i + 1, NC_DATA_SIZE), T, SLACK)
    requires ts != [] ==> t0 <= x <= ts[0]
    ensures ts != [] && (Messages(EventLog(st, Stamps(ts))) == [msg] <==> !Lost(x, ts[0]))
  {
    var base, rest := NC_SYMBOL_TIME * i, Rest(msg, i + 1, NC_DATA_SIZE);
    var k := NextOne(st.nc, msg, T, i, j, t0);
    if k < 5 {
      hide Valid, NcInSymbol, Near, Rest, DataEdges, BitOf, Stamps;
      AfterBit(st, msg, T, i, k, t0, x, ts);
    } else {
      assert DataEdges(msg[i], base, j) == [];
      hide Valid, NcInSymbol, Near, Rest, DataEdges, BitOf, Stamps;
      assert [] + rest == rest;
      AfterLast(st, msg, T, i, t0, x, ts);
    }
  }

  /** The frame up to the first edge of symbol i, its next edge, and the rest. */
  lemma {:induction false} FrameAround(msg: seq<Sym>, h: nat, i: nat)
    requires h <= i < |msg| == NC_DATA_SIZE
    ensures Rest(msg, h, NC_DATA_SIZE)
         == Rest(msg, h, i) + ([NC_SYMBOL_TIME * i + NC_PULSE * 3]
                               + (DataEdges(msg[i], NC_SYMBOL_TIME * i, 0) + Rest(msg, i + 1, NC_DATA_SIZE)))
    decreases i - h
  {
    hide DataEdges, Rest;
    RestHead(msg, h, NC_DATA_SIZE);
    RestHead(msg, h, i);
    var all, some := Rest(msg, h, NC_DATA_SIZE), Rest(msg, h, i);
    assert all == [all[0]] + all[1..] && some == [some[0]] + some[1..];
    if h < i {
      FrameAround(msg, h + 1, i);
    }
  }

  lemma {:induction false} DataBeforeEnd(symbol: nat, base: int, j: nat)
    ensures forall k :: 0 <= k < |DataEdges(symbol, base, j)| ==> DataEdges(symbol, base, j)[k] < base + NC_SYMBOL_TIME
    decreases SYMBOL_SIZE - j
  {
    hide BitOf;
    if j < SYMBOL_SIZE {
      DataBeforeEnd(symbol, base, j + 1);
    }
  }

  /** The edges before the stray one, and those after it. */
  lemma StrayParts(msg: seq<Sym>, T: int, ts: seq<int>, i: nat, q: nat)
    returns (a: seq<int>, t1: int, before: seq<int>, after: seq<int>)
    requires i < |msg| == NC_DATA_SIZE && q <= |DataEdges(msg[i], NC_SYMBOL_TIME * i, 0)|
    requires Near(ts, Frame(msg, 0), T, SLACK)
    ensures Near(a, Frame(msg[..i], 0), T, SLACK) && |a| == EdgesTo(msg, 0, i) + 1
    ensures -SLACK <= t1 - (T + NC_SYMBOL_TIME * i + NC_PULSE * 3) <= SLACK
    ensures Near(before, DataEdges(msg[i], NC_SYMBOL_TIME * i, 0)[..q], T, SLACK)
    ensures Near(after, DataEdges(msg[i], NC_SYMBOL_TIME * i, 0)[q..] + Rest(msg, i + 1, NC_DATA_SIZE), T, SLACK)
    ensures ts == a + [t1] + before + after && |before| == q && after != []
    ensures after[0] <= T + NC_SYMBOL_TIME * (i + 1) + SLACK
  {
    hide DataEdges, Frame, Near;
    var base := NC_SYMBOL_TIME * i;
    assert msg[..NC_DATA_SIZE] == msg && Rest(msg, 0, NC_DATA_SIZE) == Frame(msg, 0);
    assert Rest(msg, 0, i) == Frame(msg[..i], 0);
    assert EdgesTo(msg, 0, i) == |Rest(msg, 0, i)| - 1;
    hide Rest, EdgesTo;
    FrameAround(msg, 0, i);
    RestHead(msg, i + 1, NC_DATA_SIZE);
    RestHead(msg, 0, i);
    var first, data, rest := Rest(msg, 0, i), DataEdges(msg[i], base, 0), Rest(msg, i + 1, NC_DATA_SIZE);
    DataBeforeEnd(msg[i], base, 0);
    var front, back := data[..q], data[q..] + rest;
    assert data + rest == front + back;
    assert back[0] <= base + NC_SYMBOL_TIME;
    NearSplit(ts, first, [base + NC_PULSE * 3] + (front + back), T, SLACK);
    a := ts[..|first|];
    var u := ts[|first|..];
    NearFront(u, [base + NC_PULSE * 3] + (front + back), T, SLACK);
    assert ([base + NC_PULSE * 3] + (front + back))[1..] == front + back;
    t1 := u[0];
    NearSplit(u[1..], front, back, T, SLACK);
    before, after := u[1..][..|front|], u[1..][|front|..];
    NearFront(after, back, T, SLACK);
    assert u == [t1] + (before + after) && ts == a + u;
    JoinFour(a, [t1], before, after);
  }

  lemma JoinFour<X>(a: seq<X>, b: seq<X>, c: seq<X>, d: seq<X>)
    ensures a + (b + (c + d)) == a + b + c + d
  {
  }

  /** The decoder when the stray edge comes. */
  lemma UpToStray(st: State, msg: seq<Sym>, T: int, i: nat, q: nat, a: seq<int>, t1: int, before: seq<int>)
    returns (end: State, j: nat)
    requires Valid(st) && i < |msg| == NC_DATA_SIZE && q <= |DataEdges(msg[i], NC_SYMBOL_TIME * i, 0)|
    requires Near(a, Frame(msg[..i], 0), T, SLACK)
    requires a != [] ==> QuietGap(Sub32(a[0] % WRAP, st.oldTime))
    requires -SLACK <= t1 - (T + NC_SYMBOL_TIME * i + NC_PULSE * 3) <= SLACK
    requires Near(before, DataEdges(msg[i], NC_SYMBOL_TIME * i, 0)[..q], T, SLACK)
    ensures Goes(st, a + [t1] + before, end, Leftover(st))
    ensures Valid(end) && NcInSymbol(end.nc, msg, T, i, j, t1) && end.oldTime == LastEdge(t1, before) % WRAP
    ensures DataEdges(msg[i], NC_SYMBOL_TIME * i, 0)[q..] == DataEdges(msg[i], NC_SYMBOL_TIME * i, j)
  {
    hide Near, Frame, DataEdges, Goes, Valid, AtBoundary, InSymbol, Leftover, QuietGap, NcInSymbol, Step, EventsAt;
    hide LastEdge;
    var boundary, tb := FrameOf(st, msg, i, T, a);
    var tl := a[|a| - 1];
    assert AtBoundary(boundary, msg, T, i, tb, tl) && PublishedFrom(msg, 0, i) == [];
    BoundaryValid(boundary, msg, T, i, tb, tl);
    GoesEnds(st, a, boundary, Leftover(st) + []);
    StartEdge(boundary, msg, T, i, tb, tl, t1);
    OneEdge(boundary, t1);
    var started := Step(boundary, t1 % WRAP);
    var m, last;
    end, j, m, last := DataUntil(started, msg, T, i, 0, 0, t1, t1, q, before);
    InSymbolValid(end, msg, T, i, j, m, t1, last);
    InSymbolIsNc(end, msg, T, i, j, m, t1, last);
    GoesOn(st, a, boundary, Leftover(st) + [], [t1], started, []);
    GoesOn(st, a + [t1], started, Leftover(st) + [] + [], before, end, []);
    assert Leftover(st) + [] + [] + [] == Leftover(st);
  }

  lemma InSymbolIsNc(st: State, msg: seq<Sym>, T: int, i: nat, j: nat, m: nat, t0: int, tl: int)
    requires InSymbol(st, msg, T, i, j, m, t0, tl)
    ensures NcInSymbol(st.nc, msg, T, i, j, t0) && st.oldTime == tl % WRAP
  {
    hide Valid, Holds;
  }

  lemma LogAround(st: State, a: seq<int>, mid: State, log: seq<Event>, x: int, b: seq<int>)
    requires Goes(st, a, mid, log) && Valid(mid)
    requires |mid.nc.buffer| == NC_DATA_SIZE && Valid(Step(mid, x % WRAP))
    ensures EventLog(st, Stamps(a + [x] + b))
         == log + EventsAt(mid, x % WRAP) + EventLog(Step(mid, x % WRAP), Stamps(b))
  {
    hide Valid, Step, EventsAt, Stamps, EventLog, Run;
    OneEdge(mid, x);
    GoesOn(st, a, mid, log, [x], Step(mid, x % WRAP), EventsAt(mid, x % WRAP));
    GoesMeans(st, a + [x], Step(mid, x % WRAP), log + EventsAt(mid, x % WRAP));
    StampsConcat(a + [x], b);
    LogConcat(st, Stamps(a + [x]), Stamps(b));
  }

  /** A stray edge in symbol i, after q of its data edges. When it is no bit by
      its place or its distance from the edge before, the message is published
      all the same, unless its distance to the next edge is that of a start
      code: then that edge is lost, and a wrong message is published or none. */
  lemma StrayEdge(st: State, msg: seq<Sym>, T: int, ts: seq<int>, i: nat, q: nat, x: int)
    requires Valid(st) && |msg| == NC_DATA_SIZE && Near(ts, Frame(msg, 0), T, SLACK)
    requires ts != [] ==> QuietGap(Sub32(ts[0] % WRAP, st.oldTime))
    requires i < NC_DATA_SIZE && q <= |DataEdges(msg[i], NC_SYMBOL_TIME * i, 0)|
    requires var start := EdgesTo(msg, 0, i) + 1;
      var p := start + q;
      p + 1 < |ts| ==> ts[start] <= ts[p] <= x <= ts[p + 1] && Ignorable(x - ts[p], x - ts[start])
    ensures var p := EdgesTo(msg, 0, i) + 1 + q;
      && p + 1 < |ts|
      && (Messages(EventLog(st, Stamps(ts[..p + 1] + [x] + ts[p + 1..]))) == Messages(Leftover(st)) + [msg]
          <==> !(672 <= ts[p + 1] - x < 864))
  {
    hide Near, Frame, DataEdges, Goes, Valid, Leftover, QuietGap, NcInSymbol, Step, EventsAt, Ignorable, Rest, EdgesTo;
    hide Stamps, EventLog, Run, LastEdge;
    var start := EdgesTo(msg, 0, i) + 1;
    var p := start + q;
    var a, t1, before, after := StrayParts(msg, T, ts, i, q);
    assert ts[start] == t1 && ts[p + 1..] == after && ts[..p + 1] == a + [t1] + before && ts[p + 1] == after[0];
    LastBefore(a, t1, before, ts[..p + 1]);
    assert a != [] ==> a[0] == ts[0];
    var mid, j := UpToStray(st, msg, T, i, q, a, t1, before);
    GoesEnds(st, a + [t1] + before, mid, Leftover(st));
    StrayIgnored(mid, msg, T, i, j, t1, ts[p], x);
    LogAround(st, a + [t1] + before, mid, Leftover(st), x, after);
    var next := Step(mid, x % WRAP);
    AfterStray(next, msg, T, i, j, t1, x, after);
    var rest := EventLog(next, Stamps(after));
    MessagesConcat(Leftover(st) + EventsAt(mid, x % WRAP), rest);
    MessagesConcat(Leftover(st), EventsAt(mid, x % WRAP));
    SameFront(Messages(Leftover(st)), Messages(rest), [msg]);
  }

  lemma LastBefore(a: seq<int>, t1: int, before: seq<int>, all: seq<int>)
    requires all == a + [t1] + before
    ensures LastEdge(t1, before) == all[|all| - 1]
  {
  }

  lemma SameFront<X>(a: seq<X>, b: seq<X>, c: seq<X>)
    ensures a + [] + b == a + c <==> b == c
  {
    assert (a + [] + b)[|a|..] == b && (a + c)[|a|..] == c;
  }
}
