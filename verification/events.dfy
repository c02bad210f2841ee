/** What the decoder publishes at each edge. */
module RadioEvents {
  import opened Bits
  import opened Rx433

  datatype Event = HomeEasyCode(code: nat) | NewCode(message: seq<nat>)

  /** This gap completes a Home Easy code. */
  predicate HeCompletes(h: He, delta: Word32)
  {
    h.bitCount + 1 >= 32 &&
    match GapOf(delta)
    case Short => h.state == ReceivedLong
    case Long => h.state == ReceivedShort
    case _ => false
  }

  /** This edge makes the new code decoder publish its buffer. */
  predicate NcPublishes(c: Nc, newTime: Word32, delta: Word32)
    requires |c.buffer| == NC_DATA_SIZE
  {
    var delta2 := Sub32(newTime, c.timebase);
    if IsClose(delta, NC_PULSE * 3, EPSILON) then
      var r := Skip(c, newTime, 0);
      r.0.count == NC_DATA_SIZE && r.1 <= MAX_INCOMPLETE_SKIP
    else if c.count >= NC_DATA_SIZE then false
    else if delta2 < NC_SYMBOL_TIME + EPSILON then
      var bit := (delta2 + NC_PULSE) / (NC_PULSE * 2);
      bit > SYMBOL_SIZE && NC_PULSE * 2 * bit < WRAP && IsClose(NC_PULSE * 2 * bit, delta2, EPSILON)
      && c.count + 1 == NC_DATA_SIZE
    else c.count + MAX_INCOMPLETE_SKIP >= NC_DATA_SIZE
  }

  /** The codes published at one edge. */
  function EventsAt(st: State, newTime: Word32): seq<Event>
    requires |st.nc.buffer| == NC_DATA_SIZE
  {
    var delta := Sub32(newTime, st.oldTime);
    var next := Step(st, newTime);
    (if HeCompletes(st.he, delta) then [HomeEasyCode(next.he.code)] else [])
    + (if NcPublishes(st.nc, newTime, delta) then [NewCode(next.nc.code)] else [])
  }

  lemma SilentStep(st: State, newTime: Word32, delta: Word32)
    requires |st.nc.buffer| == NC_DATA_SIZE && delta == Sub32(newTime, st.oldTime)
    requires !HeCompletes(st.he, delta) && !NcPublishes(st.nc, newTime, delta)
    ensures EventsAt(st, newTime) == []
    ensures Step(st, newTime) == State(newTime, HeStep(st.he, delta), NcStep(st.nc, newTime, delta))
  {
    hide HeCompletes, NcPublishes, HeStep, NcStep;
  }

  /** An edge that completes no Home Easy code. */
  lemma NewCodeStep(st: State, newTime: Word32, delta: Word32)
    requires |st.nc.buffer| == NC_DATA_SIZE && delta == Sub32(newTime, st.oldTime) && !HeCompletes(st.he, delta)
    ensures var nc := NcStep(st.nc, newTime, delta);
      && Step(st, newTime) == State(newTime, HeStep(st.he, delta), nc)
      && EventsAt(st, newTime) == if NcPublishes(st.nc, newTime, delta) then [NewCode(nc.code)] else []
  {
    hide HeCompletes, NcPublishes, HeStep, NcStep;
  }

  function EventLog(st: State, times: seq<Word32>): seq<Event>
    requires Valid(st)
    decreases |times|
  {
    if times == [] then []
    else
      StepValid(st, times[0]);
      EventsAt(st, times[0]) + EventLog(Step(st, times[0]), times[1..])
  }

  /** The events account for every change of the published variables. */
  lemma EventsExplain(st: State, newTime: Word32)
    requires Valid(st)
    ensures var next, delta := Step(st, newTime), Sub32(newTime, st.oldTime);
      && (!HeCompletes(st.he, delta) ==> next.he.code == st.he.code)
      && (HeCompletes(st.he, delta) ==> next.he.code == next.he.bitData)
      && (!NcPublishes(st.nc, newTime, delta) ==> next.nc.code == st.nc.code && next.nc.ready == st.nc.ready)
      && (NcPublishes(st.nc, newTime, delta) ==> next.nc.code == st.nc.buffer && next.nc.ready)
  {
    var delta := Sub32(newTime, st.oldTime);
    if IsClose(delta, NC_PULSE * 3, EPSILON) {
      if st.nc.count < NC_DATA_SIZE {
        SkipsAtMostOnce(st.nc, st.oldTime, newTime);
      }
      hide Skip, IsClose, Sub32;
    } else {
      hide Skip, Sub32;
    }
  }

  lemma {:induction false} LogConcat(st: State, a: seq<Word32>, b: seq<Word32>)
    requires Valid(st)
    ensures Valid(Run(st, a)) && EventLog(st, a + b) == EventLog(st, a) + EventLog(Run(st, a), b)
    decreases |a|
  {
    assert |st.nc.buffer| == NC_DATA_SIZE;
    hide Step, Valid, EventsAt;
    RunValid(st, a);
    if a == [] {
      assert a + b == b;
    } else {
      StepValid(st, a[0]);
      assert (a + b)[1..] == a[1..] + b;
      LogConcat(Step(st, a[0]), a[1..], b);
    }
  }
}
