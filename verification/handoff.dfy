/** The variables shared by the interrupt and the main loop: every message the
    main loop takes was published whole by one interrupt. */
module Handoff {
  import opened Bits
  import opened Rx433
  import opened RadioEvents

  type Code = c: seq<nat> | |c| == NC_DATA_SIZE witness seq(NC_DATA_SIZE, _ => 0)

  /** Where the main loop is in mail_receive_messages. */
  datatype Place =
    | Elsewhere
    | TestHomeEasy
    | TestReady
    | Copying(i: nat)           // the next byte to copy
    | ClearReady
    | EnableInterrupts

  /** Something the main loop took, and how many had been published by then. */
  datatype Taken<X> = Taken(upTo: nat, code: X)

  /** The variables of the receiver, some of which the main loop reads and
      clears; the main loop's own; and what has happened so far. */
  datatype Shared = Shared(
    radio: State,
    interrupts: bool, place: Place, copy: Code, copied: bool,
    published: seq<Code>, taken: seq<Taken<Code>>,
    codes: seq<nat>, heard: seq<Taken<nat>>)   // Home Easy codes published and taken

  datatype Action = Interrupt(now: Word32) | MainLoop

  /** An interrupt happens only while interrupts are enabled. */
  predicate Possible(s: Shared, a: Action)
  {
    a.Interrupt? ==> s.interrupts
  }

  function InterruptStep(s: Shared, now: Word32): Shared
    requires Valid(s.radio)
  {
    var delta := Sub32(now, s.radio.oldTime);
    StepValid(s.radio, now);
    var next := Rx433.Step(s.radio, now);
    s.(radio := next,
       published := if NcPublishes(s.radio.nc, now, delta) then s.published + [next.nc.code] else s.published,
       codes := if HeCompletes(s.radio.he, delta) then s.codes + [next.he.code] else s.codes)
  }

  function TakeHomeEasy(st: State): State
  {
    st.(he := st.he.(code := 0))
  }

  function TakeReady(st: State): State
  {
    st.(nc := st.nc.(ready := false))
  }

  function MainLoopStep(s: Shared): Shared
    requires Valid(s.radio)
  {
    match s.place
    case Elsewhere => s.(interrupts := false, copied := false, place := TestHomeEasy)
    case TestHomeEasy =>
      if s.radio.he.code == 0 then s.(place := TestReady)
      else s.(heard := s.heard + [Taken(|s.codes|, s.radio.he.code)],
              radio := TakeHomeEasy(s.radio), place := TestReady)
    case TestReady => if s.radio.nc.ready then s.(place := Copying(0)) else s.(place := EnableInterrupts)
    case Copying(i) =>
      if i < NC_DATA_SIZE then s.(copy := s.copy[i := s.radio.nc.code[i]], place := Copying(i + 1))
      else s.(place := ClearReady)
    case ClearReady => s.(radio := TakeReady(s.radio), copied := true, place := EnableInterrupts)
    case EnableInterrupts =>
      var t := if s.copied then s.taken + [Taken(|s.published|, s.copy)] else s.taken;
      s.(interrupts := true, place := Elsewhere, taken := t)
  }

  function Step(s: Shared, a: Action): (next: Shared)
    requires Valid(s.radio)
    ensures Valid(next.radio)
  {
    match a
    case Interrupt(now) => StepValid(s.radio, now); InterruptStep(s, now)
    case MainLoop => MainLoopStep(s)
  }

  predicate Schedule(s: Shared, actions: seq<Action>)
    requires Valid(s.radio)
    decreases |actions|
  {
    actions == [] || (Possible(s, actions[0]) && Schedule(Step(s, actions[0]), actions[1..]))
  }

  function Run(s: Shared, actions: seq<Action>): Shared
    requires Valid(s.radio)
    decreases |actions|
  {
    if actions == [] then s else Run(Step(s, actions[0]), actions[1..])
  }

  /** Each thing taken is the one published last at the time, and nothing is
      taken twice. */
  ghost predicate AllWhole<X>(published: seq<X>, taken: seq<Taken<X>>)
  {
    && (forall k :: 0 <= k < |taken| ==>
          0 < taken[k].upTo <= |published| && taken[k].code == published[taken[k].upTo - 1])
    && (forall j, k :: 0 <= j < k < |taken| ==> taken[j].upTo < taken[k].upTo)
  }

  /** Something was published since the last was taken. */
  predicate NewIn<X>(published: seq<X>, taken: seq<Taken<X>>)
  {
    |published| > 0 && (|taken| == 0 || taken[|taken| - 1].upTo < |published|)
  }

  lemma OneMorePublished<X>(published: seq<X>, taken: seq<Taken<X>>, x: X)
    requires AllWhole(published, taken)
    ensures AllWhole(published + [x], taken) && NewIn(published + [x], taken)
    ensures (published + [x])[|published + [x]| - 1] == x
  {
  }

  lemma OneMoreTaken<X>(published: seq<X>, taken: seq<Taken<X>>)
    requires AllWhole(published, taken) && NewIn(published, taken)
    ensures AllWhole(published, taken + [Taken(|published|, published[|published| - 1])])
  {
  }

  ghost predicate TakenWhole(s: Shared)
  {
    AllWhole(s.published, s.taken)
  }

  /** A Home Easy code that is not zero is the one published last, and is new. */
  ghost predicate HeardWhole(s: Shared)
  {
    && AllWhole(s.codes, s.heard) && (forall k :: 0 <= k < |s.heard| ==> s.heard[k].code != 0)
    && (s.radio.he.code != 0 ==> NewIn(s.codes, s.heard) && s.radio.he.code == s.codes[|s.codes| - 1])
  }

  predicate Fresh(s: Shared)
  {
    NewIn(s.published, s.taken)
  }

  /** A message that is ready is the one published last, and is new. */
  ghost predicate ReadyIsFresh(s: Shared)
  {
    s.radio.nc.ready ==> Fresh(s) && s.radio.nc.code == s.published[|s.published| - 1]
  }

  ghost predicate CopyIsGood(s: Shared)
    requires |s.radio.nc.code| == NC_DATA_SIZE
  {
    && (s.place.Copying? ==>
          s.radio.nc.ready && !s.copied && s.place.i <= NC_DATA_SIZE
          && s.copy[..s.place.i] == s.radio.nc.code[..s.place.i])
    && (s.place.ClearReady? ==> s.radio.nc.ready && !s.copied && s.copy == s.radio.nc.code)
    && (s.place.TestHomeEasy? || s.place.TestReady? ==> !s.copied)
    && (s.place.EnableInterrupts? && s.copied ==>
          !s.radio.nc.ready && Fresh(s) && s.copy == s.published[|s.published| - 1])
  }

  ghost predicate Safe(s: Shared)
  {
    && Valid(s.radio) && (s.interrupts <==> s.place == Elsewhere)
    && TakenWhole(s) && HeardWhole(s) && ReadyIsFresh(s) && CopyIsGood(s)
  }

  function Start(): Shared
  {
    Shared(InitialState(), true, Elsewhere, seq(NC_DATA_SIZE, _ => 0), false, [], [], [], [])
  }

  lemma StartIsSafe()
    ensures Safe(Start())
  {
  }

  lemma InterruptSafe(s: Shared, now: Word32)
    requires Safe(s) && s.interrupts
    ensures Safe(InterruptStep(s, now))
  {
    hide Rx433.Step, HeCompletes, NcPublishes, Sub32, AllWhole, NewIn;
    StepValid(s.radio, now);
    EventsExplain(s.radio, now);
    hide Valid;
    var next := InterruptStep(s, now);
    OneMorePublished(s.published, s.taken, next.radio.nc.code);
    OneMorePublished(s.codes, s.heard, next.radio.he.code);
  }

  lemma CopyByte(copy: Code, code: Code, i: nat)
    requires i < NC_DATA_SIZE && copy[..i] == code[..i]
    ensures copy[i := code[i]][..i + 1] == code[..i + 1]
  {
    assert code[..i + 1] == code[..i] + [code[i]];
  }

  lemma CopySafe(s: Shared)
    requires Safe(s) && s.place.Copying?
    ensures Safe(MainLoopStep(s))
  {
    var i := s.place.i;
    if i < NC_DATA_SIZE {
      CopyByte(s.copy, s.radio.nc.code, i);
    } else {
      assert s.copy[..NC_DATA_SIZE] == s.copy && s.radio.nc.code[..NC_DATA_SIZE] == s.radio.nc.code;
    }
    SameHistory(s, MainLoopStep(s));
    hide TakenWhole, Fresh, HeardWhole, Valid;
  }

  lemma SameHistory(s: Shared, t: Shared)
    requires s.published == t.published && s.taken == t.taken
    ensures TakenWhole(s) == TakenWhole(t) && Fresh(s) == Fresh(t)
  {
  }

  lemma MainLoopSafe(s: Shared)
    requires Safe(s) && !s.place.Copying?
    ensures Safe(MainLoopStep(s))
  {
    assert Valid(MainLoopStep(s).radio);
    hide Valid, AllWhole, NewIn;
    if s.place.EnableInterrupts? && s.copied {
      OneMoreTaken(s.published, s.taken);
    } else if s.place.TestHomeEasy? && s.radio.he.code != 0 {
      OneMoreTaken(s.codes, s.heard);
    }
  }

  lemma StepSafe(s: Shared, a: Action)
    requires Safe(s) && Possible(s, a)
    ensures Safe(Step(s, a))
  {
    hide Safe, InterruptStep, MainLoopStep;
    match a {
      case Interrupt(now) => InterruptSafe(s, now);
      case MainLoop =>
        if s.place.Copying? {
          CopySafe(s);
        } else {
          MainLoopSafe(s);
        }
    }
  }

  /** However interrupts fall between the steps of the main loop, every message
      and every Home Easy code it takes is the one published last, whole, and none
      is taken twice. */
  lemma {:induction false} NeverTorn(s: Shared, actions: seq<Action>)
    requires Safe(s) && Schedule(s, actions)
    ensures Safe(Run(s, actions)) && TakenWhole(Run(s, actions)) && HeardWhole(Run(s, actions))
    decreases |actions|
  {
    assert Valid(s.radio);
    hide Step, TakenWhole, HeardWhole, Valid;
    if actions != [] {
      StepSafe(s, actions[0]);
      NeverTorn(Step(s, actions[0]), actions[1..]);
    }
  }

  // ----- one pass of the main loop -----

  /** Inside a pass nothing but the main loop can move. */
  lemma NoInterruptInside(s: Shared, a: Action)
    requires Safe(s) && s.place != Elsewhere && Possible(s, a)
    ensures a == MainLoop
  {
    hide Valid;
  }

  /** What a pass makes of the receiver's variables. */
  function Cleared(st: State): State
  {
    TakeReady(TakeHomeEasy(st))
  }

  /** What a pass does, all in one. */
  function WholePass(s: Shared): Shared
    requires |s.radio.nc.code| == NC_DATA_SIZE
  {
    s.(radio := Cleared(s.radio),
       copy := if s.radio.nc.ready then s.radio.nc.code else s.copy,
       copied := s.radio.nc.ready,
       taken := if s.radio.nc.ready then s.taken + [Taken(|s.published|, s.radio.nc.code)] else s.taken,
       heard := if s.radio.he.code == 0 then s.heard else s.heard + [Taken(|s.codes|, s.radio.he.code)])
  }

  function Passes(n: nat): (actions: seq<Action>)
    ensures |actions| == n
  {
    seq(n, _ => MainLoop)
  }

  lemma OneMorePass(s: Shared, n: nat)
    requires Valid(s.radio)
    ensures Valid(MainLoopStep(s).radio)
    ensures Run(s, Passes(n + 1)) == Run(MainLoopStep(s), Passes(n))
  {
    assert Step(s, MainLoop) == MainLoopStep(s);
    assert Passes(n + 1)[1..] == Passes(n);
    hide Valid, MainLoopStep;
  }

  lemma NoMorePasses(s: Shared)
    requires Valid(s.radio)
    ensures Run(s, Passes(0)) == s
  {
  }

  /** A complete copy is taken. */
  lemma CopyTaken(s: Shared)
    requires Valid(s.radio) && s.place == Copying(NC_DATA_SIZE) && s.copy == s.radio.nc.code
    ensures Run(s, Passes(3)) == AfterCopy(s)
  {
    hide Run, Passes, Valid;
    OneMorePass(s, 2);
    var s1 := MainLoopStep(s);
    OneMorePass(s1, 1);
    var s2 := MainLoopStep(s1);
    OneMorePass(s2, 0);
    NoMorePasses(MainLoopStep(s2));
  }

  function AfterCopy(s: Shared): Shared
    requires |s.radio.nc.code| == NC_DATA_SIZE
  {
    s.(radio := TakeReady(s.radio), copy := s.radio.nc.code, copied := true, interrupts := true,
       place := Elsewhere, taken := s.taken + [Taken(|s.published|, s.radio.nc.code)])
  }

  lemma {:induction false} CopyCompletes(s: Shared, i: nat)
    requires Valid(s.radio) && s.place == Copying(i) && i <= NC_DATA_SIZE
    requires s.copy[..i] == s.radio.nc.code[..i]
    ensures Run(s, Passes(NC_DATA_SIZE - i + 3)) == AfterCopy(s)
    decreases NC_DATA_SIZE - i
  {
    hide Run, Passes;
    if i < NC_DATA_SIZE {
      var next := MainLoopStep(s);
      OneMorePass(s, NC_DATA_SIZE - i + 2);
      CopyByte(s.copy, s.radio.nc.code, i);
      hide Valid;
      CopyCompletes(next, i + 1);
    } else {
      assert s.copy[..NC_DATA_SIZE] == s.copy && s.radio.nc.code[..NC_DATA_SIZE] == s.radio.nc.code;
      CopyTaken(s);
    }
  }

  /** Up to the test of the ready flag. */
  lemma PassBegins(s: Shared, n: nat) returns (s3: Shared)
    requires Valid(s.radio) && s.place == Elsewhere
    ensures s3 == s.(radio := TakeHomeEasy(s.radio), interrupts := false, copied := false,
                     place := if s.radio.nc.ready then Copying(0) else EnableInterrupts,
                     heard := if s.radio.he.code == 0 then s.heard
                              else s.heard + [Taken(|s.codes|, s.radio.he.code)])
    ensures Valid(s3.radio) && |s.radio.nc.code| == NC_DATA_SIZE && Run(s, Passes(n + 3)) == Run(s3, Passes(n))
  {
    assert |s.radio.nc.code| == NC_DATA_SIZE;
    hide Run, Passes, Valid;
    OneMorePass(s, n + 2);
    var s1 := MainLoopStep(s);
    OneMorePass(s1, n + 1);
    var s2 := MainLoopStep(s1);
    OneMorePass(s2, n);
    s3 := MainLoopStep(s2);
  }

  /** Step by step the critical section does what it does in one, which is how
      mail_receive_messages is modelled elsewhere. */
  lemma PassIsOneStep(s: Shared)
    requires Valid(s.radio) && s.place == Elsewhere && s.interrupts
    ensures Run(s, Passes(if s.radio.nc.ready then NC_DATA_SIZE + 6 else 4)) == WholePass(s)
  {
    hide Run, Passes, Valid;
    if s.radio.nc.ready {
      hide MainLoopStep;
      var s3 := PassBegins(s, NC_DATA_SIZE + 3);
      assert s3.copy[..0] == s3.radio.nc.code[..0];
      CopyCompletes(s3, 0);
    } else {
      var s3 := PassBegins(s, 1);
      OneMorePass(s3, 0);
      NoMorePasses(MainLoopStep(s3));
    }
  }
}
