/** The alarm of alarm.c: a state machine kept in non-volatile memory. */
module Alarm {
  import opened Bits

  const WHOLE_DAY := 24 * 60
  const SOUNDS_FOR := 10      // minutes

  datatype State = Disabled | Enabled | Active | Reset

  datatype Alarm = Alarm(time: Word16, state: State)

  function Code(s: State): Byte
  {
    match s
    case Disabled => 0
    case Enabled => 1
    case Active => 2
    case Reset => 3
  }

  function StateOf(code: Byte): State
  {
    if code == 1 then Enabled else if code == 2 then Active else if code == 3 then Reset else Disabled
  }

  /** The time of day k minutes after the alarm time; an alarm time that is none
      of the day counts as midnight. */
  function MinutesAfter(time: Word16, k: nat): (t: nat)
  {
    ((if time < 1440 then time else 0) + k) % 1440
  }

  /** Which minute of the sounding time it is, or none: the ten minutes from
      the alarm time on, across midnight if need be. */
  function Minute(time: Word16, now: nat): (i: nat)
    ensures i <= SOUNDS_FOR
  {
    var start := if time >= WHOLE_DAY then 0 else time;
    var since := (now - start) % WHOLE_DAY;
    if now < WHOLE_DAY && since < SOUNDS_FOR then since + 1 else 0
  }

  lemma MinuteIs(time: Word16, now: nat)
    ensures Minute(time, now) <= 10
    ensures forall k: nat :: k < 10 ==> (Minute(time, now) == k + 1 <==> now == MinutesAfter(time, k))
  {
    var start := if time >= WHOLE_DAY then 0 else time;
    forall k: nat | k < 10
      ensures Minute(time, now) == k + 1 <==> now == MinutesAfter(time, k)
    {
      DayWraps(start + k);
      if now < WHOLE_DAY {
        Since(start, now);
      }
    }
  }

  lemma DayWraps(t: nat)
    requires t < 2 * WHOLE_DAY
    ensures t % 1440 == if t < 1440 then t else t - 1440
  {
  }

  lemma Since(start: nat, now: nat)
    requires start < WHOLE_DAY && now < WHOLE_DAY
    ensures (now - start) % WHOLE_DAY == if now >= start then now - start else now - start + WHOLE_DAY
  {
  }

  // ----- the operations -----

  function Set(a: Alarm, hour: Byte, minute: Byte): Alarm
  {
    Alarm(hour * 60 + minute, Reset)
  }

  function Unset(a: Alarm): Alarm
  {
    a.(state := Disabled)
  }

  function SetAgain(a: Alarm): Alarm
  {
    Set(a, a.time / 60 % 256, a.time % 60)
  }

  /** The new state and the minute to sound, if any. */
  function Update(a: Alarm, now: nat): (Alarm, nat)
  {
    var i := Minute(a.time, now);
    match a.state
    case Active => if i == 0 then (a.(state := Disabled), 0) else (a, i)
    case Enabled => if i == 0 then (a, 0) else (a.(state := Active), i)
    case Reset => if i == 0 then (a.(state := Enabled), 0) else (a, 0)
    case Disabled => (a, 0)
  }

  /** alarm_reset keeps a time of the day. */
  lemma SetAgainKeepsTime(a: Alarm)
    ensures a.time < 1440 ==> SetAgain(a) == Alarm(a.time, Reset)
  {
  }

  // ----- memory -----

  datatype Saved = Saved(hi: Byte, lo: Byte, state: Byte)

  function Save(a: Alarm): Saved
  {
    Saved(a.time / 256, a.time % 256, Code(a.state))
  }

  function Load(s: Saved): Alarm
  {
    var time := s.hi * 256 + s.lo;
    Alarm(if time >= WHOLE_DAY then 0 else time, StateOf(s.state))
  }

  /** A reboot goes unnoticed exactly when the alarm time is one of the day. */
  lemma RebootUnnoticedIff(a: Alarm)
    ensures Load(Save(a)) == a <==> a.time < WHOLE_DAY
  {
    assert a.time / 256 * 256 + a.time % 256 == a.time;
  }

  // ----- runs -----

  datatype Operation =
    | SetAlarm(hour: Byte, minute: Byte)
    | UnsetAlarm
    | ResetAlarm
    | UpdateAlarm(hour: Byte, minute: Byte)
    | Reboot

  /** The alarm, what is saved of it, and everything returned so far. */
  datatype Device = Device(alarm: Alarm, saved: Saved, returned: seq<nat>)

  function Changed(a: Alarm, b: Alarm): nat
  {
    if a.state != b.state then 1 else 0
  }

  function Next(d: Device, op: Operation): Device
  {
    match op
    case SetAlarm(h, m) => var a := Set(d.alarm, h, m); Device(a, Save(a), d.returned + [Changed(d.alarm, a)])
    case UnsetAlarm => var a := Unset(d.alarm); Device(a, Save(a), d.returned + [Changed(d.alarm, a)])
    case ResetAlarm => var a := SetAgain(d.alarm); Device(a, Save(a), d.returned + [Changed(d.alarm, a)])
    case UpdateAlarm(h, m) =>
      var r := Update(d.alarm, h * 60 + m);
      Device(r.0, if r.0.state != d.alarm.state then Save(r.0) else d.saved, d.returned + [r.1])
    case Reboot => var a := Load(d.saved); Device(a, Save(a), d.returned)
  }

  function Run(d: Device, ops: seq<Operation>): Device
    decreases |ops|
  {
    if ops == [] then d else Run(Next(d, ops[0]), ops[1..])
  }

  predicate ValidTime(op: Operation)
  {
    op.SetAlarm? ==> op.hour * 60 + op.minute < WHOLE_DAY
  }

  function WithoutReboots(ops: seq<Operation>): seq<Operation>
    decreases |ops|
  {
    if ops == [] then []
    else if ops[0].Reboot? then WithoutReboots(ops[1..])
    else [ops[0]] + WithoutReboots(ops[1..])
  }

  /** What is saved is the alarm, and its time is one of the day. */
  predicate InStep(d: Device)
  {
    d.saved == Save(d.alarm) && d.alarm.time < WHOLE_DAY
  }

  lemma NextInStep(d: Device, op: Operation)
    requires InStep(d) && ValidTime(op)
    ensures InStep(Next(d, op))
    ensures op.Reboot? ==> Next(d, op) == d
  {
    RebootUnnoticedIff(d.alarm);
    hide Save, Load, Minute;
  }

  /** Reboots anywhere in a run change nothing that is returned, nor the alarm. */
  lemma {:induction false} RebootsUnnoticed(d: Device, ops: seq<Operation>)
    requires InStep(d) && forall i :: 0 <= i < |ops| ==> ValidTime(ops[i])
    ensures Run(d, ops) == Run(d, WithoutReboots(ops))
    decreases |ops|
  {
    hide Next, InStep;
    if ops != [] {
      NextInStep(d, ops[0]);
      RebootsUnnoticed(Next(d, ops[0]), ops[1..]);
      if !ops[0].Reboot? {
        var rest := WithoutReboots(ops[1..]);
        assert ([ops[0]] + rest)[1..] == rest;
      }
    }
  }

  // ----- one alarm, one episode -----

  /** The results of a series of updates, and the alarm after them. */
  function Updates(a: Alarm, nows: seq<nat>): (r: (Alarm, seq<nat>))
    ensures |r.1| == |nows|
    decreases |nows|
  {
    if nows == [] then (a, [])
    else
      var u := Update(a, nows[0]);
      var later := Updates(u.0, nows[1..]);
      (later.0, [u.1] + later.1)
  }

  /** The first update from i on that is inside, or outside, the sounding time. */
  function FirstFrom(time: Word16, nows: seq<nat>, i: nat, inside: bool): (k: nat)
    requires i <= |nows|
    ensures i <= k <= |nows|
    ensures forall j :: i <= j < k ==> (Minute(time, nows[j]) != 0) != inside
    ensures k < |nows| ==> (Minute(time, nows[k]) != 0) == inside
    decreases |nows| - i
  {
    if i == |nows| || (Minute(time, nows[i]) != 0) == inside then i else FirstFrom(time, nows, i + 1, inside)
  }

  /** The result of update k when the state before update i is given. */
  function ResultAt(time: Word16, state: State, nows: seq<nat>, i: nat, k: nat): nat
    requires i <= k < |nows|
    decreases k - i
  {
    var u := Update(Alarm(time, state), nows[i]);
    if k == i then u.1 else ResultAt(time, u.0.state, nows, i + 1, k)
  }

  lemma {:induction false} ResultsAre(a: Alarm, nows: seq<nat>, i: nat, k: nat)
    requires i <= k < |nows|
    ensures Updates(a, nows[i..]).1[k - i] == ResultAt(a.time, a.state, nows, i, k)
    decreases k - i
  {
    hide Minute;
    var u := Update(a, nows[i]);
    assert nows[i..][1..] == nows[i + 1..];
    if i < k {
      ResultsAre(u.0, nows, i + 1, k);
    }
  }

  lemma {:induction false} DisabledIsSilent(time: Word16, nows: seq<nat>, i: nat, k: nat)
    requires i <= k < |nows|
    ensures ResultAt(time, Disabled, nows, i, k) == 0
    decreases k - i
  {
    hide Minute;
    if i < k {
      DisabledIsSilent(time, nows, i + 1, k);
    }
  }

  lemma {:induction false} ActiveSounds(time: Word16, nows: seq<nat>, i: nat, k: nat)
    requires i <= k < |nows|
    ensures ResultAt(time, Active, nows, i, k)
         == if k < FirstFrom(time, nows, i, false) then Minute(time, nows[k]) else 0
    decreases k - i
  {
    hide Minute;
    if i < k {
      if Minute(time, nows[i]) == 0 {
        DisabledIsSilent(time, nows, i + 1, k);
      } else {
        ActiveSounds(time, nows, i + 1, k);
      }
    }
  }

  lemma {:induction false} EnabledWaits(time: Word16, nows: seq<nat>, i: nat, k: nat)
    requires i <= k < |nows|
    ensures var start := FirstFrom(time, nows, i, true);
      var end := FirstFrom(time, nows, start, false);
      ResultAt(time, Enabled, nows, i, k) == if start <= k < end then Minute(time, nows[k]) else 0
    decreases k - i
  {
    hide Minute;
    if i < k {
      if Minute(time, nows[i]) == 0 {
        EnabledWaits(time, nows, i + 1, k);
      } else {
        ActiveSounds(time, nows, i + 1, k);
      }
    }
  }

  lemma {:induction false} ResetWaits(time: Word16, nows: seq<nat>, i: nat, k: nat)
    requires i <= k < |nows|
    ensures var outside := FirstFrom(time, nows, i, false);
      var start := FirstFrom(time, nows, outside, true);
      var end := FirstFrom(time, nows, start, false);
      ResultAt(time, Reset, nows, i, k) == if start <= k < end then Minute(time, nows[k]) else 0
    decreases k - i
  {
    hide Minute;
    if i < k {
      if Minute(time, nows[i]) == 0 {
        EnabledWaits(time, nows, i + 1, k);
        assert FirstFrom(time, nows, i, false) == i;
        assert FirstFrom(time, nows, i, true) == FirstFrom(time, nows, i + 1, true);
        assert ResultAt(time, Reset, nows, i, k) == ResultAt(time, Enabled, nows, i + 1, k);
        hide FirstFrom, ResultAt;
      } else {
        ResetWaits(time, nows, i + 1, k);
        assert FirstFrom(time, nows, i, false) == FirstFrom(time, nows, i + 1, false);
        assert ResultAt(time, Reset, nows, i, k) == ResultAt(time, Reset, nows, i + 1, k);
        hide FirstFrom, ResultAt;
      }
    }
  }

  /** After alarm_set the alarm sounds in exactly one stretch of updates: from
      the first one inside the sounding time that comes after one outside it,
      to the next one outside, each time for the right minute. */
  lemma OneEpisode(a: Alarm, hour: Byte, minute: Byte, nows: seq<nat>)
    ensures var on := Set(a, hour, minute);
      var outside := FirstFrom(on.time, nows, 0, false);
      var start := FirstFrom(on.time, nows, outside, true);
      var end := FirstFrom(on.time, nows, start, false);
      forall k :: 0 <= k < |nows| ==>
        Updates(on, nows).1[k] == if start <= k < end then Minute(on.time, nows[k]) else 0
  {
    hide Minute, FirstFrom;
    var on := Set(a, hour, minute);
    assert nows[0..] == nows;
    forall k | 0 <= k < |nows|
      ensures Updates(on, nows).1[k] == ResultAt(on.time, Reset, nows, 0, k)
    {
      ResultsAre(on, nows, 0, k);
    }
    hide Updates, ResultAt;
    forall k | 0 <= k < |nows|
      ensures var outside := FirstFrom(on.time, nows, 0, false);
        var start := FirstFrom(on.time, nows, outside, true);
        var end := FirstFrom(on.time, nows, start, false);
        Updates(on, nows).1[k] == if start <= k < end then Minute(on.time, nows[k]) else 0
    {
      ResetWaits(on.time, nows, 0, k);
    }
  }

  /** Set for a time of the day and then updated at another time than the ten
      minutes from it on, the alarm sounds at the next update within those, and
      says which of them it is. */
  lemma SoundsWhenSet(a: Alarm, time: Word16, hour: Byte, minute: Byte, before: nat, now: nat)
    requires time == hour * 60 + minute < 1440 && !SoundingTime(time, before)
    ensures var results := Updates(Set(a, hour, minute), [before, now]).1;
      && results[0] == 0
      && (forall k: nat :: k < 10 && now == MinutesAfter(time, k) ==> results[1] == k + 1)
      && (!SoundingTime(time, now) ==> results[1] == 0)
  {
    var on := Set(a, hour, minute);
    hide MinutesAfter, SoundingTime, Minute;
    SoundingTimeIs(time, before);
    SoundingTimeIs(time, now);
    MinuteIs(time, now);
    var waiting := Update(on, before);
    assert waiting == (Alarm(time, Enabled), 0);
    assert [before, now][1..] == [now] && [now][1..] == [];
    assert Updates(waiting.0, [now]).1 == [Update(waiting.0, now).1];
  }

  /** One of the ten minutes from the alarm time on. */
  predicate SoundingTime(time: Word16, now: nat)
  {
    exists k: nat :: k < 10 && now == MinutesAfter(time, k)
  }

  lemma SoundingTimeIs(time: Word16, now: nat)
    ensures Minute(time, now) != 0 <==> SoundingTime(time, now)
  {
    hide Minute, MinutesAfter;
    MinuteIs(time, now);
    var n := Minute(time, now);
    if n != 0 {
      var k: nat := n - 1;
      assert k < 10 && n == k + 1;
      assert now == MinutesAfter(time, k);
    }
    if SoundingTime(time, now) {
      var k: nat :| k < 10 && now == MinutesAfter(time, k);
      assert n == k + 1;
    }
  }

  /** While it sounds it goes on, minute by minute, until an update outside. */
  lemma StopsAfterTen(time: Word16, now: nat)
    ensures var r := Update(Alarm(time, Active), now);
      && (forall k: nat :: k < 10 && now == MinutesAfter(time, k) ==> r == (Alarm(time, Active), k + 1))
      && (!SoundingTime(time, now) ==> r == (Alarm(time, Disabled), 0))
  {
    hide MinutesAfter, SoundingTime, Minute;
    SoundingTimeIs(time, now);
    MinuteIs(time, now);
    var n := Minute(time, now);
    assert Update(Alarm(time, Active), now) == if n == 0 then (Alarm(time, Disabled), 0) else (Alarm(time, Active), n);
    hide Update;
    forall k: nat | k < 10 && now == MinutesAfter(time, k)
      ensures Update(Alarm(time, Active), now) == (Alarm(time, Active), k + 1)
    {
      assert n == k + 1;
    }
  }

  /** The updates and reboots of a run after the button was pressed. */
  predicate NeverSet(ops: seq<Operation>)
  {
    forall i :: 0 <= i < |ops| ==> ops[i].UnsetAlarm? || ops[i].UpdateAlarm? || ops[i].Reboot?
  }

  predicate Silent(returned: seq<nat>)
  {
    forall i :: 0 <= i < |returned| ==> returned[i] == 0
  }

  lemma SilentLater(a: seq<nat>, b: seq<nat>, all: seq<nat>)
    requires b == a || b == a + [0]
    requires |b| <= |all| && all[..|b|] == b && Silent(all[|b|..])
    ensures |a| <= |all| && all[..|a|] == a && Silent(all[|a|..])
  {
    assert all[..|a|] == b[..|a|];
    assert forall i :: |b| <= i < |all| ==> all[i] == all[|b|..][i - |b|];
  }

  lemma {:induction false} SilentRun(d: Device, ops: seq<Operation>)
    requires NeverSet(ops) && d.alarm.state == Disabled && d.saved.state == 0
    ensures Run(d, ops).alarm.state == Disabled
    ensures |d.returned| <= |Run(d, ops).returned| && Run(d, ops).returned[..|d.returned|] == d.returned
    ensures Silent(Run(d, ops).returned[|d.returned|..])
    decreases |ops|
  {
    hide Minute;
    if ops != [] {
      var next := Next(d, ops[0]);
      assert next.alarm.state == Disabled && next.saved.state == 0;
      assert next.returned == d.returned || next.returned == d.returned + [0];
      hide Next;
      SilentRun(next, ops[1..]);
      var end := Run(next, ops[1..]);
      assert Run(d, ops) == end;
      hide Run;
      SilentLater(d.returned, next.returned, end.returned);
    }
  }

  /** After alarm_unset nothing sounds, whatever the time, until it is set again;
      a reboot does not bring it back. */
  lemma UnsetIsSilent(d: Device, ops: seq<Operation>)
    requires NeverSet(ops)
    ensures var off := Next(d, UnsetAlarm);
      && |off.returned| <= |Run(off, ops).returned| && Silent(Run(off, ops).returned[|off.returned|..])
  {
    SilentRun(Next(d, UnsetAlarm), ops);
    hide Run, Minute;
  }

  // ----- updates at least once a minute -----

  predicate EveryMinute(nows: seq<nat>)
  {
    && (forall k :: 0 <= k < |nows| ==> nows[k] < WHOLE_DAY)
    && (forall j, k :: 0 <= j < |nows| && k == j + 1 < |nows| ==>
          nows[k] == nows[j] || nows[k] == (nows[j] + 1) % WHOLE_DAY)
  }

  /** From one minute to the next. */
  lemma MinuteByMinute(time: Word16, now: nat, next: nat)
    requires now < WHOLE_DAY && (next == now || next == (now + 1) % WHOLE_DAY)
    ensures var m, n := Minute(time, now), Minute(time, next);
      n == m || n == (if m == SOUNDS_FOR then 0 else m + 1) || (m == 0 && n == 1)
    ensures Minute(time, now) == 0 && Minute(time, next) != 0 ==> Minute(time, next) == 1
    ensures Minute(time, now) != 0 && Minute(time, next) == 0 ==> Minute(time, now) == SOUNDS_FOR
  {
    var start := if time >= WHOLE_DAY then 0 else time;
    Since(start, now);
    Since(start, next);
    assert next != now ==> next == if now == WHOLE_DAY - 1 then 0 else now + 1;
  }

  /** Then the episode counts the minutes from one to ten. */
  lemma CountsToTen(time: Word16, nows: seq<nat>)
    requires EveryMinute(nows)
    ensures var outside := FirstFrom(time, nows, 0, false);
      var start := FirstFrom(time, nows, outside, true);
      var end := FirstFrom(time, nows, start, false);
      && (start < |nows| ==> Minute(time, nows[start]) == 1)
      && (start < end < |nows| ==> Minute(time, nows[end - 1]) == SOUNDS_FOR)
      && (forall j, k :: start <= j < end && k == j + 1 < end ==>
            Minute(time, nows[j]) <= Minute(time, nows[k]) <= Minute(time, nows[j]) + 1)
  {
    hide Minute;
    var outside := FirstFrom(time, nows, 0, false);
    var start := FirstFrom(time, nows, outside, true);
    var end := FirstFrom(time, nows, start, false);
    if start < |nows| {
      MinuteByMinute(time, nows[start - 1], nows[start]);
    }
    if start < end < |nows| {
      MinuteByMinute(time, nows[end - 1], nows[end]);
    }
    forall j, k | start <= j < end && k == j + 1 < end
      ensures Minute(time, nows[j]) <= Minute(time, nows[k]) <= Minute(time, nows[j]) + 1
    {
      MinuteByMinute(time, nows[j], nows[k]);
    }
  }
}
