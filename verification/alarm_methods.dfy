/** alarm.c as methods on its static variables. */
module AlarmMethods {
  import opened Bits
  import opened Alarm
  import opened Mail

  const ALARM_HI := 0x13
  const ALARM_LO := 0x14
  const ALARM_STATE := 0x15

  class AlarmClock {
    var alarmTime: Word16
    var alarmState: State
    const nvram: array<Byte>

    ghost function Abs(): Alarm
      reads this
    {
      Alarm(alarmTime, alarmState)
    }

    ghost function InMemory(): Saved
      requires nvram.Length == NVRAM_SIZE
      reads nvram
    {
      Saved(nvram[ALARM_HI], nvram[ALARM_LO], nvram[ALARM_STATE])
    }

    constructor (nvram: array<Byte>)
      ensures this.nvram == nvram && Abs() == Alarm(0, Disabled)
    {
      this.nvram, alarmTime, alarmState := nvram, 0, Disabled;
    }

    method SaveToNvram()
      requires nvram.Length == NVRAM_SIZE
      modifies nvram
      ensures InMemory() == Save(Abs())
      ensures var hi: int := nvram[0x13]; hi * 256 + nvram[0x14] == alarmTime
      ensures nvram[0x15] == match alarmState case Disabled => 0 case Enabled => 1 case Active => 2 case Reset => 3
      ensures forall i :: 0 <= i < NVRAM_SIZE && !(ALARM_HI <= i <= ALARM_STATE) ==> nvram[i] == old(nvram[i])
    {
      nvram[ALARM_HI] := alarmTime / 256;
      nvram[ALARM_LO] := alarmTime % 256;
      nvram[ALARM_STATE] := Code(alarmState);
    }

    method SetAlarm(hour: Byte, minute: Byte) returns (changed: nat)
      requires nvram.Length == NVRAM_SIZE
      modifies this, nvram
      ensures Abs() == Set(old(Abs()), hour, minute) && InMemory() == Save(Abs())
      ensures changed == if old(alarmState) != alarmState then 1 else 0
    {
      var oldState := alarmState;
      alarmTime := hour * 60 + minute;
      alarmState := Reset;
      SaveToNvram();
      changed := if oldState != alarmState then 1 else 0;
    }

    method UnsetAlarm() returns (changed: nat)
      requires nvram.Length == NVRAM_SIZE
      modifies this, nvram
      ensures Abs() == Unset(old(Abs())) && InMemory() == Save(Abs())
      ensures changed == if old(alarmState) != alarmState then 1 else 0
    {
      var oldState := alarmState;
      alarmState := Disabled;
      SaveToNvram();
      changed := if oldState != alarmState then 1 else 0;
    }

    method Get() returns (hour: Byte, minute: Byte)
      ensures hour == alarmTime / 60 % 256 && minute == alarmTime % 60
      ensures alarmTime < WHOLE_DAY ==> hour < 24 && hour * 60 + minute == alarmTime
    {
      hour := alarmTime / 60 % 256;
      minute := alarmTime % 60;
    }

    method ResetAlarm() returns (changed: nat)
      requires nvram.Length == NVRAM_SIZE
      modifies this, nvram
      ensures old(alarmTime) < 1440 ==> alarmTime == old(alarmTime) && alarmState == Reset
      ensures Abs() == SetAgain(old(Abs())) && InMemory() == Save(Abs())
      ensures changed == if old(alarmState) != alarmState then 1 else 0
    {
      SetAgainKeepsTime(Abs());
      var hour, minute := Get();
      changed := SetAlarm(hour, minute);
    }

    /** The search loop over the minutes of the sounding time. */
    method FindMinute(now: Word16) returns (i: nat)
      ensures i == Minute(alarmTime, now) && i <= 10
      ensures forall k: nat :: k < 10 ==> (i == k + 1 <==> now == MinutesAfter(alarmTime, k))
    {
      MinuteIs(alarmTime, now);
      hide MinutesAfter;
      var start := if alarmTime >= WHOLE_DAY then 0 else alarmTime;
      var testTime: Word16 := alarmTime;
      ghost var passed := 0;
      i := 1;
      while i <= SOUNDS_FOR
        invariant 1 <= i <= SOUNDS_FOR + 1
        invariant testTime == if i == 1 then alarmTime else TimeAfter(start, i - 2) + 1
        invariant forall j :: 0 <= j < i - 1 ==> now != TimeAfter(start, j)
      {
        if testTime >= WHOLE_DAY {
          testTime := 0;
        }
        assert testTime == TimeAfter(start, i - 1);
        if testTime == now {
          Since(start, now);
          return;
        }
        testTime := testTime + 1;
        i := i + 1;
      }
      NotSince(start, now);
      i := 0;
    }

    method UpdateAlarm(hour: Byte, minute: Byte) returns (result: nat)
      requires nvram.Length == NVRAM_SIZE
      modifies this, nvram
      ensures (Abs(), result) == Update(old(Abs()), hour * 60 + minute)
      ensures InMemory() == if Abs().state != old(Abs().state) then Save(Abs()) else old(InMemory())
    {
      hide Minute;
      var inActiveRegion := FindMinute(hour * 60 + minute);
      match alarmState {
        case Active =>
          if inActiveRegion == 0 {
            alarmState := Disabled;
            SaveToNvram();
            return 0;
          } else {
            return inActiveRegion;
          }
        case Enabled =>
          if inActiveRegion != 0 {
            alarmState := Active;
            SaveToNvram();
            return inActiveRegion;
          } else {
            return 0;
          }
        case Reset =>
          if inActiveRegion == 0 {
            alarmState := Enabled;
            SaveToNvram();
          }
          return 0;
        case Disabled =>
          return 0;
      }
    }

    method AlarmInit()
      requires nvram.Length == NVRAM_SIZE
      modifies this, nvram
      ensures Abs() == Load(old(InMemory())) && InMemory() == Save(Abs())
      ensures var hi: int := old(nvram[0x13]);
        var time := hi * 256 + old(nvram[0x14]); alarmTime == if time >= 1440 then 0 else time
      ensures nvram[0x15] == if old(nvram[0x15]) < 4 then old(nvram[0x15]) else 0
    {
      var hi: int, lo: int := nvram[ALARM_HI], nvram[ALARM_LO];
      alarmState := StateOf(nvram[ALARM_STATE]);
      alarmTime := hi * 256 + lo;
      if alarmTime >= WHOLE_DAY {
        alarmTime := 0;
      }
      SaveToNvram();
    }
  }

  /** j minutes after a time of the day, j being less than a day. */
  function TimeAfter(start: nat, j: nat): nat
  {
    if start + j >= WHOLE_DAY then start + j - WHOLE_DAY else start + j
  }

  lemma NotSince(start: nat, now: nat)
    requires start < WHOLE_DAY && forall j :: 0 <= j < SOUNDS_FOR ==> now != TimeAfter(start, j)
    ensures now < WHOLE_DAY ==> (now - start) % WHOLE_DAY >= SOUNDS_FOR
  {
    if now < WHOLE_DAY {
      Since(start, now);
      assert TimeAfter(start, (now - start) % WHOLE_DAY) == now;
    }
  }
}
