/** rx433_interrupt as a method on the static variables of rx433.c. */
module Rx433Interrupt {
  import opened Bits
  import opened Rx433

  class Receiver {
    var oldTime: Word32
    var heState: HeState
    var heBitCount: Byte
    var heBitData: Word32
    var homeEasy: Word32          // rx433_home_easy
    var ncBuffer: array<Byte>
    var ncTimebase: Word32
    var ncCount: Word32
    var newCode: array<Byte>      // rx433_new_code
    var newCodeReady: bool        // rx433_new_code_ready

    ghost predicate WellFormed()
      reads this, ncBuffer, newCode
    {
      ncBuffer != newCode && ncBuffer.Length == newCode.Length == NC_DATA_SIZE
    }

    ghost function HeAbs(): He
      reads this
    {
      He(heState, heBitCount, heBitData, homeEasy)
    }

    ghost function NcAbs(): Nc
      reads this, ncBuffer, newCode
    {
      Nc(ncBuffer[..], ncTimebase, ncCount, newCode[..], newCodeReady)
    }

    ghost function Abs(): State
      reads this, ncBuffer, newCode
    {
      State(oldTime, HeAbs(), NcAbs())
    }

    constructor ()
      ensures WellFormed() && Abs() == InitialState()
      ensures fresh(ncBuffer) && fresh(newCode)
    {
      oldTime, heState, heBitCount, heBitData, homeEasy := 0, Reset, 0, 0, 0;
      ncBuffer := new Byte[NC_DATA_SIZE](_ => 0);
      newCode := new Byte[NC_DATA_SIZE](_ => 0);
      ncTimebase, ncCount, newCodeReady := 0, IDLE, false;
      new;
      assert ncBuffer[..] == ZeroBuffer() && newCode[..] == ZeroBuffer();
    }

    /** A second gap completed a bit. */
    method CountBit()
      requires heBitCount < 32
      modifies this`heState, this`heBitCount, this`homeEasy
      ensures HeAbs() == HeBit(old(HeAbs()), heBitData)
    {
      heBitCount := heBitCount + 1;
      heState := ReadyForBit;
      if heBitCount >= 32 {
        homeEasy := heBitData;
        heState := Reset;
      }
    }

    method HomeEasyEdge(delta: Word32)
      requires HeValid(HeAbs())
      modifies this`heState, this`heBitCount, this`heBitData, this`homeEasy
      ensures HeAbs() == HeStep(old(HeAbs()), delta)
    {
      var d := delta / 128;
      if 3 <= d <= 5 {
        match heState {
          case ReadyForBit =>
            heState := ReceivedShort;
          case ReceivedLong =>
            WordPower();
            ShiftedOne(31, heBitCount);
            Pow2Monotone(31 - heBitCount, 31);
            OrBelow(heBitData, HeMask(heBitCount), 32);
            heBitData := Or(heBitData, HeMask(heBitCount));
            CountBit();
          case _ =>
            heState := Reset;
        }
      } else if d == 11 || d == 12 {
        match heState {
          case ReadyForBit =>
            heState := ReceivedLong;
          case ReceivedShort =>
            CountBit();
          case _ =>
            heState := Reset;
        }
      } else if d == 22 || d == 23 {
        heState, heBitCount, heBitData := ReadyForBit, 0, 0;
      } else {
        heState := Reset;
      }
    }

    /** memcpy to rx433_new_code and set the flag. */
    method PublishBuffer()
      requires WellFormed()
      modifies newCode, this`newCodeReady
      ensures NcAbs() == Publish(old(NcAbs()))
    {
      forall i | 0 <= i < NC_DATA_SIZE {
        newCode[i] := ncBuffer[i];
      }
      newCodeReady := true;
      assert newCode[..] == old(ncBuffer[..]) && ncBuffer[..] == old(ncBuffer[..]);
    }

    method StartCode(newTime: Word32)
      requires WellFormed()
      modifies this`ncTimebase, this`ncCount, this`newCodeReady, ncBuffer, newCode
      ensures NcAbs() == NcStart(old(NcAbs()), newTime)
    {
      var skip := 0;
      ghost var c0 := NcAbs();
      while ncCount < NC_DATA_SIZE && Sub32(newTime, ncTimebase) > NC_SYMBOL_TIME * 3 / 2
        invariant NcAbs().buffer == c0.buffer && NcAbs().code == c0.code && newCodeReady == c0.ready
        invariant Skip(c0, newTime, 0) == Skip(NcAbs(), newTime, skip)
        decreases NC_DATA_SIZE - ncCount
      {
        ncCount := ncCount + 1;
        skip := skip + 1;
        ncTimebase := (ncTimebase + NC_SYMBOL_TIME) % WRAP;
      }
      assert Skip(c0, newTime, 0) == (NcAbs(), skip);
      if ncCount >= NC_DATA_SIZE {
        if ncCount == NC_DATA_SIZE && skip <= MAX_INCOMPLETE_SKIP {
          PublishBuffer();
        }
        ncCount := 0;
        ncTimebase := newTime;
        forall i | 0 <= i < NC_DATA_SIZE {
          ncBuffer[i] := 0;
        }
        assert ncBuffer[..] == ZeroBuffer();
      } else if IsClose(Sub32(newTime, ncTimebase), NC_SYMBOL_TIME, EPSILON) {
        ncTimebase := newTime;
      }
    }

    method PulseInSymbol(delta2: Word32)
      requires WellFormed() && Symbols(ncBuffer[..]) && ncCount < NC_DATA_SIZE
      requires delta2 < NC_SYMBOL_TIME + EPSILON
      modifies this`ncCount, this`newCodeReady, ncBuffer, newCode
      ensures NcAbs() == NcBit(old(NcAbs()), delta2)
    {
      var bit := (delta2 + NC_PULSE) / (NC_PULSE * 2);
      var ideal := NC_PULSE * 2 * bit;
      if bit != 0 && IsClose(ideal, delta2, EPSILON) {
        if bit < SYMBOL_SIZE + 1 {
          assert Symbols(ncBuffer[..]) && ncBuffer[..][ncCount] == ncBuffer[ncCount];
          var b := DataBit(ncBuffer[ncCount], bit);
          ncBuffer[ncCount] := b;
        } else {
          ncCount := ncCount + 1;
          if ncCount == NC_DATA_SIZE {
            PublishBuffer();
            ncCount := IDLE;
          }
        }
      }
    }

    static method DataBit(symbol: Byte, bit: nat) returns (b: Byte)
      requires symbol < 32 && 1 <= bit <= SYMBOL_SIZE
      ensures b == Or(symbol, Pow2(SYMBOL_SIZE) / Pow2(bit))
    {
      assert Pow2(5) == 32 && Pow2(4) == 16;
      ShiftedOne(5, bit);
      Pow2Monotone(5 - bit, 4);
      OrBelow(symbol, Pow2(SYMBOL_SIZE) / Pow2(bit), 5);
      b := Or(symbol, Pow2(SYMBOL_SIZE) / Pow2(bit));
    }

    method NewCodeEdge(newTime: Word32, delta: Word32, delta2: Word32, ghost before: Word32)
      requires WellFormed() && NcValid(NcAbs(), before) && delta2 == Sub32(newTime, ncTimebase)
      modifies this`ncTimebase, this`ncCount, this`newCodeReady, ncBuffer, newCode
      ensures NcAbs() == NcStep(old(NcAbs()), newTime, delta)
    {
      hide NcStart, NcBit;
      if IsClose(delta, NC_PULSE * 3, EPSILON) {
        StartCode(newTime);
      } else if ncCount < NC_DATA_SIZE {
        if delta2 < NC_SYMBOL_TIME + EPSILON {
          PulseInSymbol(delta2);
        } else {
          if ncCount + MAX_INCOMPLETE_SKIP >= NC_DATA_SIZE {
            PublishBuffer();
          }
          ncCount := IDLE;
        }
      }
    }

    /** One rising edge, at the time micros() returned. */
    method Interrupt(newTime: Word32)
      requires WellFormed() && Valid(Abs())
      modifies this, ncBuffer, newCode
      ensures WellFormed() && ncBuffer == old(ncBuffer) && newCode == old(newCode)
      ensures Abs() == Step(old(Abs()), newTime) && Valid(Abs())
    {
      StepValid(Abs(), newTime);
      ghost var before := oldTime;
      var delta := Sub32(newTime, oldTime);
      var delta2 := Sub32(newTime, ncTimebase);
      oldTime := newTime;
      HomeEasyEdge(delta);
      hide HeStep, NcStep;
      NewCodeEdge(newTime, delta, delta2, before);
    }
  }
}
