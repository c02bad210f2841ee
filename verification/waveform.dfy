/** The transmitted signal in closed form: the level of the pin at every
    microsecond, without reference to how the pulses are put together. */
module Waveform {
  import opened Bits
  import opened Packing
  import opened Rx433
  import opened Tx433

  /** Bit j of a five bit symbol, first bit first. */
  function SymbolBit(symbol: nat, j: nat): nat
    requires j < 5
  {
    symbol / [16, 8, 4, 2, 1][j] % 2
  }

  /** A symbol r microseconds after its start: 11010, then 10 or 00 for a bit,
      each digit lasting 256 microseconds. */
  predicate SymbolLevel(symbol: nat, r: int)
  {
    0 <= r < 3840 &&
    (r < 512 || 768 <= r < 1024 || (1280 <= r && (r - 1280) % 512 < 256 && SymbolBit(symbol, (r - 1280) / 512) == 1))
  }

  /** Thirty-one symbols and a last pulse. */
  predicate NcLevel(message: seq<Byte>, t: int)
    requires |message| == 31
  {
    0 <= t < 119296 &&
    if t < 119040 then SymbolLevel(message[t / 3840], t % 3840) else t - 119040 < 256
  }

  lemma SymbolBitIs(symbol: nat, j: nat)
    requires j < 5
    ensures SymbolBit(symbol, j) == BitOf(symbol, 5, j)
  {
    assert Pow2(4) == 16 && Pow2(3) == 8 && Pow2(2) == 4 && Pow2(1) == 2 && Pow2(0) == 1;
  }

  /** Bits from the j-th on. */
  predicate DataLevel(symbol: nat, j: nat, r: int)
  {
    1280 + 512 * j <= r < 3840 && (r - 1280) % 512 < 256 && SymbolBit(symbol, (r - 1280) / 512) == 1
  }

  lemma SlotOfBit(j: nat, r: int)
    requires j < 5 && 1280 + 512 * j <= r < 1280 + 512 * (j + 1)
    ensures (r - 1280) / 512 == j && (r - 1280) % 512 == r - 1280 - 512 * j
  {
    DivModUnique(r - 1280, 512, j, r - 1280 - 512 * j);
  }

  lemma DataLevelStep(symbol: nat, j: nat, r: int)
    requires j < 5
    ensures DataLevel(symbol, j, r) <==>
      (SymbolBit(symbol, j) == 1 && 1280 + 512 * j <= r < 1280 + 512 * j + 256) || DataLevel(symbol, j + 1, r)
  {
    hide SymbolBit;
    if 1280 + 512 * j <= r < 1280 + 512 * (j + 1) {
      SlotOfBit(j, r);
    }
  }

  lemma DataEdgesStep(symbol: nat, base: int, j: nat)
    requires j < 5
    ensures DataEdges(symbol, base, 5) == []
    ensures var later := DataEdges(symbol, base, j + 1);
      DataEdges(symbol, base, j)
      == if SymbolBit(symbol, j) == 1 then [base + 1280 + 512 * j] + later else later
  {
    SymbolBitIs(symbol, j);
    hide BitOf, SymbolBit;
  }

  lemma {:induction false} DataIs(symbol: nat, base: int, j: nat, t: int)
    requires j <= 5
    ensures Within(Wide(DataEdges(symbol, base, j), NC_PULSE), t) <==> DataLevel(symbol, j, t - base)
    decreases 5 - j
  {
    hide DataEdges, SymbolBit, Within, Wide;
    if j == 5 {
      DataEdgesStep(symbol, base, 4);
      assert Wide([], NC_PULSE) == [];
      WithinOne(High(0, 0), t);
    } else {
      DataIs(symbol, base, j + 1, t);
      DataEdgesStep(symbol, base, j);
      DataLevelStep(symbol, j, t - base);
      hide DataLevel;
      var now, later := base + 1280 + 512 * j, DataEdges(symbol, base, j + 1);
      WideConcat([now], later, NC_PULSE);
      assert Wide([now], NC_PULSE) == [High(now, now + 256)];
      WithinConcat(Wide([now], NC_PULSE), Wide(later, NC_PULSE), t);
      WithinOne(High(now, now + 256), t);
    }
  }

  lemma SymbolIs(symbol: nat, base: int, t: int)
    ensures Within(SymbolHighs(symbol, base), t) <==> SymbolLevel(symbol, t - base)
  {
    hide DataEdges, SymbolBit, Within;
    var first, second, data := High(base, base + 512), High(base + 768, base + 1024), DataEdges(symbol, base, 0);
    WideConcat([base + 768], data, NC_PULSE);
    assert Wide([base + 768], NC_PULSE) == [second];
    assert SymbolHighs(symbol, base) == [first] + ([second] + Wide(data, NC_PULSE));
    WithinConcat([first], [second] + Wide(data, NC_PULSE), t);
    WithinConcat([second], Wide(data, NC_PULSE), t);
    WithinOne(first, t);
    WithinOne(second, t);
    DataIs(symbol, base, 0, t);
  }

  lemma {:induction false} NcFrameIs(message: seq<Byte>, i: nat, t: int)
    requires i <= |message| == 31
    ensures Within(FrameHighs(message, i), t) <==> t >= 3840 * i && NcLevel(message, t)
    decreases 31 - i
  {
    var base := NC_SYMBOL_TIME * i;
    if i == 31 {
      WithinOne(High(base, base + NC_PULSE), t);
    } else {
      NcFrameIs(message, i + 1, t);
      SymbolIs(message[i], base, t);
      if 0 <= t - base < 3840 {
        DivModUnique(t, 3840, i, t - base);
      }
      var highs, later := SymbolHighs(message[i], base), FrameHighs(message, i + 1);
      assert FrameHighs(message, i) == highs + later;
      hide SymbolHighs, FrameHighs, Within, SymbolBit;
      WithinConcat(highs, later, t);
    }
  }

  /** What write_nc plays is high exactly then. */
  lemma NewCodeSignal(message: seq<Byte>, wave: seq<Pulse>, t: int)
    requires |message| == 31 && HighExactly(wave, FrameHighs(message, 0))
    ensures LevelAt(wave, false, t) <==> NcLevel(message, t)
  {
    NcFrameIs(message, 0, t);
    assert LevelAt(wave, false, t) <==> Within(FrameHighs(message, 0), t);
  }

  // ----- Home Easy -----

  /** One bit, q microseconds after its start. */
  predicate HeBitLevel(bit: nat, q: int)
  {
    0 <= q < 220 || (if bit == 1 then 1550 <= q < 1770 else 540 <= q < 760)
  }

  /** The bits from the j-th on, top bit first, 2090 microseconds each. */
  predicate HeBitsLevel(code: nat, j: nat, r: int)
  {
    2090 * j <= r < 66880 && HeBitLevel(TestBit(code, 31 - r / 2090), r % 2090)
  }

  /** One attempt, r microseconds after its start: a start pulse, the bits, and
      an end pulse. */
  predicate HeFrameLevel(code: nat, r: int)
  {
    0 <= r < 220 || HeBitsLevel(code, 0, r - 2920) || 69800 <= r < 70020
  }

  predicate HeLevel(code: nat, attempts: nat, t: int)
  {
    0 <= t < 80290 * attempts && HeFrameLevel(code, t % 80290)
  }

  lemma TwoPulses(a: int, b: int, t: int)
    ensures Within(Wide([a, b], 220), t) <==> a <= t < a + 220 || b <= t < b + 220
  {
    var highs := Wide([a, b], 220);
    assert highs == [High(a, a + 220)] + [High(b, b + 220)];
    WithinConcat([High(a, a + 220)], [High(b, b + 220)], t);
    WithinOne(High(a, a + 220), t);
    WithinOne(High(b, b + 220), t);
  }

  lemma {:induction false} HeBitsAre(code: nat, base: int, j: nat, t: int)
    requires j <= 32
    ensures Within(Wide(HeBitEdges(code, base + 2090 * j, j), 220), t) <==> HeBitsLevel(code, j, t - base)
    decreases 32 - j
  {
    hide BitOf, TestBit, Within;
    var d := base + 2090 * j;
    if j == 32 {
      assert Wide(HeBitEdges(code, d, j), 220) == [];
      WithinOne(High(0, 0), t);
    } else {
      var gap, later := HeFirstGap(BitOf(code, 32, j)), HeBitEdges(code, d + 2090, j + 1);
      assert HeBitEdges(code, d, j) == [d, d + gap] + later;
      BitOfIsTestBit(code, 32, j);
      HeBitsAre(code, base, j + 1, t);
      if 0 <= t - d < 2090 {
        DivModUnique(t - base, 2090, j, t - d);
      }
      hide HeBitEdges;
      WideConcat([d, d + gap], later, 220);
      WithinConcat(Wide([d, d + gap], 220), Wide(later, 220), t);
      TwoPulses(d, d + gap, t);
    }
  }

  lemma HeFrameIs(code: nat, base: int, t: int)
    ensures Within(Wide(HeFrame(code, base), 220), t) <==> HeFrameLevel(code, t - base)
  {
    hide HeBitEdges, HeBitsLevel, Within;
    var bits := HeBitEdges(code, base + 2920, 0);
    HeBitsAre(code, base + 2920, 0, t);
    assert HeFrame(code, base) == ([base] + bits) + [base + 69800];
    WideConcat([base] + bits, [base + 69800], 220);
    WideConcat([base], bits, 220);
    var first, last := High(base, base + 220), High(base + 69800, base + 70020);
    assert Wide([base], 220) == [first] && Wide([base + 69800], 220) == [last];
    WithinConcat([first] + Wide(bits, 220), [last], t);
    WithinConcat([first], Wide(bits, 220), t);
    WithinOne(first, t);
    WithinOne(last, t);
  }

  lemma {:induction false} HeFramesAre(code: nat, attempts: nat, t: int)
    ensures Within(Wide(HeFrames(code, 0, attempts), 220), t) <==> HeLevel(code, attempts, t)
    decreases attempts
  {
    hide HeFrame, HeFrameLevel;
    if attempts == 0 {
      assert Wide(HeFrames(code, 0, 0), 220) == [];
      WithinOne(High(0, 0), t);
    } else {
      var n := attempts - 1;
      var base := 80290 * n;
      HeFramesAre(code, n, t);
      HeFrameIs(code, base, t);
      if 0 <= t - base < 80290 {
        DivModUnique(t, 80290, n, t - base);
      } else {
        NotInFrame(code, t - base);
      }
      var before, frame := HeFrames(code, 0, n), HeFrame(code, base);
      assert HeFrames(code, 0, attempts) == before + frame;
      hide HeFrames;
      WideConcat(before, frame, 220);
      WithinConcat(Wide(before, 220), Wide(frame, 220), t);
    }
  }

  lemma NotInFrame(code: nat, r: int)
    ensures HeFrameLevel(code, r) ==> 0 <= r < 80290
  {
  }

  /** What write_he plays is high exactly then. */
  lemma HomeEasySignal(code: nat, attempts: nat, wave: seq<Pulse>, t: int)
    requires HighExactly(wave, Wide(HeFrames(code, 0, attempts), HE_PULSE))
    ensures LevelAt(wave, false, t) <==> HeLevel(code, attempts, t)
  {
    HeFramesAre(code, attempts, t);
    assert LevelAt(wave, false, t) <==> Within(Wide(HeFrames(code, 0, attempts), HE_PULSE), t);
  }
}
