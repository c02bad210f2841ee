/** What one edge does to the new code decoder, in microseconds: a table with
    one line for each way the interrupt can go. */
module EdgeTable {
  import opened Bits
  import opened Rx433
  import opened RadioEvents

  /** A gap that could be the one in a start code. */
  predicate StartGap(gap: Word32)
  {
    672 <= gap < 864
  }

  /** Where a pulse should be, in half bits from the start of the symbol. */
  function NearestSlot(dist: nat): nat
  {
    (dist + 256) / 512
  }

  /** A pulse that is no bit: too close to the start code or too far from a slot. */
  predicate BetweenSlots(dist: nat)
  {
    var n := NearestSlot(dist); n == 0 || !(512 * n - 96 < dist <= 512 * n + 96)
  }

  lemma StartGapIs(gap: Word32)
    ensures IsClose(gap, NC_PULSE * 3, EPSILON) <==> StartGap(gap)
    ensures IsClose(gap, NC_SYMBOL_TIME, EPSILON) <==> 3744 <= gap < 3936
  {
  }

  lemma SlotIs(dist: nat)
    requires dist < 3936
    ensures var n := NearestSlot(dist);
      n <= 8 && (IsClose(512 * n, dist, EPSILON) <==> 512 * n - 96 < dist <= 512 * n + 96)
  {
  }

  /** A start code while no message is in progress: one begins. */
  lemma StartWhenIdle(st: State, now: Word32)
    requires Valid(st) && st.nc.count == 0xFFFF_FFFF && StartGap(Sub32(now, st.oldTime))
    ensures Step(st, now).nc
         == st.nc.(count := 0, timebase := now, buffer := Step(st, now).nc.buffer)
    ensures forall k :: 0 <= k < 31 ==> Step(st, now).nc.buffer[k] == 0
    ensures !NcPublishes(st.nc, now, Sub32(now, st.oldTime))
  {
    StartGapIs(Sub32(now, st.oldTime));
    assert Skip(st.nc, now, 0) == (st.nc, 0);
    hide Sub32, IsClose, HeStep;
  }

  /** A start code where the next symbol should begin goes on with the message;
      at any other time it is ignored, unless a whole symbol was missed: then
      that is skipped, and if it was the last one the message is published and
      the next begins. */
  lemma StartInMessage(st: State, now: Word32)
    requires Valid(st) && st.nc.count < 31 && StartGap(Sub32(now, st.oldTime))
    ensures var c, dist, next := st.nc, Sub32(now, st.nc.timebase), Step(st, now).nc;
      && (dist <= 5760 && 3744 <= dist < 3936 ==> next == c.(timebase := now))
      && (dist <= 5760 && !(3744 <= dist < 3936) ==> next == c)
      && (dist > 5760 && c.count < 30 ==>
            next == c.(count := c.count + 1, timebase := (c.timebase + 3840) % 0x1_0000_0000))
      && (dist > 5760 && c.count == 30 ==>
            && next.code == c.buffer && next.ready && next.count == 0 && next.timebase == now
            && |next.buffer| == 31 && forall k :: 0 <= k < 31 ==> next.buffer[k] == 0)
      && (NcPublishes(c, now, Sub32(now, st.oldTime)) <==> dist > 5760 && c.count == 30)
  {
    var c, dist := st.nc, Sub32(now, st.nc.timebase);
    StartGapIs(Sub32(now, st.oldTime));
    StartCodeGap(c.timebase, st.oldTime, now);
    SkipsAtMostOnce(c, st.oldTime, now);
    StartGapIs(dist);
    StartGapIs(Sub32(now, (c.timebase + 3840) % 0x1_0000_0000));
    hide Sub32, IsClose, HeStep, Skip;
  }

  /** Any other edge: nothing while idle; the end of the message when it comes a
      symbol time late, published if at least 26 symbols are there; and otherwise
      noise, a data bit, or the end of the symbol. */
  lemma PulseEdge(st: State, now: Word32)
    requires Valid(st) && !StartGap(Sub32(now, st.oldTime))
    ensures var c, dist, next := st.nc, Sub32(now, st.nc.timebase), Step(st, now).nc;
      && (c.count >= 31 ==> next == c)
      && (c.count < 26 && dist >= 3936 ==> next == c.(count := 0xFFFF_FFFF))
      && (26 <= c.count < 31 && dist >= 3936 ==> next == c.(count := 0xFFFF_FFFF, code := c.buffer, ready := true))
      && (c.count < 31 && dist < 3936 && BetweenSlots(dist) ==> next == c)
      && (c.count < 31 && dist < 3936 && !BetweenSlots(dist) && NearestSlot(dist) <= 5 ==>
            var b := Or(c.buffer[c.count], [0, 16, 8, 4, 2, 1][NearestSlot(dist)]);
            next == c.(buffer := c.buffer[c.count := b]))
      && (c.count < 30 && dist < 3936 && !BetweenSlots(dist) && NearestSlot(dist) > 5 ==>
            next == c.(count := c.count + 1))
      && (c.count == 30 && dist < 3936 && !BetweenSlots(dist) && NearestSlot(dist) > 5 ==>
            next == c.(count := 0xFFFF_FFFF, code := c.buffer, ready := true))
      && (NcPublishes(c, now, Sub32(now, st.oldTime)) <==>
            c.count < 31 && if dist >= 3936 then c.count >= 26
                            else c.count == 30 && !BetweenSlots(dist) && NearestSlot(dist) > 5)
  {
    var c, dist := st.nc, Sub32(now, st.nc.timebase);
    StartGapIs(Sub32(now, st.oldTime));
    if dist < 3936 {
      SlotIs(dist);
    }
    assert forall n :: 1 <= n <= 5 ==> Pow2(5) / Pow2(n) == [0, 16, 8, 4, 2, 1][n] by {
      assert Pow2(5) == 32 && Pow2(4) == 16 && Pow2(3) == 8 && Pow2(2) == 4 && Pow2(1) == 2;
    }
    assert |c.buffer| == 31;
    hide Sub32, IsClose, HeStep, Or, Pow2, Skip;
  }
}
