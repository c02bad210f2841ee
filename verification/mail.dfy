/** The counter in non-volatile memory: two slots, and a byte that says which of
    them is valid (mail.c). */
module Mail {
  import opened Bits
  import opened Hmac433

  const COUNTER_0_ADDR := 0x00
  const COUNTER_1_ADDR := 0x08
  const CHECK_BYTE_1_ADDR := 0x10
  const STATE_ADDR := 0x11
  const CHECK_BYTE_2_ADDR := 0x12
  const FIRST_OTHER_ADDR := 0x13      // alarm, night and day times
  const CHECK_BYTE_1_VALUE: Byte := 0xae
  const CHECK_BYTE_2_VALUE: Byte := 0xc2
  const NVRAM_SIZE := 56

  type Memory = m: seq<Byte> | |m| == NVRAM_SIZE witness seq(NVRAM_SIZE, _ => 0)

  datatype Write = Write(addr: nat, value: Byte)

  function Apply(m: Memory, w: Write): Memory
    requires w.addr < NVRAM_SIZE
  {
    m[w.addr := w.value]
  }

  predicate InRange(ws: seq<Write>)
  {
    forall i :: 0 <= i < |ws| ==> ws[i].addr < NVRAM_SIZE
  }

  /** Memory after some writes. */
  function ApplyAll(m: Memory, ws: seq<Write>): Memory
    requires InRange(ws)
    decreases |ws|
  {
    if ws == [] then m else Apply(ApplyAll(m, ws[..|ws| - 1]), ws[|ws| - 1])
  }

  // ----- the counter as eight bytes, least significant first -----

  function LittleEndian(b: seq<Byte>): nat
  {
    if b == [] then 0 else b[0] + 256 * LittleEndian(b[1..])
  }

  lemma {:induction false} LittleEndianBelow(b: seq<Byte>)
    ensures LittleEndian(b) < Pow2(8 * |b|)
  {
    if b == [] {
      assert Pow2(0) == 1;
    } else {
      LittleEndianBelow(b[1..]);
      PowersOfTwo(8, 8 * (|b| - 1));
      assert Pow2(8) == 256;
    }
  }

  lemma {:induction false} LittleEndianOfBytes(n: nat, k: nat)
    requires n < Pow2(8 * k)
    ensures LittleEndian(LittleBytes(n, k)) == n
  {
    if k > 0 {
      PowersOfTwo(8, 8 * (k - 1));
      assert Pow2(8) == 256;
      LittleEndianOfBytes(n / 256, k - 1);
    }
  }

  // ----- loading and saving -----

  /** The address of the slot that a state byte selects. */
  function SlotOf(state: Byte): (addr: nat)
  {
    if state % 2 == 1 then COUNTER_1_ADDR else COUNTER_0_ADDR
  }

  function LoadCounter(m: Memory): Word64
  {
    var a := SlotOf(m[STATE_ADDR]);
    WordPowers();
    LittleEndianBelow(m[a..a + 8]);
    LittleEndian(m[a..a + 8])
  }

  predicate Formatted(m: Memory)
  {
    m[CHECK_BYTE_1_ADDR] == CHECK_BYTE_1_VALUE && m[CHECK_BYTE_2_ADDR] == CHECK_BYTE_2_VALUE && m[STATE_ADDR] <= 1
  }

  lemma OtherStateBelow(state: Byte)
    ensures Xor(state, 1) < 256
  {
    assert Pow2(8) == 256;
    XorBelow(state, 1, 8);
  }

  function OtherState(state: Byte): Byte
  {
    OtherStateBelow(state);
    Xor(state, 1)
  }

  /** The first i of the eight bytes of the counter. */
  function SlotWrites(addr: nat, counter: Word64, i: nat): (ws: seq<Write>)
    requires i <= 8
    ensures |ws| == i
    ensures forall k :: 0 <= k < i ==> ws[k] == Write(k + addr, LittleBytes(counter, 8)[k])
  {
    seq(i, k requires 0 <= k < i => Write(k + addr, LittleBytes(counter, 8)[k]))
  }

  /** What save_counter writes: the counter in the slot not in use, then the
      state byte that makes it the valid one. */
  function SaveWrites(state: Byte, counter: Word64): (ws: seq<Write>)
    ensures |ws| == 9 && InRange(ws)
  {
    SlotWrites(SlotOf(OtherState(state)), counter, 8) + [Write(STATE_ADDR, OtherState(state))]
  }

  lemma {:induction false} SlotWritten(m: Memory, addr: nat, counter: Word64, i: nat)
    requires i <= 8 && addr + 8 <= NVRAM_SIZE
    ensures InRange(SlotWrites(addr, counter, i))
    ensures var m' := ApplyAll(m, SlotWrites(addr, counter, i));
      && m'[addr..addr + i] == LittleBytes(counter, 8)[..i]
      && forall a :: 0 <= a < NVRAM_SIZE && !(addr <= a < addr + i) ==> m'[a] == m[a]
  {
    if i > 0 {
      SlotWritten(m, addr, counter, i - 1);
      var ws := SlotWrites(addr, counter, i);
      assert ws[..i - 1] == SlotWrites(addr, counter, i - 1);
      var b := LittleBytes(counter, 8);
      assert b[..i] == b[..i - 1] + [b[i - 1]];
      hide LittleBytes;
      var before, after := ApplyAll(m, ws[..i - 1]), ApplyAll(m, ws);
      assert after == before[i - 1 + addr := b[i - 1]];
      hide ApplyAll;
      assert after[addr..addr + i] == before[addr..addr + i - 1] + [b[i - 1]];
    }
  }

  lemma SaveWritesPrefix(state: Byte, counter: Word64, k: nat)
    requires k <= 9
    ensures InRange(SaveWrites(state, counter)[..k])
    ensures k <= 8 ==> SaveWrites(state, counter)[..k] == SlotWrites(SlotOf(OtherState(state)), counter, k)
  {
    hide SlotOf, OtherState, LittleBytes;
  }

  lemma NotYetCommitted(m: Memory, counter: Word64, k: nat)
    requires Formatted(m) && k <= 8
    ensures var m' := ApplyAll(m, SlotWrites(SlotOf(OtherState(m[STATE_ADDR])), counter, k));
      && Formatted(m') && m'[STATE_ADDR] == m[STATE_ADDR] && LoadCounter(m') == LoadCounter(m)
      && forall a :: FIRST_OTHER_ADDR <= a < NVRAM_SIZE ==> m'[a] == m[a]
  {
    var state := m[STATE_ADDR];
    assert OtherState(state) == 1 - state;
    var addr, used := SlotOf(OtherState(state)), SlotOf(state);
    SlotWritten(m, addr, counter, k);
    var after := ApplyAll(m, SlotWrites(addr, counter, k));
    hide ApplyAll, SlotWrites, OtherState, LittleEndian, LittleBytes, Pow2;
    assert after[used..used + 8] == m[used..used + 8];
  }

  lemma SaveWritesLast(m: Memory, state: Byte, counter: Word64)
    ensures var ws := SaveWrites(state, counter);
      && ws[..9] == ws
      && ApplyAll(m, ws)
         == ApplyAll(m, SlotWrites(SlotOf(OtherState(state)), counter, 8))[STATE_ADDR := OtherState(state)]
  {
    var ws := SaveWrites(state, counter);
    SaveWritesPrefix(state, counter, 8);
    assert ws[..9] == ws;
    hide SlotWrites, OtherState, SlotOf;
  }

  lemma Committed(m: Memory, counter: Word64)
    requires Formatted(m)
    ensures var m' := ApplyAll(m, SaveWrites(m[STATE_ADDR], counter));
      && Formatted(m') && LoadCounter(m') == counter
      && forall a :: FIRST_OTHER_ADDR <= a < NVRAM_SIZE ==> m'[a] == m[a]
  {
    var state := m[STATE_ADDR];
    assert OtherState(state) == 1 - state;
    var addr := SlotOf(OtherState(state));
    SlotWritten(m, addr, counter, 8);
    SaveWritesLast(m, state, counter);
    WordPowers();
    LittleEndianOfBytes(counter, 8);
    var slot, after := ApplyAll(m, SlotWrites(addr, counter, 8)), ApplyAll(m, SaveWrites(state, counter));
    hide ApplyAll, SaveWrites, SlotWrites, OtherState, LittleEndian, LittleBytes, Pow2;
    var b := LittleBytes(counter, 8);
    assert b[..8] == b;
    assert after[addr..addr + 8] == slot[addr..addr + 8] == b;
  }

  /** A power cut between any two of the nine byte writes leaves the old counter
      in force or, after the last, the new one, and never a mixture. */
  lemma CommitIsAtomic(m: Memory, counter: Word64, k: nat)
    requires Formatted(m) && k <= 9
    ensures InRange(SaveWrites(m[STATE_ADDR], counter)[..k])
    ensures var m' := ApplyAll(m, SaveWrites(m[STATE_ADDR], counter)[..k]);
      && Formatted(m') && LoadCounter(m') == (if k == 9 then counter else LoadCounter(m))
      && forall a :: FIRST_OTHER_ADDR <= a < NVRAM_SIZE ==> m'[a] == m[a]
  {
    SaveWritesPrefix(m[STATE_ADDR], counter, k);
    if k == 9 {
      SaveWritesLast(m, m[STATE_ADDR], counter);
      Committed(m, counter);
    } else {
      NotYetCommitted(m, counter, k);
    }
    hide ApplyAll, SaveWrites, SlotWrites, LoadCounter;
  }
}
