/** save_counter, mail_init and mail_receive_messages as methods on the static
    variables of mail.c, with everything they do recorded in order. */
module MailMethods {
  import opened Bits
  import opened Hmac433
  import opened Hmac433Methods
  import opened Mail
  import opened MailRuns
  import opened Packets
  import opened Packing
  import opened Ncrs
  import opened NcrsCodec
  import opened RsTables
  import opened GF32
  import opened Rx433Interrupt
  import Handoff

  /** Memory that ignores writes keeps what it has. */
  function Outcome(writable: bool, m: Memory, ws: seq<Write>): Memory
    requires InRange(ws)
  {
    if writable then ApplyAll(m, ws) else m
  }

  function Kept(writable: bool, before: Device, after: Device): Device
  {
    if writable then after else after.(nvram := before.nvram)
  }

  class Clock {
    const mac: Mac
    const rs: RsControl
    const writable: bool
    const nvram: array<Byte>
    var counter: Word64           // hmac_message_counter
    var previous: Packet          // previous_packet
    ghost var log: seq<Effect>

    ghost predicate Valid()
      reads rs.Repr()
    {
      rs.Valid() && nvram.Length == NVRAM_SIZE && nvram !in rs.Repr()
    }

    ghost function Abs(): Device
      requires nvram.Length == NVRAM_SIZE
      reads this, nvram
    {
      Device(counter, previous, nvram[..])
    }

    constructor (mac: Mac, rs: RsControl, nvram: array<Byte>, writable: bool)
      requires rs.Valid() && nvram.Length == NVRAM_SIZE && nvram !in rs.Repr()
      ensures Valid() && this.nvram == nvram && this.mac == mac && this.rs == rs && this.writable == writable
      ensures counter == 0 && previous == NO_PACKET && log == []
    {
      this.mac, this.rs, this.nvram, this.writable := mac, rs, nvram, writable;
      counter, previous, log := 0, NO_PACKET, [];
    }

    method NvramWrite(addr: nat, value: Byte)
      requires nvram.Length == NVRAM_SIZE && addr < NVRAM_SIZE
      modifies nvram, this`log
      ensures nvram[..] == if writable then Apply(old(nvram[..]), Write(addr, value)) else old(nvram[..])
      ensures log == old(log) + [Store(Write(addr, value))]
    {
      if writable {
        nvram[addr] := value;
      }
      log := log + [Store(Write(addr, value))];
    }

    method SaveCounter()
      requires nvram.Length == NVRAM_SIZE
      modifies nvram, this`log
      ensures nvram[..] == Outcome(writable, old(nvram[..]), SaveWrites(old(nvram[STATE_ADDR]), counter))
      ensures log == old(log) + Stores(SaveWrites(old(nvram[STATE_ADDR]), counter))
    {
      hide LittleBytes, OtherState;
      ghost var m, before := nvram[..], log;
      ghost var state := nvram[STATE_ADDR];
      var newState := OtherState(nvram[STATE_ADDR]);
      var addr := SlotOf(newState);
      ghost var all := SaveWrites(state, counter);
      assert ApplyAll(m, all[..0]) == m;
      hide SlotOf;
      var i := 0;
      while i < 8
        invariant 0 <= i <= 8
        invariant InRange(all[..i]) && nvram[..] == Outcome(writable, m, all[..i])
        invariant log == before + Stores(all[..i])
      {
        OneMore(m, all, i);
        NvramWrite(i + addr, LittleBytes(counter, 8)[i]);
        i := i + 1;
      }
      OneMore(m, all, 8);
      assert all[..9] == all;
      NvramWrite(STATE_ADDR, newState);
    }

    /** Called at boot. */
    method MailInit() returns (ok: bool)
      requires nvram.Length == NVRAM_SIZE
      modifies this`counter, this`log, nvram
      ensures old(nvram[0x10]) == 0xae && old(nvram[0x12]) == 0xc2 && old(nvram[0x11]) == 0 ==>
        ok && counter == LittleEndian(old(nvram[0..8]))
      ensures old(nvram[0x10]) == 0xae && old(nvram[0x12]) == 0xc2 && old(nvram[0x11]) == 1 ==>
        ok && counter == LittleEndian(old(nvram[8..16]))
      ensures Formatted(old(nvram[..])) ==>
        ok && counter == LoadCounter(nvram[..]) && nvram[..] == old(nvram[..]) && log == old(log)
      ensures !Formatted(old(nvram[..])) && writable ==>
        ok && counter == 1 && Formatted(nvram[..]) && LoadCounter(nvram[..]) == 1
        && forall a :: FIRST_OTHER_ADDR <= a < NVRAM_SIZE ==> nvram[a] == old(nvram[a])
      ensures !Formatted(old(nvram[..])) && !writable ==>
        nvram[..] == old(nvram[..]) && counter == if ok then 1 else old(counter)
      ensures !Formatted(old(nvram[..])) && !writable ==>
        (ok <==> old(nvram[CHECK_BYTE_1_ADDR]) == CHECK_BYTE_1_VALUE
                 && old(nvram[CHECK_BYTE_2_ADDR]) == CHECK_BYTE_2_VALUE)
    {
      ghost var m := nvram[..];
      hide LoadCounter, SaveWrites, ApplyAll;
      var state := nvram[STATE_ADDR];
      if nvram[CHECK_BYTE_1_ADDR] != CHECK_BYTE_1_VALUE || nvram[CHECK_BYTE_2_ADDR] != CHECK_BYTE_2_VALUE || state > 1 {
        NvramWrite(CHECK_BYTE_1_ADDR, CHECK_BYTE_1_VALUE);
        NvramWrite(CHECK_BYTE_2_ADDR, CHECK_BYTE_2_VALUE);
        NvramWrite(STATE_ADDR, 0);
        if nvram[CHECK_BYTE_1_ADDR] == CHECK_BYTE_1_VALUE && nvram[CHECK_BYTE_2_ADDR] == CHECK_BYTE_2_VALUE {
          FirstCounter();
          return true;
        } else {
          return false;
        }
      }
      var loaded := LoadSlot(SlotOf(state));
      counter := loaded;
      SlotIsLoaded(m);
      assert m[0..8] == nvram[0..8] && m[8..16] == nvram[8..16];
      return true;
    }

    /** After formatting. */
    method FirstCounter()
      requires nvram.Length == NVRAM_SIZE && (writable ==> Formatted(nvram[..]))
      modifies this`counter, this`log, nvram
      ensures counter == 1
      ensures writable ==> Formatted(nvram[..]) && LoadCounter(nvram[..]) == 1
      ensures writable ==> forall a :: FIRST_OTHER_ADDR <= a < NVRAM_SIZE ==> nvram[a] == old(nvram[a])
      ensures !writable ==> nvram[..] == old(nvram[..])
    {
      hide LoadCounter, SaveWrites, ApplyAll;
      counter := 1;
      ghost var blank := nvram[..];
      SaveCounter();
      if writable {
        Committed(blank, 1);
        assert forall a :: FIRST_OTHER_ADDR <= a < NVRAM_SIZE ==> nvram[..][a] == blank[a];
      }
    }

    /** Eight bytes of the memory as a number. */
    method LoadSlot(addr: nat) returns (n: Word64)
      requires nvram.Length == NVRAM_SIZE && addr + 8 <= NVRAM_SIZE
      ensures n == LittleEndian(nvram[addr..addr + 8])
    {
      var bytes := LittleBytes(counter, 8);
      hide LittleBytes, LittleEndian;
      var i := 0;
      while i < 8
        invariant 0 <= i <= 8 && |bytes| == 8
        invariant bytes[..i] == nvram[addr..addr + i]
      {
        bytes := bytes[i := nvram[i + addr]];
        i := i + 1;
      }
      assert bytes[..8] == bytes;
      WordPowers();
      LittleEndianBelow(bytes);
      n := LittleEndian(bytes);
    }

    /** One pass of the main loop. Interrupts are off while the shared variables
        are read, so that part is one step here. */
    method ReceiveMessages(radio: Receiver)
      requires Valid() && radio.WellFormed() && radio.newCode != nvram
      modifies radio`homeEasy, radio`newCodeReady, this`counter, this`previous, this`log, nvram
      ensures radio.Abs() == Handoff.Cleared(old(radio.Abs())) && radio.homeEasy == 0 && !radio.newCodeReady
      ensures Abs() == if old(radio.newCodeReady)
                       then Kept(writable, old(Abs()), DeviceAfterCode(mac, old(Abs()), old(radio.newCode[..])))
                       else old(Abs())
      ensures log == old(log)
        + (if old(radio.homeEasy) != 0 then [ShowHomeEasy(old(radio.homeEasy))] else [])
        + (if old(radio.newCodeReady) then CodeEffects(mac, old(Abs()), old(radio.newCode[..])) else [])
    {
      hide RsControl.Valid, Decoded, DeviceAfterCode, CodeEffects;
      var copyHomeEasy: Word32 := 0;
      var copyNewCode := new Byte[NN](_ => 0);
      var copyNewCodeReady := false;
      if radio.homeEasy != 0 {
        copyHomeEasy := radio.homeEasy;
        radio.homeEasy := 0;
      }
      if radio.newCodeReady {
        forall i | 0 <= i < NN {
          copyNewCode[i] := radio.newCode[i];
        }
        assert copyNewCode[..] == radio.newCode[..];
        radio.newCodeReady := false;
        copyNewCodeReady := true;
      }
      if copyHomeEasy != 0 {
        log := log + [ShowHomeEasy(copyHomeEasy)];
      }
      assert Abs() == old(Abs()) && log + [] == log;
      if copyNewCodeReady {
        assert copyNewCode[..] == old(radio.newCode[..]);
        ProcessCode(copyNewCode);
      }
    }

    method ProcessCode(code: array<Byte>)
      requires Valid() && code.Length == NN && code != nvram
      modifies this`counter, this`previous, this`log, nvram
      ensures Abs() == Kept(writable, old(Abs()), DeviceAfterCode(mac, old(Abs()), old(code[..])))
      ensures log == old(log) + CodeEffects(mac, old(Abs()), old(code[..]))
    {
      hide Decoded, RsControl.Valid, Effects, DeviceAfter, PacketOf;
      var message := new Byte[MESSAGE_BYTES](_ => 0);
      var rc := NcrsDecode(rs, message, code);
      assert Abs() == old(Abs()) && log + [] == log;
      if rc <= 0 {
        return;
      }
      var packet := ArrayPacket(message);
      assert Abs() == old(Abs());
      ProcessPacket(packet, rc);
    }

    method ProcessPacket(packet: PacketBuffer, rc: int)
      requires nvram.Length == NVRAM_SIZE && packet.Valid()
      requires packet.payload != nvram && packet.hmac != nvram
      modifies this`counter, this`previous, this`log, nvram
      ensures Abs() == Kept(writable, old(Abs()), DeviceAfter(true, mac, old(Abs()), old(packet.Abs())))
      ensures log == old(log) + Effects(true, mac, old(Abs()), old(packet.Abs()), rc)
      ensures previous == old(packet.Abs())
    {
      hide SaveWrites, Authenticated, NO_PACKET, ApplyAll;
      var p := Packet(packet.payload[..], packet.counterLow, packet.hmac[..], packet.resyncFlag);
      if previous == p {
        return;
      }
      previous := p;
      var ok, n := Authenticate(mac, packet, counter);
      counter := n;
      if !ok {
        log := log + [HmacError];
        return;
      }
      SaveCounter();
      if packet.resyncFlag != 0 {
        log := log + [Resynched];
      } else {
        log := log + [Execute(packet.payload[..], rc)];
      }
    }
  }

  lemma SlotIsLoaded(m: Memory)
    ensures LoadCounter(m) == LittleEndian(m[SlotOf(m[STATE_ADDR])..SlotOf(m[STATE_ADDR]) + 8])
  {
  }

  /** What a new code does: nothing unless it decodes. */
  ghost function CodeEffects(mac: Mac, d: Device, code: seq<Byte>): seq<Effect>
    requires |code| == NN
  {
    var heard := Decoded(code);
    if heard.0 <= 0 then [] else Effects(true, mac, d, PacketOf(heard.1), heard.0)
  }

  ghost function DeviceAfterCode(mac: Mac, d: Device, code: seq<Byte>): Device
    requires |code| == NN
  {
    var heard := Decoded(code);
    if heard.0 <= 0 then d else DeviceAfter(true, mac, d, PacketOf(heard.1))
  }

  /** A code that cannot be decoded is dropped in silence. */
  lemma UndecodableIsDropped(mac: Mac, d: Device, code: seq<Byte>)
    requires |code| == 31 && Undecodable(code)
    ensures CodeEffects(mac, d, code) == [] && DeviceAfterCode(mac, d, code) == d
  {
    UndecodableIff(code);
    hide Decoded, Undecodable, Effects, DeviceAfter, PacketOf;
  }

  /** So is one heard a second time, whatever came of it the first time. */
  lemma RebroadcastIsDropped(mac: Mac, d: Device, code: seq<Byte>)
    requires |code| == 31
    ensures var d' := DeviceAfterCode(mac, d, code);
      CodeEffects(mac, d', code) == [] && DeviceAfterCode(mac, d', code) == d'
  {
    var heard := Decoded(code);
    hide Decoded, Effects, DeviceAfter, PacketOf;
    RepeatIsSilent(mac, d, PacketOf(heard.1), heard.0, heard.0);
  }

  lemma OneMore(m: Memory, all: seq<Write>, i: nat)
    requires i < |all| && InRange(all)
    ensures InRange(all[..i]) && InRange(all[..i + 1])
    ensures ApplyAll(m, all[..i + 1]) == Apply(ApplyAll(m, all[..i]), all[i])
    ensures Stores(all[..i + 1]) == Stores(all[..i]) + [Store(all[i])]
  {
    assert all[..i + 1][..i] == all[..i];
  }
}
