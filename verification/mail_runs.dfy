/** Everything mail_receive_messages does with a packet, in order, and what is
    left of it when the power goes at any point. */
module MailRuns {
  import opened Bits
  import opened Hmac433
  import opened CounterProtocol
  import opened Mail

  /** The static variables of mail.c and the memory they are loaded from. */
  datatype Device = Device(counter: Word64, previous: Packet, nvram: Memory)

  const NO_PACKET := Packet([0, 0, 0, 0, 0, 0], 0, [0, 0, 0, 0, 0, 0], 0)

  datatype Effect =
    | Store(write: Write)
    | Execute(payload: Payload, rc: int)      // new_packet
    | Resynched
    | HmacError
    | ShowHomeEasy(code: Word32)

  predicate IsAction(e: Effect)
  {
    e.Execute? || e.Resynched?
  }

  function Stores(ws: seq<Write>): (es: seq<Effect>)
    ensures |es| == |ws|
    ensures forall i :: 0 <= i < |ws| ==> es[i] == Store(ws[i])
  {
    seq(|ws|, i requires 0 <= i < |ws| => Store(ws[i]))
  }

  /** The effects of one packet; filter says whether a repeat of the packet
      before is dropped unseen. */
  function Effects(filter: bool, mac: Mac, d: Device, p: Packet, rc: int): seq<Effect>
  {
    if filter && p == d.previous then []
    else
      match Authenticated(mac, d.counter, p)
      case None => [HmacError]
      case Some(n) =>
        Stores(SaveWrites(d.nvram[STATE_ADDR], n)) + [if p.resyncFlag != 0 then Resynched else Execute(p.payload, rc)]
  }

  function DeviceAfter(filter: bool, mac: Mac, d: Device, p: Packet): Device
  {
    if filter && p == d.previous then d
    else
      match Authenticated(mac, d.counter, p)
      case None => d.(previous := p)
      case Some(n) => Device(n, p, ApplyAll(d.nvram, SaveWrites(d.nvram[STATE_ADDR], n)))
  }

  /** Every packet is remembered, accepted or not, so that the same one again has
      no effect at all. */
  lemma RepeatIsSilent(mac: Mac, d: Device, p: Packet, rc: int, rc': int)
    ensures var d' := DeviceAfter(true, mac, d, p);
      && d'.previous == p
      && Effects(true, mac, d', p, rc') == [] && DeviceAfter(true, mac, d', p) == d'
  {
    hide Authenticated, SaveWrites, ApplyAll;
  }

  /** A packet that is not a repeat is either rejected, which is shown and
      changes neither counter nor memory, or stored and then obeyed. */
  lemma NewPacketIsHandled(mac: Mac, d: Device, p: Packet, rc: int)
    requires p != d.previous
    ensures var es, d', tagged := Effects(true, mac, d, p, rc), DeviceAfter(true, mac, d, p),
                                  mac(Candidate(d.counter, p), p.payload) == p.hmac;
      if tagged && (p.resyncFlag != 0 ==> d.counter <= Candidate(d.counter, p)) then
        && |es| == 10 && (forall i :: 0 <= i < 9 ==> es[i].Store?)
        && es[9] == (if p.resyncFlag == 0 then Execute(p.payload, rc) else Resynched)
        && d'.counter == (Candidate(d.counter, p) + 1) % 0x1_0000_0000_0000_0000
      else es == [HmacError] && d' == d.(previous := p)
  {
    hide Candidate, SaveWrites, ApplyAll;
  }

  predicate EffectsInRange(es: seq<Effect>)
  {
    forall i :: 0 <= i < |es| && es[i].Store? ==> es[i].write.addr < NVRAM_SIZE
  }

  /** The memory when only these effects happened. */
  function Remaining(m: Memory, es: seq<Effect>): Memory
    requires EffectsInRange(es)
    decreases |es|
  {
    if es == [] then m
    else
      var before, e := Remaining(m, es[..|es| - 1]), es[|es| - 1];
      if e.Store? then Apply(before, e.write) else before
  }

  /** mail_init on formatted memory. */
  function Boot(m: Memory): Device
  {
    Device(LoadCounter(m), NO_PACKET, m)
  }

  // ----- runs -----

  datatype Event =
    | Arrive(packet: Packet, rc: int)
    | CutDuring(packet: Packet, rc: int, k: nat)      // after k of its effects
    | PowerCut                                        // between packets
    | OtherWrite(addr: nat, value: Byte)              // alarm and clock settings

  /** The device, and the counters of the actions it has performed. */
  datatype History = History(device: Device, performed: seq<nat>)

  function Min(a: nat, b: nat): nat
  {
    if a < b then a else b
  }

  function Performed(filter: bool, mac: Mac, d: Device, p: Packet, es: seq<Effect>): seq<nat>
  {
    match Authenticated(mac, d.counter, p)
    case Some(n) => if (exists i :: 0 <= i < |es| && IsAction(es[i])) then [(n - 1) % COUNTERS] else []
    case None => []
  }

  lemma EffectsAreInRange(filter: bool, mac: Mac, d: Device, p: Packet, rc: int, k: nat)
    ensures EffectsInRange(Effects(filter, mac, d, p, rc)[..Min(k, |Effects(filter, mac, d, p, rc)|)])
  {
    hide Authenticated, SaveWrites;
  }

  function Next(filter: bool, mac: Mac, h: History, e: Event): History
  {
    var d := h.device;
    match e
    case Arrive(p, rc) =>
      var es := Effects(filter, mac, d, p, rc);
      History(DeviceAfter(filter, mac, d, p), h.performed + Performed(filter, mac, d, p, es))
    case CutDuring(p, rc, k) =>
      var all := Effects(filter, mac, d, p, rc);
      var es := all[..Min(k, |all|)];
      EffectsAreInRange(filter, mac, d, p, rc, k);
      History(Boot(Remaining(d.nvram, es)), h.performed + Performed(filter, mac, d, p, es))
    case PowerCut => h.(device := Boot(d.nvram))
    case OtherWrite(addr, value) =>
      if FIRST_OTHER_ADDR <= addr < NVRAM_SIZE then h.(device := d.(nvram := Apply(d.nvram, Write(addr, value)))) else h
  }

  function After(filter: bool, mac: Mac, h: History, events: seq<Event>): History
    decreases |events|
  {
    if events == [] then h else After(filter, mac, Next(filter, mac, h, events[0]), events[1..])
  }

  /** The counter stays clear of the wrap. */
  predicate Roomy(filter: bool, mac: Mac, h: History, events: seq<Event>)
    decreases |events|
  {
    h.device.counter + MARGIN <= COUNTERS &&
    (events == [] || Roomy(filter, mac, Next(filter, mac, h, events[0]), events[1..]))
  }

  /** Between events: memory and variable agree, and the actions performed had
      strictly increasing counters, all used up. */
  ghost predicate Consistent(h: History)
  {
    && Formatted(h.device.nvram) && LoadCounter(h.device.nvram) == h.device.counter
    && Increasing(h.performed) && forall i :: 0 <= i < |h.performed| ==> h.performed[i] < h.device.counter
  }

  lemma AcceptedMovesOn(mac: Mac, counter: Word64, p: Packet)
    requires counter + MARGIN <= COUNTERS
    ensures var got := Authenticated(mac, counter, p); got.Some? ==> counter < got.value
  {
    OrdinaryUnique(counter, p.counterLow, OrdinaryCandidate(counter, p.counterLow));
    hide OrdinaryCandidate, BigEndian;
  }

  lemma {:induction false} RemainingStores(m: Memory, ws: seq<Write>, es: seq<Effect>)
    requires InRange(ws) && |es| == |ws| && forall i :: 0 <= i < |ws| ==> es[i] == Store(ws[i])
    ensures EffectsInRange(es) && Remaining(m, es) == ApplyAll(m, ws)
    decreases |ws|
  {
    if ws != [] {
      RemainingStores(m, ws[..|ws| - 1], es[..|es| - 1]);
    }
  }

  /** A cut after k effects of an accepted packet. */
  lemma CutWhileSaving(m: Memory, n: Word64, action: Effect, k: nat)
    requires Formatted(m) && IsAction(action) && k <= 10
    ensures var es := (Stores(SaveWrites(m[STATE_ADDR], n)) + [action])[..k];
      && EffectsInRange(es)
      && Formatted(Remaining(m, es)) && LoadCounter(Remaining(m, es)) == (if k < 9 then LoadCounter(m) else n)
      && ((exists i :: 0 <= i < |es| && IsAction(es[i])) <==> k == 10)
  {
    var ws := SaveWrites(m[STATE_ADDR], n);
    var all := Stores(ws) + [action];
    var stored := if k < 9 then k else 9;
    var es := all[..k];
    assert |all| == 10 && all[9] == action && forall i :: 0 <= i < 9 ==> all[i] == Store(ws[i]);
    hide Stores;
    CommitIsAtomic(m, n, stored);
    hide SaveWrites, LoadCounter, ApplyAll, Formatted, SlotWrites, OtherState, SlotOf;
    RemainingStores(m, ws[..stored], all[..stored]);
    if k == 10 {
      assert es[9] == action && !es[9].Store?;
      assert es[..9] == all[..9];
    } else {
      assert es == all[..stored];
    }
  }

  lemma PerformedOnce(done: seq<nat>, more: seq<nat>, counter: nat, n: nat)
    requires Increasing(done) && forall i :: 0 <= i < |done| ==> done[i] < counter
    requires counter < n && (more == [] || more == [n - 1])
    ensures Increasing(done + more) && forall i :: 0 <= i < |done + more| ==> (done + more)[i] < n
  {
  }

  lemma OtherWriteHarmless(m: Memory, addr: nat, value: Byte)
    requires Formatted(m) && FIRST_OTHER_ADDR <= addr < NVRAM_SIZE
    ensures Formatted(Apply(m, Write(addr, value))) && LoadCounter(Apply(m, Write(addr, value))) == LoadCounter(m)
  {
    var a := SlotOf(m[STATE_ADDR]);
    var m' := m[addr := value];
    assert m'[a..a + 8] == m[a..a + 8];
    hide LittleEndian, Pow2;
  }

  /** What an accepted packet adds to the actions performed. */
  lemma PerformedBy(filter: bool, mac: Mac, h: History, p: Packet, es: seq<Effect>, n: Word64)
    requires Authenticated(mac, h.device.counter, p) == Some(n) && h.device.counter < n
    requires Increasing(h.performed)
    requires forall i :: 0 <= i < |h.performed| ==> h.performed[i] < h.device.counter
    ensures var done := h.performed + Performed(filter, mac, h.device, p, es);
      Increasing(done) && forall i :: 0 <= i < |done| ==> done[i] < n
  {
    hide Authenticated, Increasing;
    var more := Performed(filter, mac, h.device, p, es);
    assert (n - 1) % COUNTERS == n - 1;
    PerformedOnce(h.performed, more, h.device.counter, n);
  }

  lemma NothingPerformed(filter: bool, mac: Mac, d: Device, p: Packet, rc: int, k: nat)
    requires (filter && p == d.previous) || Authenticated(mac, d.counter, p).None?
    ensures var all := Effects(filter, mac, d, p, rc);
      && Performed(filter, mac, d, p, all) == [] && Performed(filter, mac, d, p, all[..Min(k, |all|)]) == []
      && EffectsInRange(all[..Min(k, |all|)]) && Remaining(d.nvram, all[..Min(k, |all|)]) == d.nvram
  {
    hide Authenticated, SaveWrites;
    var all := Effects(filter, mac, d, p, rc);
    assert |all| <= 1 && (all == [] || all == [HmacError]);
    var es := all[..Min(k, |all|)];
    assert es == [] || es == [HmacError];
    assert es != [] ==> es[..|es| - 1] == [];
  }

  /** A packet dealt with completely. */
  lemma ArriveConsistent(filter: bool, mac: Mac, h: History, p: Packet, rc: int)
    requires Consistent(h) && h.device.counter + MARGIN <= COUNTERS
    ensures var next := Next(filter, mac, h, Arrive(p, rc)); Consistent(next) && h.device.counter <= next.device.counter
  {
    var d := h.device;
    AcceptedMovesOn(mac, d.counter, p);
    hide Authenticated, SaveWrites, ApplyAll, LoadCounter, Formatted, Increasing, Performed, Effects;
    hide SlotWrites, OtherState, SlotOf;
    var got := Authenticated(mac, d.counter, p);
    if got.Some? && !(filter && p == d.previous) {
      Committed(d.nvram, got.value);
      PerformedBy(filter, mac, h, p, Effects(filter, mac, d, p, rc), got.value);
    } else {
      NothingPerformed(filter, mac, d, p, rc, 0);
      assert h.performed + [] == h.performed;
    }
  }

  /** A packet accepted, and the power gone after k effects. */
  lemma CutAccepted(filter: bool, mac: Mac, h: History, p: Packet, rc: int, k: nat, n: Word64)
    requires Consistent(h) && Authenticated(mac, h.device.counter, p) == Some(n) && h.device.counter < n
    requires !(filter && p == h.device.previous)
    ensures Consistent(Next(filter, mac, h, CutDuring(p, rc, k)))
    ensures h.device.counter <= Next(filter, mac, h, CutDuring(p, rc, k)).device.counter
  {
    var d := h.device;
    var all := Effects(filter, mac, d, p, rc);
    hide Authenticated, SaveWrites, LoadCounter, Formatted, Increasing, ApplyAll, Remaining;
    assert |all| == 10 && all == Stores(SaveWrites(d.nvram[STATE_ADDR], n)) + [all[9]];
    var es := all[..Min(k, 10)];
    CutWhileSaving(d.nvram, n, all[9], Min(k, 10));
    hide Effects, Stores;
    if Min(k, 10) == 10 {
      PerformedBy(filter, mac, h, p, es, n);
    } else {
      assert Performed(filter, mac, d, p, es) == [];
      assert h.performed + [] == h.performed;
      PerformedBy(filter, mac, h, p, es, n);
    }
  }

  /** The power goes while a packet is dealt with. */
  lemma CutConsistent(filter: bool, mac: Mac, h: History, p: Packet, rc: int, k: nat)
    requires Consistent(h) && h.device.counter + MARGIN <= COUNTERS
    ensures var next := Next(filter, mac, h, CutDuring(p, rc, k));
      Consistent(next) && h.device.counter <= next.device.counter
  {
    var d := h.device;
    AcceptedMovesOn(mac, d.counter, p);
    var got := Authenticated(mac, d.counter, p);
    hide Authenticated;
    if got.Some? && !(filter && p == d.previous) {
      hide Next, Consistent;
      CutAccepted(filter, mac, h, p, rc, k, got.value);
    } else {
      hide SaveWrites, LoadCounter, Formatted, Increasing, Remaining, Performed, Effects;
      NothingPerformed(filter, mac, d, p, rc, k);
      assert h.performed + [] == h.performed;
    }
  }

  lemma NextConsistent(filter: bool, mac: Mac, h: History, e: Event)
    requires Consistent(h) && h.device.counter + MARGIN <= COUNTERS
    ensures Consistent(Next(filter, mac, h, e)) && h.device.counter <= Next(filter, mac, h, e).device.counter
  {
    match e {
      case Arrive(p, rc) => ArriveConsistent(filter, mac, h, p, rc);
      case CutDuring(p, rc, k) => CutConsistent(filter, mac, h, p, rc, k);
      case PowerCut =>
      case OtherWrite(addr, value) =>
        hide LoadCounter, Formatted;
        if FIRST_OTHER_ADDR <= addr < NVRAM_SIZE {
          OtherWriteHarmless(h.device.nvram, addr, value);
        }
    }
  }

  /** Over any run of packets, repeats, replays and power cuts at any point, the
      actions performed have strictly increasing counters, and a reboot finds
      the counter last committed. */
  lemma {:induction false} RunSafe(filter: bool, mac: Mac, h: History, events: seq<Event>)
    requires Consistent(h) && Roomy(filter, mac, h, events)
    ensures Consistent(After(filter, mac, h, events))
    ensures h.device.counter <= After(filter, mac, h, events).device.counter
    decreases |events|
  {
    hide Consistent, Next;
    if events != [] {
      NextConsistent(filter, mac, h, events[0]);
      RunSafe(filter, mac, Next(filter, mac, h, events[0]), events[1..]);
    }
  }

  // ----- the filter for repeated packets -----

  /** A packet that was accepted is accepted again exactly when it is an ordinary
      one and its tag is also that of the counter 256 further on. */
  lemma AcceptedAgainIff(mac: Mac, counter: Word64, p: Packet, next: Word64)
    requires counter + MARGIN <= COUNTERS && next + MARGIN <= COUNTERS
    requires Authenticated(mac, counter, p) == Some(next)
    ensures Authenticated(mac, next, p).Some? <==> p.resyncFlag == 0 && mac(next + 255, p.payload) == p.hmac
  {
    hide OrdinaryCandidate, BigEndian;
    var n := Candidate(counter, p);
    assert p.resyncFlag != 0 ==> n % 256 == 0;
    hide ResyncCandidate;
    if p.resyncFlag == 0 {
      OrdinaryUnique(counter, p.counterLow, n);
      OrdinaryUnique(next, p.counterLow, n + 256);
      assert Candidate(next, p) == next + 255;
    } else {
      assert Candidate(next, p) == n < next;
    }
  }

  /** When the filter changes what one packet does: exactly when it drops one
      that would have been accepted. */
  lemma FilterChangesIff(mac: Mac, h: History, p: Packet, rc: int)
    requires h.device.counter + MARGIN <= COUNTERS
    ensures Next(true, mac, h, Arrive(p, rc)) != Next(false, mac, h, Arrive(p, rc))
       <==> p == h.device.previous && Authenticated(mac, h.device.counter, p).Some?
  {
    AcceptedMovesOn(mac, h.device.counter, p);
    assert h.performed + [] == h.performed;
    hide Authenticated, SaveWrites, ApplyAll, NO_PACKET;
  }

  /** So a clock just booted loses a first packet of zeros exactly when that
      packet is authentic. */
  lemma FirstPacketLostIff(mac: Mac, m: Memory, rc: int)
    requires LoadCounter(m) + MARGIN <= COUNTERS
    ensures var h, e := History(Boot(m), []), Arrive(NO_PACKET, rc);
      Next(true, mac, h, e) != Next(false, mac, h, e)
      <==> mac(OrdinaryCandidate(LoadCounter(m), 0), NO_PACKET.payload) == NO_PACKET.hmac
  {
    FilterChangesIff(mac, History(Boot(m), []), NO_PACKET, rc);
    hide Next, LoadCounter, OrdinaryCandidate;
  }

  /** There is such a packet: every tag of this code is zero. */
  lemma FirstPacketLost(m: Memory, rc: int)
    requires LoadCounter(m) + MARGIN <= COUNTERS
    ensures var mac: Mac := (n, payload) => NO_PACKET.hmac;
      var h, e := History(Boot(m), []), Arrive(NO_PACKET, rc);
      Next(true, mac, h, e).performed == [] && |Next(false, mac, h, e).performed| == 1
  {
    var mac: Mac := (n, payload) => NO_PACKET.hmac;
    var d := Boot(m);
    assert Authenticated(mac, d.counter, NO_PACKET).Some?;
    var es := Effects(false, mac, d, NO_PACKET, rc);
    assert |es| == 10 && IsAction(es[9]);
    hide LoadCounter, OrdinaryCandidate, SaveWrites, ApplyAll, Authenticated;
  }

  /** The packet before would be rejected if it came again. */
  ghost predicate Stale(mac: Mac, d: Device)
  {
    d.previous == NO_PACKET || Authenticated(mac, d.counter, d.previous).None?
  }

  /** The packet is not the all-zero one that the filter starts out with, unless
      it would be rejected; and if it is accepted its tag does not collide with
      that of the counter 256 further on. */
  predicate Proper(mac: Mac, d: Device, e: Event)
  {
    e.Arrive? || e.CutDuring? ==>
      && (e.packet == NO_PACKET && d.previous == NO_PACKET ==> Authenticated(mac, d.counter, e.packet).None?)
      && (match Authenticated(mac, d.counter, e.packet)
          case Some(next) =>
            e.packet.resyncFlag == 0 ==> mac((next + 255) % COUNTERS, e.packet.payload) != e.packet.hmac
          case None => true)
  }

  predicate ProperRun(mac: Mac, h: History, events: seq<Event>)
    decreases |events|
  {
    events == [] || (Proper(mac, h.device, events[0]) && ProperRun(mac, Next(true, mac, h, events[0]), events[1..]))
  }

  lemma FilterArrive(mac: Mac, h: History, p: Packet, rc: int)
    requires Stale(mac, h.device) && Proper(mac, h.device, Arrive(p, rc))
    requires h.device.counter + MARGIN <= COUNTERS
    requires Next(true, mac, h, Arrive(p, rc)).device.counter + MARGIN <= COUNTERS
    ensures Next(true, mac, h, Arrive(p, rc)) == Next(false, mac, h, Arrive(p, rc))
    ensures Stale(mac, Next(true, mac, h, Arrive(p, rc)).device)
  {
    hide Authenticated, SaveWrites, ApplyAll, NO_PACKET, Effects, Performed, Candidate;
    var d := h.device;
    var got := Authenticated(mac, d.counter, p);
    FilterChangesIff(mac, h, p, rc);
    assert !(p == d.previous && got.Some?);
    if got.Some? {
      assert Next(true, mac, h, Arrive(p, rc)).device.counter == got.value;
      AcceptedAgainIff(mac, d.counter, p, got.value);
    }
  }

  lemma FilterCut(mac: Mac, h: History, p: Packet, rc: int, k: nat)
    requires Stale(mac, h.device) && Proper(mac, h.device, CutDuring(p, rc, k))
    ensures Next(true, mac, h, CutDuring(p, rc, k)) == Next(false, mac, h, CutDuring(p, rc, k))
    ensures Stale(mac, Next(true, mac, h, CutDuring(p, rc, k)).device)
  {
    var d := h.device;
    assert !(p == d.previous && Authenticated(mac, d.counter, p).Some?);
    hide Authenticated, Performed, Remaining, LoadCounter, NO_PACKET;
    if p == d.previous {
      NothingPerformed(true, mac, d, p, rc, k);
      NothingPerformed(false, mac, d, p, rc, k);
      hide Effects;
    } else {
      assert Effects(true, mac, d, p, rc) == Effects(false, mac, d, p, rc);
      var es := Effects(true, mac, d, p, rc);
      assert Performed(true, mac, d, p, es[..Min(k, |es|)]) == Performed(false, mac, d, p, es[..Min(k, |es|)]) by {
        SamePerformed(mac, d, p, es[..Min(k, |es|)]);
      }
      hide Effects;
    }
  }

  lemma SamePerformed(mac: Mac, d: Device, p: Packet, es: seq<Effect>)
    ensures Performed(true, mac, d, p, es) == Performed(false, mac, d, p, es)
  {
    hide Authenticated;
  }

  lemma FilterStep(mac: Mac, h: History, e: Event)
    requires Consistent(h) && Stale(mac, h.device) && Proper(mac, h.device, e)
    requires h.device.counter + MARGIN <= COUNTERS
    requires Next(true, mac, h, e).device.counter + MARGIN <= COUNTERS
    ensures Next(true, mac, h, e) == Next(false, mac, h, e) && Stale(mac, Next(true, mac, h, e).device)
  {
    match e {
      case Arrive(p, rc) =>
        hide Next, Stale, Proper, Consistent;
        FilterArrive(mac, h, p, rc);
      case CutDuring(p, rc, k) =>
        hide Next, Stale, Proper, Consistent;
        FilterCut(mac, h, p, rc, k);
      case PowerCut =>
        hide Proper, LoadCounter, Authenticated;
      case OtherWrite(addr, value) =>
        hide Proper, LoadCounter, Authenticated;
    }
  }

  /** With the filter or without it the device ends in the same state, having
      performed the same actions. */
  lemma {:induction false} FilterIsTransparent(mac: Mac, h: History, events: seq<Event>)
    requires Consistent(h) && Stale(mac, h.device) && Roomy(true, mac, h, events)
    requires ProperRun(mac, h, events)
    ensures After(true, mac, h, events) == After(false, mac, h, events)
    decreases |events|
  {
    if events != [] {
      var next := Next(true, mac, h, events[0]);
      assert next.device.counter + MARGIN <= COUNTERS;
      hide Consistent, Next, Stale, Proper;
      FilterStep(mac, h, events[0]);
      NextConsistent(true, mac, h, events[0]);
      FilterIsTransparent(mac, next, events[1..]);
    }
  }

  /** A device just booted. */
  lemma BootIsConsistent(mac: Mac, m: Memory)
    requires Formatted(m)
    ensures Consistent(History(Boot(m), [])) && Stale(mac, Boot(m))
  {
  }
}
