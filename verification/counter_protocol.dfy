/** The counter over a one-way channel that may lose, repeat and replay packets
    in any order. */
module CounterProtocol {
  import opened Bits
  import opened Hmac433

  /** A request and the counter its packet was made with. */
  datatype Transmission = Transmission(n: Word64, request: Request)

  /** What the sender does: libnc_encode or libnc_advance. */
  datatype Action = Transmit(request: Request) | Advance

  const ADVANCE := 0x1_0000
  const MARGIN := 257       // counters that must remain before the wrap

  function CounterAfter(counter: Word64, a: Action): Word64
  {
    match a
    case Transmit(r) => NextCounter(counter, r)
    case Advance => (counter + ADVANCE) % COUNTERS
  }

  /** The counter moves on without wrapping. */
  predicate NoWrap(counter: Word64, actions: seq<Action>)
    decreases |actions|
  {
    counter + MARGIN <= COUNTERS &&
    (actions == [] ||
     (counter + 256 + MARGIN <= COUNTERS && (actions[0].Advance? ==> counter + ADVANCE + MARGIN <= COUNTERS)
      && NoWrap(CounterAfter(counter, actions[0]), actions[1..])))
  }

  /** All packets sent by these actions. */
  function Transmissions(counter: Word64, actions: seq<Action>): seq<Transmission>
    decreases |actions|
  {
    if actions == [] then []
    else
      var n := CounterAfter(counter, actions[0]);
      var later := Transmissions(n, actions[1..]);
      if actions[0].Transmit? then [Transmission(n, actions[0].request)] + later else later
  }

  function FinalCounter(counter: Word64, actions: seq<Action>): Word64
    decreases |actions|
  {
    if actions == [] then counter else FinalCounter(CounterAfter(counter, actions[0]), actions[1..])
  }

  /** No counter is used twice, and all leave room before the wrap. */
  ghost predicate InOrder(air: seq<Transmission>)
  {
    && (forall i, j :: 0 <= i < j < |air| ==> air[i].n < air[j].n)
    && (forall i :: 0 <= i < |air| ==> air[i].n + MARGIN <= COUNTERS)
    && (forall i :: 0 <= i < |air| && air[i].request.Resync? ==> air[i].n % 256 == 0)
  }

  lemma CounterMovesOn(counter: Word64, a: Action)
    requires NoWrap(counter, [a])
    ensures counter < CounterAfter(counter, a) && CounterAfter(counter, a) + MARGIN <= COUNTERS
    ensures a.Transmit? && a.request.Resync? ==> CounterAfter(counter, a) % 256 == 0
  {
    ResyncCounter(counter);
  }

  /** The sender never uses a counter twice. */
  lemma {:induction false} TransmissionsInOrder(counter: Word64, actions: seq<Action>)
    requires NoWrap(counter, actions)
    ensures InOrder(Transmissions(counter, actions))
    ensures forall s :: s in Transmissions(counter, actions) ==> counter < s.n <= FinalCounter(counter, actions)
    ensures counter <= FinalCounter(counter, actions)
    decreases |actions|
  {
    if actions != [] {
      var n := CounterAfter(counter, actions[0]);
      assert NoWrap(n, actions[1..]);
      assert NoWrap(counter, [actions[0]]);
      CounterMovesOn(counter, actions[0]);
      hide CounterAfter, NoWrap;
      var later := Transmissions(n, actions[1..]);
      TransmissionsInOrder(n, actions[1..]);
      forall i | 0 <= i < |later|
        ensures n < later[i].n
      {
        assert later[i] in later;
      }
    }
  }

  // ----- the receiver -----

  function OnAir(mac: Mac, s: Transmission): Packet
  {
    PacketFor(mac, s.n, s.request)
  }

  ghost predicate Known(air: seq<Transmission>, deliveries: seq<nat>)
  {
    forall i :: 0 <= i < |deliveries| ==> deliveries[i] < |air|
  }

  /** Receive packets by number; the new counter and the numbers accepted. */
  ghost function Receive(mac: Mac, air: seq<Transmission>, rx: Word64, deliveries: seq<nat>): (r: (Word64, seq<nat>))
    requires Known(air, deliveries)
    decreases |deliveries|
  {
    if deliveries == [] then (rx, [])
    else
      match Authenticated(mac, rx, OnAir(mac, air[deliveries[0]]))
      case None => Receive(mac, air, rx, deliveries[1..])
      case Some(next) =>
        var later := Receive(mac, air, next, deliveries[1..]);
        (later.0, [deliveries[0]] + later.1)
  }

  /** Which packets a receiver takes. */
  predicate Takes(rx: Word64, s: Transmission)
  {
    rx <= s.n && (s.request.Send? ==> s.n < rx + 256)
  }

  /** A packet out of reach whose tag verifies nevertheless, under the counter
      this receiver works out for it. */
  predicate Collision(mac: Mac, rx: Word64, s: Transmission)
  {
    s.request.Send? && !Takes(rx, s) && Collides(mac, rx, s.n, s.request.payload)
  }

  /** For every code: what a receiver takes, and that it takes more only when
      two tags collide. */
  lemma AcceptedIff(mac: Mac, air: seq<Transmission>, rx: Word64, k: nat)
    requires k < |air| && InOrder(air) && rx + 256 <= COUNTERS
    ensures Authenticated(mac, rx, OnAir(mac, air[k]))
         == if Takes(rx, air[k]) then Some(air[k].n + 1)
            else if Collision(mac, rx, air[k]) then Some((OrdinaryCandidate(rx, air[k].n % 256) + 1) % COUNTERS)
            else None
  {
    hide Authenticated, OrdinaryCandidate, Collides, PacketFor;
    var s := air[k];
    assert s.n + MARGIN <= COUNTERS && (s.request.Resync? ==> s.n % 256 == 0);
    hide InOrder;
    match s.request {
      case Send(payload) => SendAcceptedIff(mac, rx, s.n, payload);
      case Resync => ResyncAcceptedIff(mac, rx, s.n);
    }
  }

  /** No tag collides in this run. */
  ghost predicate NoCollision(mac: Mac, air: seq<Transmission>, rx: Word64, deliveries: seq<nat>)
    requires Known(air, deliveries)
    decreases |deliveries|
  {
    deliveries == [] ||
    (var s := air[deliveries[0]];
     !Collision(mac, rx, s)
     && NoCollision(mac, air, if Takes(rx, s) then (s.n + 1) % COUNTERS else rx, deliveries[1..]))
  }

  ghost predicate Increasing(s: seq<nat>)
  {
    forall i, j :: 0 <= i < j < |s| ==> s[i] < s[j]
  }

  lemma LaterCounter(air: seq<Transmission>, i: nat, j: nat)
    requires InOrder(air) && i < |air| && j < |air| && air[i].n < air[j].n
    ensures i < j
  {
  }

  /** The packets accepted are some of those delivered, in the order they were
      sent and each once; the counter is past the last of them. */
  ghost predicate InSequence(air: seq<Transmission>, rx: Word64, deliveries: seq<nat>, r: (Word64, seq<nat>))
  {
    && Increasing(r.1) && Known(air, r.1)
    && (forall i :: 0 <= i < |r.1| ==> r.1[i] in deliveries && rx <= air[r.1[i]].n < r.0)
    && r.0 == if r.1 == [] then rx else air[r.1[|r.1| - 1]].n + 1
  }

  lemma OneMoreAccepted(air: seq<Transmission>, rx: Word64, k: nat, rest: seq<nat>, later: (Word64, seq<nat>))
    requires InOrder(air) && k < |air| && rx <= air[k].n && air[k].n + 1 < COUNTERS
    requires InSequence(air, air[k].n + 1, rest, later)
    ensures InSequence(air, rx, [k] + rest, (later.0, [k] + later.1))
  {
    forall i | 0 <= i < |later.1|
      ensures k < later.1[i]
    {
      LaterCounter(air, k, later.1[i]);
    }
  }

  lemma OneMoreRejected(air: seq<Transmission>, rx: Word64, k: nat, rest: seq<nat>, r: (Word64, seq<nat>))
    requires InSequence(air, rx, rest, r)
    ensures InSequence(air, rx, [k] + rest, r)
  {
  }

  /** Whatever is delivered, repeated or replayed, the packets accepted are in
      the order they were sent and none is accepted twice, unless a tag collides
      in the run. */
  lemma {:induction false} NeverTwice(mac: Mac, air: seq<Transmission>, rx: Word64, deliveries: seq<nat>)
    requires InOrder(air) && rx + 256 <= COUNTERS
    requires Known(air, deliveries) && NoCollision(mac, air, rx, deliveries)
    ensures InSequence(air, rx, deliveries, Receive(mac, air, rx, deliveries))
    decreases |deliveries|
  {
    if deliveries == [] {
      hide InOrder, NoCollision;
      assert Receive(mac, air, rx, deliveries) == (rx, []);
    } else {
      var k, rest := deliveries[0], deliveries[1..];
      assert deliveries == [k] + rest;
      FirstDelivery(mac, air, rx, deliveries);
      hide InOrder, NoCollision, Receive, InSequence, Takes;
      if Takes(rx, air[k]) {
        NeverTwice(mac, air, air[k].n + 1, rest);
        OneMoreAccepted(air, rx, k, rest, Receive(mac, air, air[k].n + 1, rest));
      } else {
        NeverTwice(mac, air, rx, rest);
        OneMoreRejected(air, rx, k, rest, Receive(mac, air, rx, rest));
      }
    }
  }

  lemma FirstDelivery(mac: Mac, air: seq<Transmission>, rx: Word64, deliveries: seq<nat>)
    requires InOrder(air) && rx + 256 <= COUNTERS && deliveries != []
    requires Known(air, deliveries) && NoCollision(mac, air, rx, deliveries)
    ensures var s, rest := air[deliveries[0]], deliveries[1..];
      if Takes(rx, s)
      then rx <= s.n && s.n + 1 + 256 <= COUNTERS && NoCollision(mac, air, s.n + 1, rest)
           && var later := Receive(mac, air, s.n + 1, rest);
              Receive(mac, air, rx, deliveries) == (later.0, [deliveries[0]] + later.1)
      else NoCollision(mac, air, rx, rest) && Receive(mac, air, rx, deliveries) == Receive(mac, air, rx, rest)
  {
    var k := deliveries[0];
    assert air[k].n + MARGIN <= COUNTERS;
    AcceptedIff(mac, air, rx, k);
    hide Authenticated, Collision, InOrder;
    assert (air[k].n + 1) % COUNTERS == air[k].n + 1;
  }

  /** Deliveries in order, none too far from the one before. */
  ghost predicate InStep(air: seq<Transmission>, rx: Word64, deliveries: seq<nat>)
    decreases |deliveries|
  {
    deliveries == [] ||
    (deliveries[0] < |air| && Takes(rx, air[deliveries[0]])
     && air[deliveries[0]].n + 1 < COUNTERS && InStep(air, air[deliveries[0]].n + 1, deliveries[1..]))
  }

  /** Then every packet delivered is accepted, under every code. */
  lemma {:induction false} AllAccepted(mac: Mac, air: seq<Transmission>, rx: Word64, deliveries: seq<nat>)
    requires InOrder(air) && rx + 256 <= COUNTERS
    requires Known(air, deliveries)
    requires InStep(air, rx, deliveries)
    ensures Receive(mac, air, rx, deliveries).1 == deliveries
    decreases |deliveries|
  {
    if deliveries != [] {
      AcceptedIff(mac, air, rx, deliveries[0]);
      hide Authenticated, Collision;
      AllAccepted(mac, air, air[deliveries[0]].n + 1, deliveries[1..]);
    }
  }

  // ----- a stream of ordinary packets -----

  ghost predicate OnlySends(actions: seq<Action>)
  {
    forall i :: 0 <= i < |actions| ==> actions[i].Transmit? && actions[i].request.Send?
  }

  lemma {:induction false} ConsecutiveCounters(counter: Word64, actions: seq<Action>)
    requires NoWrap(counter, actions) && OnlySends(actions)
    ensures var air := Transmissions(counter, actions);
      |air| == |actions| && forall k :: 0 <= k < |air| ==> air[k].n == counter + 1 + k && air[k].request.Send?
    decreases |actions|
  {
    if actions != [] {
      assert CounterAfter(counter, actions[0]) == counter + 1;
      ConsecutiveCounters(counter + 1, actions[1..]);
    }
  }

  /** Never more than 255 losses in a row; d is the number of the next packet. */
  predicate FewLosses(d: nat, deliveries: seq<nat>)
    decreases |deliveries|
  {
    deliveries == [] || (d <= deliveries[0] <= d + 255 && FewLosses(deliveries[0] + 1, deliveries[1..]))
  }

  lemma {:induction false} FewLossesInStep(air: seq<Transmission>, counter: Word64, d: nat, deliveries: seq<nat>)
    requires InOrder(air) && forall k :: 0 <= k < |air| ==> air[k].n == counter + 1 + k && air[k].request.Send?
    requires Known(air, deliveries)
    requires FewLosses(d, deliveries) && counter + 1 + d < COUNTERS
    ensures InStep(air, counter + 1 + d, deliveries)
    decreases |deliveries|
  {
    if deliveries != [] {
      var k := deliveries[0];
      assert air[k].n == counter + 1 + k && air[k].n + MARGIN <= COUNTERS;
      FewLossesInStep(air, counter, k + 1, deliveries[1..]);
    }
  }

  /** A receiver in step with the sender accepts everything it receives as long
      as no more than 255 packets are lost in a row. */
  lemma LossTolerance(mac: Mac, counter: Word64, actions: seq<Action>, deliveries: seq<nat>)
    requires NoWrap(counter, actions) && OnlySends(actions)
    requires Known(Transmissions(counter, actions), deliveries)
    requires FewLosses(0, deliveries)
    ensures Receive(mac, Transmissions(counter, actions), counter + 1, deliveries).1 == deliveries
  {
    var air := Transmissions(counter, actions);
    TransmissionsInOrder(counter, actions);
    ConsecutiveCounters(counter, actions);
    assert counter + MARGIN <= COUNTERS;
    hide Transmissions, Receive, NoWrap, InOrder, InStep;
    FewLossesInStep(air, counter, 0, deliveries);
    AllAccepted(mac, air, counter + 1, deliveries);
  }

  /** The 256th loss in a row is one too many: the next packet is rejected,
      unless its tag is also that of the first packet lost. */
  lemma OneLossTooMany(mac: Mac, air: seq<Transmission>, k: nat)
    requires k < |air| && InOrder(air) && air[k].request.Send? && air[k].n >= 256
    ensures var n, payload := air[k].n, air[k].request.payload;
      Authenticated(mac, n - 256, OnAir(mac, air[k])).None? <==> mac(n - 256, payload) != mac(n, payload)
  {
    var n := air[k].n;
    AcceptedIff(mac, air, n - 256, k);
    OrdinaryUnique(n - 256, n % 256, n - 256);
    hide Authenticated, OrdinaryCandidate;
  }

  /** A resynchronisation puts every receiver that is not ahead back in step,
      without any assumption about the code. */
  lemma ResyncRestores(mac: Mac, counter: Word64, rx: Word64)
    requires NoWrap(counter, [Transmit(Resync)])
    ensures var n := NextCounter(counter, Resync);
      Authenticated(mac, rx, PacketFor(mac, n, Resync)) == if rx <= n then Some(n + 1) else None
  {
    var n := NextCounter(counter, Resync);
    ResyncCounter(counter);
    ResyncAcceptedIff(mac, rx, n);
    assert counter + 256 + MARGIN <= COUNTERS;
    hide PacketFor, Authenticated, NextCounter;
  }

  /** A lagging sender catches up: sixteen bits worth of packets per advance. */
  lemma AdvanceCatchesUp(mac: Mac, counter: Word64, rx: Word64)
    requires NoWrap(counter, [Advance, Transmit(Resync)]) && rx <= counter + 65536
    ensures CounterAfter(counter, Advance) == counter + 65536
    ensures var n := NextCounter(CounterAfter(counter, Advance), Resync);
      Authenticated(mac, rx, PacketFor(mac, n, Resync)) == Some(n + 1)
  {
    var later := CounterAfter(counter, Advance);
    assert later == counter + ADVANCE;
    assert [Advance, Transmit(Resync)][1..] == [Transmit(Resync)];
    assert NoWrap(later, [Transmit(Resync)]);
    ResyncCounter(later);
    ResyncRestores(mac, later, rx);
    assert later + 256 + MARGIN <= COUNTERS;
    hide PacketFor, Authenticated, NextCounter;
  }
}
