/** From a request at the sender to an action at the receiver: all layers
    together. */
module EndToEnd {
  import opened Bits
  import opened GF32
  import opened ReedSolomon
  import opened RsEncoder
  import opened Packing
  import opened Packets
  import opened Ncrs
  import opened Hmac433
  import opened CounterProtocol
  import opened Libnc
  import opened Mail
  import opened MailRuns
  import opened MailMethods
  import opened Rx433
  import opened RadioEvents
  import opened Tx433
  import opened RadioLink

  /** The symbols sent for a request with counter n. */
  ghost function Message(mac: Mac, n: Word64, r: Request): (msg: seq<Sym>)
    ensures |msg| == NN
  {
    Encoded(PacketBytes(PacketFor(mac, n, r)))
  }

  /** A message of which at most five symbols are wrong is the packet sent. */
  lemma HeardThroughNoise(mac: Mac, n: Word64, r: Request, d: Device, v: seq<Byte>)
    requires |v| == NN && Distance(Masked(v), Message(mac, n, r)) <= 5
    ensures var p, rc := PacketFor(mac, n, r), 1 + 10 * Distance(Masked(v), Message(mac, n, r));
      && CodeEffects(mac, d, v) == Effects(true, mac, d, p, rc)
      && DeviceAfterCode(mac, d, v) == DeviceAfter(true, mac, d, p)
  {
    var p := PacketFor(mac, n, r);
    hide PacketBytes, PacketOf, Encoded, Decoded, Carried, Distance, Effects, DeviceAfter, Masked, BytesOf;
    NoisyRoundTrip(PacketBytes(p), v);
    FlagIsCarried(p);
    PacketOfBytes(p);
  }

  /** The receiver does what was asked and moves on to the next counter. */
  ghost predicate Obeys(mac: Mac, d: Device, n: Word64, r: Request, v: seq<Byte>)
    requires |v| == NN
  {
    var all := CodeEffects(mac, d, v);
    && |all| == 10
    && all[..9] == Stores(SaveWrites(d.nvram[STATE_ADDR], (n + 1) % COUNTERS))
    && (match r
        case Send(payload) => all[9].Execute? && all[9].payload == payload
        case Resync => all[9] == Resynched)
    && DeviceAfterCode(mac, d, v).counter == (n + 1) % COUNTERS
  }

  /** When a packet is obeyed: its counter is in reach and it is not a repeat. */
  ghost predicate InReach(mac: Mac, d: Device, n: Word64, r: Request)
  {
    && d.counter + MARGIN <= COUNTERS && d.counter <= n && (r.Send? ==> n < d.counter + 256)
    && (r.Resync? ==> n % 256 == 0) && d.previous != PacketFor(mac, n, r)
  }

  lemma InReachIsAccepted(mac: Mac, d: Device, n: Word64, r: Request)
    requires InReach(mac, d, n, r)
    ensures Authenticated(mac, d.counter, PacketFor(mac, n, r)) == Some((n + 1) % COUNTERS)
  {
    hide Authenticated;
    match r {
      case Send(payload) => SendAcceptedIff(mac, d.counter, n, payload);
      case Resync => ResyncAcceptedIff(mac, d.counter, n);
    }
  }

  lemma AcceptedEffects(mac: Mac, d: Device, p: Packet, rc: int, n: Word64)
    requires Authenticated(mac, d.counter, p) == Some(n) && p != d.previous
    ensures var all := Effects(true, mac, d, p, rc);
      && |all| == 10 && all[..9] == Stores(SaveWrites(d.nvram[STATE_ADDR], n))
      && all[9] == if p.resyncFlag != 0 then Resynched else Execute(p.payload, rc)
    ensures DeviceAfter(true, mac, d, p).counter == n
  {
    hide Authenticated, SaveWrites, ApplyAll;
    var stores := Stores(SaveWrites(d.nvram[STATE_ADDR], n));
    assert |stores| == 9;
    hide Stores;
    assert Effects(true, mac, d, p, rc)[..9] == stores;
  }

  lemma ObeysThroughNoise(mac: Mac, n: Word64, r: Request, d: Device, v: seq<Byte>)
    requires |v| == NN && Distance(Masked(v), Message(mac, n, r)) <= 5 && InReach(mac, d, n, r)
    ensures Obeys(mac, d, n, r, v)
  {
    var p := PacketFor(mac, n, r);
    InReachIsAccepted(mac, d, n, r);
    assert p != d.previous && (r.Resync? <==> p.resyncFlag != 0) && (r.Send? ==> p.payload == r.payload);
    hide Authenticated, PacketFor, CodeEffects, DeviceAfterCode, Effects, DeviceAfter, SaveWrites, Stores, Distance;
    hide Message, InReach, Masked;
    HeardThroughNoise(mac, n, r, d, v);
    AcceptedEffects(mac, d, p, 1 + 10 * Distance(Masked(v), Message(mac, n, r)), (n + 1) % COUNTERS);
  }

  /** The request is sent as a frame whose edges may each be 47 microseconds off;
      after a quiet gap the receiver, whatever its decoders were doing and
      wherever its clock wraps, publishes one message and obeys it. */
  lemma RequestIsObeyed(mac: Mac, tx: Word64, r: Request, d: Device, st: State, T: int, ts: seq<int>)
    requires InReach(mac, d, NextCounter(tx, r), r)
    requires Valid(st) && Near(ts, Frame(Message(mac, NextCounter(tx, r), r), 0), T, SLACK)
    requires ts != [] ==> QuietGap(Sub32(ts[0] % WRAP, st.oldTime))
    ensures var end, n := Run(st, Stamps(ts)), NextCounter(tx, r);
      && end.nc.ready && end.nc.code == Message(mac, n, r)
      && EventLog(st, Stamps(ts)) == Leftover(st) + [NewCode(Message(mac, n, r))]
      && Obeys(mac, d, n, r, Message(mac, n, r))
  {
    var n := NextCounter(tx, r);
    var msg := Message(mac, n, r);
    hide Valid, Near, Frame, QuietGap, Obeys, InReach, Distance, Masked, Message, Leftover, Stamps, NextCounter;
    NewCodeFrame(st, msg, T, ts);
    MaskedSymbols(msg);
    DistanceToSelf(msg);
    ObeysThroughNoise(mac, n, r, d, msg);
  }

  /** When the frame breaks off after at least twenty-six of its symbols, the
      next edge to arrive makes the receiver obey it all the same. */
  lemma CutRequestIsObeyed(mac: Mac, tx: Word64, r: Request, d: Device, st: State,
                            k: nat, T: int, ts: seq<int>, now: int)
    returns (heard: seq<Sym>)
    requires InReach(mac, d, NextCounter(tx, r), r) && Valid(st)
    requires k < NC_DATA_SIZE <= k + MAX_INCOMPLETE_SKIP
    requires Near(ts, Frame(Message(mac, NextCounter(tx, r), r)[..k], 0), T, SLACK)
    requires ts != [] ==> QuietGap(Sub32(ts[0] % WRAP, st.oldTime)) && LateGap(Sub32(now % WRAP, ts[|ts| - 1] % WRAP))
    ensures |heard| == NN && Obeys(mac, d, NextCounter(tx, r), r, heard)
    ensures EventLog(st, Stamps(ts + [now])) == Leftover(st) + [NewCode(heard)]
    ensures heard == Message(mac, NextCounter(tx, r), r)[..k] + ZeroSymbols(NC_DATA_SIZE - k)
  {
    var n := NextCounter(tx, r);
    var msg := Message(mac, n, r);
    hide Valid, Near, Frame, QuietGap, LateGap, Obeys, InReach, Distance, Masked, Message, Leftover, Stamps;
    hide NextCounter;
    CutFrame(st, msg, k, T, ts, now);
    heard := msg[..k] + ZeroSymbols(NC_DATA_SIZE - k);
    MaskedSymbols(heard);
    CutDistance(msg, k, ZeroSymbols(NC_DATA_SIZE - k));
    ObeysThroughNoise(mac, n, r, d, heard);
  }

  /** The same wherever the frame breaks off after its twenty-sixth symbol, in the
      middle of a symbol too, when the next edge comes after a quiet gap. */
  lemma BrokenRequestIsObeyed(mac: Mac, tx: Word64, r: Request, d: Device, st: State,
                               edges: nat, T: int, ts: seq<int>, now: int)
    returns (heard: seq<Sym>)
    requires InReach(mac, d, NextCounter(tx, r), r) && Valid(st)
    requires EdgesTo(Message(mac, NextCounter(tx, r), r), 0, NC_DATA_SIZE - MAX_INCOMPLETE_SKIP) < edges
    requires edges < |Frame(Message(mac, NextCounter(tx, r), r), 0)|
    requires Near(ts, Frame(Message(mac, NextCounter(tx, r), r), 0)[..edges], T, SLACK)
    requires ts != [] ==> QuietGap(Sub32(ts[0] % WRAP, st.oldTime)) && QuietGap(Sub32(now % WRAP, ts[|ts| - 1] % WRAP))
    ensures |heard| == NN && Obeys(mac, d, NextCounter(tx, r), r, heard)
    ensures EventLog(st, Stamps(ts + [now])) == Leftover(st) + [NewCode(heard)]
  {
    var n := NextCounter(tx, r);
    var msg := Message(mac, n, r);
    hide Valid, Near, Frame, QuietGap, Obeys, InReach, Distance, Masked, Message, Leftover, Stamps, EdgesTo;
    hide NextCounter;
    var k;
    k, heard := CutAnywhere(st, msg, edges, T, ts, now);
    if k + MAX_INCOMPLETE_SKIP < NC_DATA_SIZE {
      MoreSymbolsMoreEdges(msg, 0, k + 1, NC_DATA_SIZE - MAX_INCOMPLETE_SKIP);
      assert false;
    }
    MaskedSymbols(heard);
    PrefixDistance(heard, msg, k);
    ObeysThroughNoise(mac, n, r, d, heard);
  }
}
