/** The send queue of home_easy.py: items wait until the transmitter may be used
    again, and a timer takes them out one by one. */
module SendQueue {
  const SEND_INTERVAL := 2.5
  const RESCHEDULE := 0.05

  datatype Sent<Item> = Sent(time: real, item: Item)

  /** The server, the calls of send_next the reactor still has to make, and what
      has happened so far. */
  datatype Server<Item> = Server(
    queue: seq<Item>, allowSendAt: real,
    pending: seq<real>,
    clock: real, arrived: seq<Item>, sent: seq<Sent<Item>>)

  function Max(a: real, b: real): real
  {
    if a >= b then a else b
  }

  /** send_next at time t, the sending taking some time. */
  function Dispatch<Item>(s: Server<Item>, t: real, duration: real): Server<Item>
  {
    if s.queue == [] then s.(clock := t)
    else if t >= s.allowSendAt then
      var u := s.(queue := s.queue[1..], allowSendAt := t + SEND_INTERVAL,
                  sent := s.sent + [Sent(t, s.queue[0])], clock := t + duration);
      if u.queue == [] then u
      else u.(pending := u.pending + [u.clock + RESCHEDULE + Max(0.0, u.allowSendAt - u.clock)])
    else s.(clock := t, pending := s.pending + [t + RESCHEDULE + Max(0.0, s.allowSendAt - t)])
  }

  datatype Event<Item> =
    | Arrive(item: Item, time: real, duration: real)     // an accepted datagram
    | Fire(time: real, duration: real)                   // the reactor makes the next call

  function Next<Item>(s: Server<Item>, e: Event<Item>): Server<Item>
  {
    match e
    case Arrive(item, t, duration) =>
      var u := s.(queue := s.queue + [item], arrived := s.arrived + [item], clock := t);
      if |u.queue| == 1 then Dispatch(u, t, duration) else u
    case Fire(t, duration) =>
      if s.pending == [] then s else Dispatch(s.(pending := s.pending[1..]), t, duration)
  }

  /** The clock does not go back, and the reactor calls nothing early. */
  predicate Possible<Item>(s: Server<Item>, e: Event<Item>)
  {
    && e.time >= s.clock && e.duration >= 0.0
    && (e.Fire? ==> s.pending != [] && e.time >= s.pending[0])
  }

  predicate Schedule<Item>(s: Server<Item>, events: seq<Event<Item>>)
    decreases |events|
  {
    events == [] || (Possible(s, events[0]) && Schedule(Next(s, events[0]), events[1..]))
  }

  function Run<Item>(s: Server<Item>, events: seq<Event<Item>>): Server<Item>
    decreases |events|
  {
    if events == [] then s else Run(Next(s, events[0]), events[1..])
  }

  function ItemsOf<Item>(sent: seq<Sent<Item>>): (items: seq<Item>)
    ensures |items| == |sent|
    ensures forall i :: 0 <= i < |sent| ==> items[i] == sent[i].item
  {
    seq(|sent|, i requires 0 <= i < |sent| => sent[i].item)
  }

  /** One call is pending exactly when something is queued, not before the
      transmitter may be used and hardly later; that is 2.5 seconds after the last
      send; everything that arrived was sent, in order, or is queued; and sends
      are an interval apart. */
  ghost predicate Valid<Item>(s: Server<Item>)
  {
    && |s.pending| == (if s.queue == [] then 0 else 1)
    && (s.queue != [] ==> s.allowSendAt <= s.pending[0] <= Max(s.clock, s.allowSendAt) + 0.05)
    && s.allowSendAt == (if s.sent == [] then 0.0 else s.sent[|s.sent| - 1].time + 2.5)
    && s.arrived == ItemsOf(s.sent) + s.queue
    && (forall i, j :: 0 <= i < j < |s.sent| ==> s.sent[i].time + SEND_INTERVAL <= s.sent[j].time)
    && (forall i :: 0 <= i < |s.sent| ==> s.sent[i].time + SEND_INTERVAL <= s.allowSendAt)
  }

  /** The server as it is constructed. */
  function Idle<Item>(): Server<Item>
  {
    Server([], 0.0, [], 0.0, [], [])
  }

  lemma IdleIsValid<Item>()
    ensures Valid(Idle<Item>())
  {
  }

  lemma TakeOne<Item>(arrived: seq<Item>, sent: seq<Sent<Item>>, queue: seq<Item>, t: real)
    requires arrived == ItemsOf(sent) + queue && queue != []
    ensures arrived == ItemsOf(sent + [Sent(t, queue[0])]) + queue[1..]
  {
    assert ItemsOf(sent + [Sent(t, queue[0])]) == ItemsOf(sent) + [queue[0]];
    assert queue == [queue[0]] + queue[1..];
  }

  /** send_next when no other call of it is pending. */
  lemma DispatchValid<Item>(s: Server<Item>, t: real, duration: real)
    requires s.pending == [] && s.arrived == ItemsOf(s.sent) + s.queue
    requires forall i, j :: 0 <= i < j < |s.sent| ==> s.sent[i].time + SEND_INTERVAL <= s.sent[j].time
    requires forall i :: 0 <= i < |s.sent| ==> s.sent[i].time + SEND_INTERVAL <= s.allowSendAt
    requires s.allowSendAt == if s.sent == [] then 0.0 else s.sent[|s.sent| - 1].time + 2.5
    requires duration >= 0.0
    ensures Valid(Dispatch(s, t, duration))
    ensures Dispatch(s, t, duration).sent
         == if s.queue != [] && t >= s.allowSendAt then s.sent + [Sent(t, s.queue[0])] else s.sent
  {
    if s.queue != [] && t >= s.allowSendAt {
      TakeOne(s.arrived, s.sent, s.queue, t);
    }
    hide ItemsOf;
  }

  lemma ArriveValid<Item>(s: Server<Item>, item: Item, t: real, duration: real)
    requires Valid(s) && t >= s.clock && duration >= 0.0
    ensures var next := Next(s, Arrive(item, t, duration));
      && Valid(next)
      && next.sent == if s.queue == [] && t >= s.allowSendAt then s.sent + [Sent(t, item)] else s.sent
  {
    var u := s.(queue := s.queue + [item], arrived := s.arrived + [item], clock := t);
    hide Dispatch;
    assert u.arrived == ItemsOf(u.sent) + u.queue;
    hide ItemsOf;
    if |u.queue| == 1 {
      DispatchValid(u, t, duration);
    }
  }

  lemma NextValid<Item>(s: Server<Item>, e: Event<Item>)
    requires Valid(s) && Possible(s, e)
    ensures Valid(Next(s, e))
    ensures e.Fire? ==> s.queue != [] && Next(s, e).sent == s.sent + [Sent(e.time, s.queue[0])]
    ensures e.Arrive? ==>
      Next(s, e).sent == if s.queue == [] && e.time >= s.allowSendAt then s.sent + [Sent(e.time, e.item)] else s.sent
  {
    match e {
      case Arrive(item, t, duration) =>
        ArriveValid(s, item, t, duration);
      case Fire(t, duration) =>
        DispatchValid(s.(pending := s.pending[1..]), t, duration);
        hide Dispatch, ItemsOf;
    }
  }

  /** In every run exactly one call is pending while anything is queued, items
      are sent once each in the order they came, and sends keep their distance. */
  lemma {:induction false} RunValid<Item>(s: Server<Item>, events: seq<Event<Item>>)
    requires Valid(s) && Schedule(s, events)
    ensures Valid(Run(s, events))
    decreases |events|
  {
    hide Next, Valid;
    if events != [] {
      NextValid(s, events[0]);
      RunValid(Next(s, events[0]), events[1..]);
    }
  }

  ghost predicate OnlyFires<Item>(events: seq<Event<Item>>)
  {
    forall i :: 0 <= i < |events| ==> events[i].Fire?
  }

  /** No call is wasted: each sends an item, so as many calls as items are
      queued empty the queue. */
  lemma {:induction false} EachCallSends<Item>(s: Server<Item>, events: seq<Event<Item>>)
    requires Valid(s) && Schedule(s, events) && OnlyFires(events)
    ensures |events| <= |s.queue|
    ensures ItemsOf(Run(s, events).sent) == ItemsOf(s.sent) + s.queue[..|events|]
    ensures Run(s, events).queue == s.queue[|events|..]
    decreases |events|
  {
    if events != [] {
      var next := Next(s, events[0]);
      assert events[0].Fire?;
      NextValid(s, events[0]);
      assert next.queue == s.queue[1..];
      assert ItemsOf(next.sent) == ItemsOf(s.sent) + [s.queue[0]];
      hide Next, Valid, ItemsOf;
      EachCallSends(next, events[1..]);
      assert s.queue[1..][..|events| - 1] == s.queue[1..|events|];
      assert [s.queue[0]] + s.queue[1..|events|] == s.queue[..|events|];
    }
  }

  /** home_easy.py's Server433, with the reactor and the clock as arguments. */
  class Server433<Item> {
    var sendQueue: seq<Item>
    var allowSendAt: real
    var calls: seq<real>                  // reactor.callLater(..., self.send_next)
    ghost var arrived: seq<Item>
    ghost var sent: seq<Sent<Item>>

    ghost function Abs(clock: real): Server<Item>
      reads this
    {
      Server(sendQueue, allowSendAt, calls, clock, arrived, sent)
    }

    constructor ()
      ensures Abs(0.0) == Idle() && Valid(Abs(0.0))
    {
      sendQueue, allowSendAt, calls, arrived, sent := [], 0.0, [], [], [];
    }

    method CallLater(now: real, delay: real)
      modifies this`calls
      ensures calls == old(calls) + [now + delay]
    {
      calls := calls + [now + delay];
    }

    method SendNext(t: real, duration: real) returns (clock: real)
      modifies this
      ensures Abs(clock) == Dispatch(old(Abs(t)), t, duration)
    {
      clock := t;
      if |sendQueue| == 0 {
        return;
      }
      if t >= allowSendAt {
        var data := sendQueue[0];
        sendQueue := sendQueue[1..];
        allowSendAt := t + SEND_INTERVAL;
        sent := sent + [Sent(t, data)];
        clock := t + duration;
        if |sendQueue| == 0 {
          return;
        }
      }
      CallLater(clock, RESCHEDULE + Max(0.0, allowSendAt - clock));
    }

    method DatagramReceived(data: Item, t: real, duration: real) returns (clock: real)
      modifies this
      ensures Abs(clock) == Next(old(Abs(t)), Arrive(data, t, duration))
    {
      clock := t;
      arrived := arrived + [data];
      sendQueue := sendQueue + [data];
      if |sendQueue| == 1 {
        clock := SendNext(t, duration);
      }
    }

    /** The reactor makes the call that is due. */
    method TimerFires(t: real, duration: real) returns (clock: real)
      requires calls != []
      modifies this
      ensures Abs(clock) == Next(old(Abs(t)), Fire(t, duration))
    {
      calls := calls[1..];
      clock := SendNext(t, duration);
    }
  }
}
