// A cluster of nodes on one peer set, each running the multicast of
// server/multicast/multicast.go, over a network that loses, repeats and reorders datagrams.
module CausalSystem {
  import opened Bytes
  import opened MulticastFraming
  import CC = CausalClock
  import opened CausalTrace

  datatype Node = Node(frame: U32, clock: Clock, queue: seq<Message>)

  /**
   `trace` is the history of the run, with messages as they can be seen at the other end; no step
   reads it except to know what is on the network.
   */
  datatype System = System(nodes: map<Str, Node>, trace: Trace)

  function ZeroClock(peers: set<Str>): Clock { map k | k in peers :: 0 }

  function Init(peers: set<Str>): System {
    System(map i | i in peers :: Node(0, ZeroClock(peers), []), [])
  }

  // ---------------------------------------------------------------------
  // Steps
  // ---------------------------------------------------------------------

  datatype Action =
    | Send(at: Str, body: Str)
    | Arrive(at: Str, msg: Message, ip: Str)
    | Deliver(at: Str)

  /** A message apart from the address it was received from. */
  function Content(m: Message): Message { m.(ip := []) }

  function Stamped(n: Node, i: Str, body: Str): Message
    requires i in n.clock
  {
    Message(n.frame, [], i, CC.Bump(n.clock, i), body)
  }

  /** What of a message is to be seen at the other end: bytes beyond the read buffer are zero. */
  function Visible(m: Message): Message {
    m.(message := Cut(m.message, if BodyRoom(m) < 0 then 0 else BodyRoom(m)))
  }

  /**
   Sending needs the own entry in the clock, as the code insists. Anything ever sent may
   arrive at any other node, any number of times, at any later time, or never.
   */
  predicate Enabled(s: System, a: Action) {
    && a.at in s.nodes
    && (a.Send? ==> a.at in s.nodes[a.at].clock)
    && (a.Arrive? ==> a.msg.uuid != a.at && Sent(a.msg.uuid, a.msg) in s.trace)
  }

  function Deliveries(i: Str, ds: seq<Message>): (t: Trace)
    ensures |t| == |ds|
  {
    seq(|ds|, n requires 0 <= n < |ds| => Delivered(i, Content(ds[n])))
  }

  function Step(s: System, a: Action): System
    requires Enabled(s, a)
  {
    var n := s.nodes[a.at];
    match a
    case Send(i, body) =>
      System(s.nodes[i := Node(Inc32(n.frame), CC.Bump(n.clock, i), n.queue)],
             s.trace + [Sent(i, Visible(Stamped(n, i, body)))])
    case Arrive(i, m, ip) =>
      System(s.nodes[i := n.(queue := n.queue + [m.(ip := ip)])], s.trace + [Arrived(i, m)])
    case Deliver(i) =>
      var o := CC.DeliverAll(n.clock, n.queue);
      System(s.nodes[i := Node(n.frame, o.clock, o.queue)], s.trace + Deliveries(i, o.delivered))
  }

  predicate Runnable(s: System, actions: seq<Action>)
    decreases |actions|
  {
    actions != [] ==> Enabled(s, actions[0]) && Runnable(Step(s, actions[0]), actions[1..])
  }

  function Exec(s: System, actions: seq<Action>): System
    requires Runnable(s, actions)
    decreases |actions|
  {
    if actions == [] then s else Exec(Step(s, actions[0]), actions[1..])
  }

  // ---------------------------------------------------------------------
  // The state of a node is its history
  // ---------------------------------------------------------------------

  /** Frame and clock of node `i` count what it sent and delivered. */
  ghost predicate Counts(peers: set<Str>, t: Trace, i: Str, frame: U32, clock: Clock) {
    && clock.Keys == peers && i in peers
    && frame == |SentBy(t, i)| % TWO_32
    && clock[i] == |SentBy(t, i)| % TWO_32
    && forall k :: k in peers && k != i ==> clock[k] == |DeliveredAt(t, i, k)|
  }

  /** Everything in the queue arrived; everything that arrived is queued or its stamp was passed. */
  ghost predicate Holds(peers: set<Str>, t: Trace, i: Str, clock: Clock, queue: seq<Message>) {
    && (forall m :: m in queue ==> Arrived(i, Content(m)) in t)
    && forall m :: Arrived(i, m) in t ==> CC.Stale(clock, m) || exists q :: q in queue && Content(q) == m
  }

  ghost predicate Inv(peers: set<Str>, s: System) {
    && s.nodes.Keys == peers
    && GoodTrace(peers, s.trace)
    && forall i :: i in peers ==>
         && Counts(peers, s.trace, i, s.nodes[i].frame, s.nodes[i].clock)
         && Holds(peers, s.trace, i, s.nodes[i].clock, s.nodes[i].queue)
  }

  lemma AppendGood(peers: set<Str>, t: Trace, e: Event)
    requires GoodTrace(peers, t) && EventOk(peers, t, e)
    ensures GoodTrace(peers, t + [e])
  {
    hide EventOk;
    var t' := t + [e];
    forall p | 0 <= p < |t'|
      ensures EventOk(peers, t'[..p], t'[p])
    {
      if p < |t| {
        assert t'[..p] == t[..p] && t'[p] == t[p];
        EventAt(peers, t, p);
      } else {
        assert t'[..p] == t;
      }
    }
  }

  /** An event elsewhere changes nothing that node `i` counts. */
  lemma CountsKept(peers: set<Str>, t: Trace, e: Event, i: Str, frame: U32, clock: Clock)
    requires Counts(peers, t, i, frame, clock)
    requires e.at != i || e.Arrived?
    ensures Counts(peers, t + [e], i, frame, clock)
  {
    hide SentBy, DeliveredAt;
    AppendLog(t, e, i, i);
    forall k | k in peers && k != i
      ensures clock[k] == |DeliveredAt(t + [e], i, k)|
    {
      AppendLog(t, e, i, k);
    }
  }

  lemma HoldsKept(peers: set<Str>, t: Trace, e: Event, i: Str, clock: Clock, queue: seq<Message>)
    requires Holds(peers, t, i, clock, queue)
    requires e.at != i || !e.Arrived?
    ensures Holds(peers, t + [e], i, clock, queue)
  {
    hide CC.Stale;
  }

  lemma ArrivedFacts(peers: set<Str>, t: Trace, i: Str, m: Message)
    requires GoodTrace(peers, t) && Arrived(i, m) in t
    ensures m.uuid != i && m.uuid in peers && m.vectorClock.Keys == peers && m.ip == [] && Sent(m.uuid, m) in t
  {
    var p :| 0 <= p < |t| && t[p] == Arrived(i, m);
    hide GoodTrace;
    EventAt(peers, t, p);
  }

  lemma SentFacts(peers: set<Str>, t: Trace, m: Message)
    requires GoodTrace(peers, t) && Sent(m.uuid, m) in t
    ensures m.uuid in peers && m.vectorClock.Keys == peers && m.ip == []
  {
    var p :| 0 <= p < |t| && t[p] == Sent(m.uuid, m);
    hide GoodTrace;
    EventAt(peers, t, p);
  }

  // Sending

  /** The event that a send records. */
  lemma SendIsOk(peers: set<Str>, t: Trace, i: Str, n: Node, m: Message)
    requires Counts(peers, t, i, n.frame, n.clock)
    requires m.uuid == i && m.ip == [] && m.frame == n.frame && m.vectorClock == CC.Bump(n.clock, i)
    ensures EventOk(peers, t, Sent(i, m))
  {
    hide SentBy, DeliveredAt;
    IncWraps(|SentBy(t, i)|);
    hide Inc32;
  }

  lemma SendCounts(peers: set<Str>, t: Trace, i: Str, n: Node, m: Message)
    requires Counts(peers, t, i, n.frame, n.clock)
    ensures Counts(peers, t + [Sent(i, m)], i, Inc32(n.frame), CC.Bump(n.clock, i))
  {
    hide SentBy, DeliveredAt, Inc32;
    AppendLog(t, Sent(i, m), i, i);
    IncWraps(|SentBy(t, i)|);
    forall k | k in peers && k != i
      ensures n.clock[k] == |DeliveredAt(t + [Sent(i, m)], i, k)|
    {
      AppendLog(t, Sent(i, m), i, k);
    }
  }

  lemma SendHolds(peers: set<Str>, t: Trace, i: Str, n: Node)
    requires GoodTrace(peers, t) && i in n.clock && Holds(peers, t, i, n.clock, n.queue)
    ensures Holds(peers, t, i, CC.Bump(n.clock, i), n.queue)
  {
    hide GoodTrace;
    var clock := CC.Bump(n.clock, i);
    forall m | Arrived(i, m) in t
      ensures CC.Stale(clock, m) || exists q :: q in n.queue && Content(q) == m
    {
      ArrivedFacts(peers, t, i, m);
    }
  }

  lemma SendKeeps(peers: set<Str>, s: System, i: Str, body: Str)
    requires Inv(peers, s) && Enabled(s, Send(i, body))
    ensures Inv(peers, Step(s, Send(i, body)))
  {
    hide GoodTrace, Counts, Holds, EventOk, CC.Bump, Cut, BodyRoom;
    var t, n := s.trace, s.nodes[i];
    var s' := Step(s, Send(i, body));
    var e := Sent(i, Visible(Stamped(n, i, body)));
    SendIsOk(peers, t, i, n, e.msg);
    SendCounts(peers, t, i, n, e.msg);
    AppendGood(peers, t, e);
    SendHolds(peers, t, i, n);
    HoldsKept(peers, t, e, i, CC.Bump(n.clock, i), n.queue);
    forall j | j in peers && j != i
      ensures Counts(peers, t + [e], j, s'.nodes[j].frame, s'.nodes[j].clock)
      ensures Holds(peers, t + [e], j, s'.nodes[j].clock, s'.nodes[j].queue)
    {
      CountsKept(peers, t, e, j, s.nodes[j].frame, s.nodes[j].clock);
      HoldsKept(peers, t, e, j, s.nodes[j].clock, s.nodes[j].queue);
    }
  }

  // Arrival

  lemma ArriveHolds(peers: set<Str>, t: Trace, i: Str, clock: Clock, queue: seq<Message>, m: Message, ip: Str)
    requires Holds(peers, t, i, clock, queue) && m.ip == []
    ensures Holds(peers, t + [Arrived(i, m)], i, clock, queue + [m.(ip := ip)])
  {
    hide CC.Stale;
    var queue' := queue + [m.(ip := ip)];
    assert queue'[|queue|] == m.(ip := ip) && Content(queue'[|queue|]) == m;
    assert forall q :: q in queue ==> q in queue';
  }

  lemma ArriveKeeps(peers: set<Str>, s: System, i: Str, m: Message, ip: Str)
    requires Inv(peers, s) && Enabled(s, Arrive(i, m, ip))
    ensures Inv(peers, Step(s, Arrive(i, m, ip)))
  {
    hide GoodTrace, Counts, Holds;
    var t, e := s.trace, Arrived(i, m);
    var s' := Step(s, Arrive(i, m, ip));
    SentFacts(peers, t, m);
    assert EventOk(peers, t, e);
    AppendGood(peers, t, e);
    ArriveHolds(peers, t, i, s.nodes[i].clock, s.nodes[i].queue, m, ip);
    forall j | j in peers
      ensures Counts(peers, t + [e], j, s'.nodes[j].frame, s'.nodes[j].clock)
      ensures Holds(peers, t + [e], j, s'.nodes[j].clock, s'.nodes[j].queue)
    {
      CountsKept(peers, t, e, j, s.nodes[j].frame, s.nodes[j].clock);
      if j != i {
        HoldsKept(peers, t, e, j, s.nodes[j].clock, s.nodes[j].queue);
      }
    }
  }

  // Delivery

  lemma DeliverOne(peers: set<Str>, t: Trace, i: Str, frame: U32, clock: Clock, d: Message)
    requires GoodTrace(peers, t) && Counts(peers, t, i, frame, clock)
    requires CC.Ready(clock, d) && Arrived(i, Content(d)) in t
    ensures var e := Delivered(i, Content(d));
            GoodTrace(peers, t + [e]) && Counts(peers, t + [e], i, frame, CC.Bump(clock, d.uuid))
  {
    hide SentBy, DeliveredAt, GoodTrace;
    var e := Delivered(i, Content(d));
    ArrivedFacts(peers, t, i, Content(d));
    assert EventOk(peers, t, e);
    AppendGood(peers, t, e);
    AppendLog(t, e, i, i);
    forall k | k in peers && k != i
      ensures CC.Bump(clock, d.uuid)[k] == |DeliveredAt(t + [e], i, k)|
    {
      AppendLog(t, e, i, k);
    }
  }

  lemma DeliveriesStep(t: Trace, i: Str, ds: seq<Message>)
    requires ds != []
    ensures t + Deliveries(i, ds) == (t + [Delivered(i, Content(ds[0]))]) + Deliveries(i, ds[1..])
  {
  }

  lemma {:induction false} DeliverSeq(peers: set<Str>, t: Trace, i: Str, frame: U32, clock: Clock, ds: seq<Message>)
    requires GoodTrace(peers, t) && Counts(peers, t, i, frame, clock) && CC.Legal(clock, ds)
    requires forall d :: d in ds ==> Arrived(i, Content(d)) in t
    ensures GoodTrace(peers, t + Deliveries(i, ds))
    ensures Counts(peers, t + Deliveries(i, ds), i, frame, CC.After(clock, ds))
    decreases |ds|
  {
    hide GoodTrace, Counts, Deliveries;
    if ds == [] {
      assert t + Deliveries(i, ds) == t;
    } else {
      DeliverOne(peers, t, i, frame, clock, ds[0]);
      DeliverSeq(peers, t + [Delivered(i, Content(ds[0]))], i, frame, CC.Bump(clock, ds[0].uuid), ds[1..]);
      DeliveriesStep(t, i, ds);
    }
  }

  lemma {:induction false} OthersKeep(peers: set<Str>, t: Trace, i: Str, ds: seq<Message>, j: Str, n: Node)
    requires Counts(peers, t, j, n.frame, n.clock) && Holds(peers, t, j, n.clock, n.queue) && j != i
    ensures Counts(peers, t + Deliveries(i, ds), j, n.frame, n.clock)
    ensures Holds(peers, t + Deliveries(i, ds), j, n.clock, n.queue)
    decreases |ds|
  {
    hide Counts, Holds, Deliveries;
    if ds == [] {
      assert t + Deliveries(i, ds) == t;
    } else {
      var e := Delivered(i, Content(ds[0]));
      CountsKept(peers, t, e, j, n.frame, n.clock);
      HoldsKept(peers, t, e, j, n.clock, n.queue);
      OthersKeep(peers, t + [e], i, ds[1..], j, n);
      DeliveriesStep(t, i, ds);
    }
  }

  /** Where a queued message can be after the delivery loop. */
  lemma AfterLoop(clock: Clock, queue: seq<Message>, m: Message)
    ensures var o := CC.DeliverAll(clock, queue);
            && CC.Leq(clock, o.clock)
            && (m in o.queue ==> m in queue && !CC.Actionable(o.clock, m))
            && (m in o.delivered ==> m in queue)
            && (m in queue ==> CC.Stale(o.clock, m) || m in o.queue)
  {
    var o := CC.DeliverAll(clock, queue);
    CC.DeliverAllSettles(clock, queue);
    CC.AfterGrows(clock, o.delivered);
    hide CC.DeliverAll, CC.Ready, CC.Stale, CC.Legal;
    assert m in queue <==> m in multiset(queue);
    assert m in o.queue <==> m in multiset(o.queue);
    assert m in o.delivered <==> m in multiset(o.delivered);
    assert m in o.dropped <==> m in multiset(o.dropped);
  }

  lemma DeliverHolds(peers: set<Str>, t: Trace, i: Str, n: Node)
    requires Holds(peers, t, i, n.clock, n.queue)
    ensures var o := CC.DeliverAll(n.clock, n.queue);
            Holds(peers, t + Deliveries(i, o.delivered), i, o.clock, o.queue)
  {
    var o := CC.DeliverAll(n.clock, n.queue);
    var t' := t + Deliveries(i, o.delivered);
    hide CC.DeliverAll, CC.Actionable;
    forall m | m in o.queue
      ensures Arrived(i, Content(m)) in t'
    {
      AfterLoop(n.clock, n.queue, m);
    }
    forall m | Arrived(i, m) in t'
      ensures CC.Stale(o.clock, m) || exists q :: q in o.queue && Content(q) == m
    {
      assert Arrived(i, m) in t;
      if CC.Stale(n.clock, m) {
        AfterLoop(n.clock, n.queue, m);
      } else {
        var q :| q in n.queue && Content(q) == m;
        AfterLoop(n.clock, n.queue, q);
      }
    }
  }

  lemma DeliverSelf(peers: set<Str>, t: Trace, i: Str, n: Node)
    requires GoodTrace(peers, t) && Counts(peers, t, i, n.frame, n.clock) && Holds(peers, t, i, n.clock, n.queue)
    ensures var o := CC.DeliverAll(n.clock, n.queue);
            var t' := t + Deliveries(i, o.delivered);
            GoodTrace(peers, t') && Counts(peers, t', i, n.frame, o.clock) && Holds(peers, t', i, o.clock, o.queue)
  {
    hide CC.DeliverAll, CC.Actionable, CC.Stale, CC.Legal, GoodTrace, Counts, Deliveries;
    var o := CC.DeliverAll(n.clock, n.queue);
    CC.DeliverAllSettles(n.clock, n.queue);
    forall d | d in o.delivered
      ensures Arrived(i, Content(d)) in t
    {
      AfterLoop(n.clock, n.queue, d);
    }
    DeliverHolds(peers, t, i, n);
    DeliverSeq(peers, t, i, n.frame, n.clock, o.delivered);
  }

  lemma DeliverKeeps(peers: set<Str>, s: System, i: Str)
    requires Inv(peers, s) && Enabled(s, Deliver(i))
    ensures Inv(peers, Step(s, Deliver(i)))
  {
    hide CC.DeliverAll, GoodTrace, Counts, Holds, Deliveries;
    var t, n, s' := s.trace, s.nodes[i], Step(s, Deliver(i));
    DeliverSelf(peers, t, i, n);
    forall j | j in peers && j != i
      ensures Counts(peers, s'.trace, j, s'.nodes[j].frame, s'.nodes[j].clock)
      ensures Holds(peers, s'.trace, j, s'.nodes[j].clock, s'.nodes[j].queue)
    {
      OthersKeep(peers, t, i, CC.DeliverAll(n.clock, n.queue).delivered, j, s.nodes[j]);
    }
  }

  // Whole runs

  lemma InitInv(peers: set<Str>)
    ensures Inv(peers, Init(peers))
  {
    forall i, k
      ensures SentBy([], i) == [] && DeliveredAt([], i, k) == []
    {
      EmptyLogs(i, k);
      EmptyLogs(i, i);
    }
  }

  lemma {:induction false} ExecInv(peers: set<Str>, s: System, actions: seq<Action>)
    requires Inv(peers, s) && Runnable(s, actions)
    ensures Inv(peers, Exec(s, actions))
    decreases |actions|
  {
    hide Inv, Step;
    if actions == [] {
    } else {
      match actions[0] {
        case Send(i, body) => SendKeeps(peers, s, i, body);
        case Arrive(i, m, ip) => ArriveKeeps(peers, s, i, m, ip);
        case Deliver(i) => DeliverKeeps(peers, s, i);
      }
      ExecInv(peers, Step(s, actions[0]), actions[1..]);
    }
  }

  /** The state at the end of a run from the start. */
  function Final(peers: set<Str>, actions: seq<Action>): System
    requires Runnable(Init(peers), actions)
  {
    Exec(Init(peers), actions)
  }

  lemma RunInv(peers: set<Str>, actions: seq<Action>)
    requires Runnable(Init(peers), actions)
    ensures Inv(peers, Final(peers, actions))
  {
    InitInv(peers);
    ExecInv(peers, Init(peers), actions);
  }
}
