// What holds in every run of the multicast cluster.
module CausalRuns {
  import opened Bytes
  import opened MulticastFraming
  import CC = CausalClock
  import opened CausalTrace
  import opened CausalSystem

  // ---------------------------------------------------------------------
  // The clock is the history
  // ---------------------------------------------------------------------

  lemma CountsOf(peers: set<Str>, actions: seq<Action>, i: Str)
    requires Runnable(Init(peers), actions) && i in peers
    ensures var s := Final(peers, actions);
            && s.nodes.Keys == peers && GoodTrace(peers, s.trace)
            && Counts(peers, s.trace, i, s.nodes[i].frame, s.nodes[i].clock)
  {
    hide Exec, GoodTrace, Counts;
    RunInv(peers, actions);
  }

  lemma NodesOf(peers: set<Str>, s: System)
    requires Inv(peers, s)
    ensures s.nodes.Keys == peers && GoodTrace(peers, s.trace)
  {
  }

  lemma SendsWeaker(t: Trace, m: nat, n: nat)
    requires SendsAtMost(t, m) && m <= n
    ensures SendsAtMost(t, n)
  {
  }

  /** The own entry and the frame counter are the number of sends exactly until the counter wraps. */
  lemma OwnEntryCountsSends(peers: set<Str>, actions: seq<Action>, i: Str)
    requires Runnable(Init(peers), actions) && i in peers
    ensures var s := Final(peers, actions);
            && i in s.nodes && i in s.nodes[i].clock
            && (s.nodes[i].clock[i] == s.nodes[i].frame == |SentBy(s.trace, i)| <==> |SentBy(s.trace, i)| < TWO_32)
  {
    hide Final, GoodTrace, SentBy;
    CountsOf(peers, actions, i);
    WrapsAt(|SentBy(Final(peers, actions).trace, i)|);
  }

  /** What the clock entries for and at another node are. */
  lemma EntriesOf(peers: set<Str>, actions: seq<Action>, i: Str, k: Str)
    requires Runnable(Init(peers), actions) && i in peers && k in peers && i != k
    ensures var s := Final(peers, actions);
            && s.nodes.Keys == peers && GoodTrace(peers, s.trace)
            && k in s.nodes[i].clock && k in s.nodes[k].clock
            && s.nodes[i].clock[k] == |DeliveredAt(s.trace, i, k)|
            && s.nodes[k].clock[k] == |SentBy(s.trace, k)| % TWO_32
  {
    hide Final, GoodTrace, SentBy, DeliveredAt;
    CountsOf(peers, actions, i);
    CountsOf(peers, actions, k);
  }

  lemma WrappedEntry(delivered: nat, sent: nat)
    requires delivered <= sent <= TWO_32
    ensures delivered <= sent % TWO_32 <==> sent < TWO_32 || delivered == 0
  {
  }

  /**
   The entry for another node counts what was delivered from it: a prefix of its log. It stays
   within the other node's own entry exactly until that wraps.
   */
  lemma ClockIsHistory(peers: set<Str>, actions: seq<Action>, i: Str, k: Str)
    requires Runnable(Init(peers), actions) && i in peers && k in peers && i != k
    requires SendsAtMost(Final(peers, actions).trace, TWO_32)
    ensures var s := Final(peers, actions);
            && i in s.nodes && k in s.nodes && k in s.nodes[i].clock && k in s.nodes[k].clock
            && s.nodes[i].clock[k] == |DeliveredAt(s.trace, i, k)|
            && DeliveredAt(s.trace, i, k) <= SentBy(s.trace, k)
            && (s.nodes[i].clock[k] <= s.nodes[k].clock[k]
                <==> |SentBy(s.trace, k)| < TWO_32 || DeliveredAt(s.trace, i, k) == [])
  {
    EntriesOf(peers, actions, i, k);
    hide Final, GoodTrace, SentBy, DeliveredAt;
    var t := Final(peers, actions).trace;
    DeliveredPrefix(peers, t, i, k);
    WrappedEntry(|DeliveredAt(t, i, k)|, |SentBy(t, k)|);
  }

  /** No node delivers the same message twice, however often it arrives. */
  lemma NothingDeliveredTwice(peers: set<Str>, actions: seq<Action>, p: nat, q: nat)
    requires Runnable(Init(peers), actions)
    requires p < q < |Final(peers, actions).trace| && Final(peers, actions).trace[p].Delivered?
    ensures Final(peers, actions).trace[p] != Final(peers, actions).trace[q]
  {
    hide Exec, GoodTrace;
    RunInv(peers, actions);
    DeliveredOnce(peers, Final(peers, actions).trace, p, q);
  }

  /** Every 2^32-th message of a node has stamp 0 and is delivered nowhere, ever. */
  lemma WrappedNeverDelivered(peers: set<Str>, actions: seq<Action>, k: Str, n: nat, i: Str)
    requires Runnable(Init(peers), actions)
    requires n < |SentBy(Final(peers, actions).trace, k)| && (n + 1) % TWO_32 == 0
    ensures Delivered(i, SentBy(Final(peers, actions).trace, k)[n]) !in Final(peers, actions).trace
  {
    var t := Final(peers, actions).trace;
    RunInv(peers, actions);
    NodesOf(peers, Final(peers, actions));
    StampIsNumber(peers, t, k, n);
    hide Final, GoodTrace, SentBy, DeliveredAt;
    ZeroNeverDelivered(peers, t, i, SentBy(t, k)[n]);
  }

  // ---------------------------------------------------------------------
  // Causality
  // ---------------------------------------------------------------------

  lemma RunIsCausal(peers: set<Str>, actions: seq<Action>)
    requires Runnable(Init(peers), actions) && SendsAtMost(Final(peers, actions).trace, TWO_32)
    ensures Causal(Final(peers, actions).trace)
  {
    hide Exec, GoodTrace, Causal, SendsAtMost, Counts, Holds;
    RunInv(peers, actions);
    CausalDelivery(peers, Final(peers, actions).trace);
  }

  /** In every run, stamps and happens-before agree. */
  lemma RunStamps(peers: set<Str>, actions: seq<Action>, a: Message, b: Message)
    requires Runnable(Init(peers), actions)
    requires SendsAtMost(Final(peers, actions).trace, TWO_32 - 1) && a != b
    requires Sent(a.uuid, a) in Final(peers, actions).trace && Sent(b.uuid, b) in Final(peers, actions).trace
    ensures a.uuid in a.vectorClock && a.uuid in b.vectorClock
    ensures HappensBefore(Final(peers, actions).trace, a, b) <==> a.vectorClock[a.uuid] <= b.vectorClock[a.uuid]
  {
    hide Exec, GoodTrace, HappensBefore, SendsAtMost, Counts, Holds;
    RunInv(peers, actions);
    StampsCharacteriseCausality(peers, Final(peers, actions).trace, a, b);
  }

  // ---------------------------------------------------------------------
  // Nothing is stuck
  // ---------------------------------------------------------------------

  /** Every message of the other nodes reached node `i` at least once. */
  ghost predicate AllArrived(t: Trace, i: Str) {
    forall m: Message :: Sent(m.uuid, m) in t && m.uuid != i ==> Arrived(i, m) in t
  }

  /** Once everything sent earlier by others is covered by the clock, the next message is ready or covered too. */
  lemma NextIsActionable(peers: set<Str>, t: Trace, p: nat, i: Str, clock: Clock)
    requires GoodTrace(peers, t) && SendsAtMost(t, TWO_32 - 1) && i in peers && clock.Keys == peers
    requires p < |t| && t[p].Sent? && t[p].at != i
    requires |SentBy(t, i)| <= clock[i] && forall l :: l in peers && l != i ==> |SentBy(t[..p], l)| <= clock[l]
    ensures CC.Actionable(clock, t[p].msg)
  {
    hide SentBy, DeliveredAt, GoodTrace;
    var k, m := t[p].at, t[p].msg;
    EventAt(peers, t, p);
    SentAtIndex(t, p, k, m);
    if !CC.Stale(clock, m) {
      forall l | l in peers && l != k
        ensures m.vectorClock[l] <= clock[l]
      {
        DependencySent(peers, t, p, k, l);
        LogGrows(t, p, |t|, i, i);
        assert t[..|t|] == t;
      }
    }
  }

  lemma ReachesOne(peers: set<Str>, s: System, i: Str, p: nat)
    requires Inv(peers, s) && SendsAtMost(s.trace, TWO_32 - 1) && i in peers && AllArrived(s.trace, i)
    requires p < |s.trace| && s.trace[p].Sent? && s.trace[p].at != i
    requires var o := CC.DeliverAll(s.nodes[i].clock, s.nodes[i].queue);
             o.clock.Keys == peers && forall l :: l in peers && l != i ==> |SentBy(s.trace[..p], l)| <= o.clock[l]
    ensures var o := CC.DeliverAll(s.nodes[i].clock, s.nodes[i].queue);
            s.trace[p].at in peers && |SentBy(s.trace[..p + 1], s.trace[p].at)| <= o.clock[s.trace[p].at]
  {
    var t, n := s.trace, s.nodes[i];
    var k, m := t[p].at, t[p].msg;
    var o := CC.DeliverAll(n.clock, n.queue);
    SentStamp(peers, t, p);
    OwnEntry(peers, s, i);
    var q := ArrivedAtLoop(peers, s, i, m);
    hide SentBy, DeliveredAt, GoodTrace, CC.DeliverAll, CC.Ready, Inv, SendsAtMost, AllArrived;
    AfterLoop(n.clock, n.queue, q);
    NextIsActionable(peers, t, p, i, o.clock);
    ContentSameTest(o.clock, q);
  }

  lemma SentStamp(peers: set<Str>, t: Trace, p: nat)
    requires GoodTrace(peers, t) && SendsAtMost(t, TWO_32 - 1) && p < |t| && t[p].Sent?
    ensures var k, m := t[p].at, t[p].msg;
            && k in peers && m.uuid == k && Sent(k, m) in t && m.vectorClock.Keys == peers
            && m.vectorClock[k] == |SentBy(t[..p + 1], k)|
  {
    hide SentBy, DeliveredAt, GoodTrace;
    var k, m := t[p].at, t[p].msg;
    EventAt(peers, t, p);
    LogStep(t, p, k, k);
    SentAtIndex(t, p, k, m);
  }

  lemma OwnEntry(peers: set<Str>, s: System, i: Str)
    requires Inv(peers, s) && SendsAtMost(s.trace, TWO_32 - 1) && i in peers
    ensures s.nodes.Keys == peers && s.nodes[i].clock.Keys == peers
    ensures |SentBy(s.trace, i)| == s.nodes[i].clock[i]
  {
    hide SentBy, GoodTrace, Counts, Holds;
    CountsOwn(peers, s.trace, i, s.nodes[i].frame, s.nodes[i].clock);
  }

  lemma CountsOwn(peers: set<Str>, t: Trace, i: Str, frame: U32, clock: Clock)
    requires Counts(peers, t, i, frame, clock) && |SentBy(t, i)| < TWO_32
    ensures clock.Keys == peers && |SentBy(t, i)| == clock[i]
  {
    hide SentBy, DeliveredAt;
  }

  lemma ContentSameTest(clock: Clock, q: Message)
    ensures CC.Stale(clock, q) <==> CC.Stale(clock, Content(q))
    ensures CC.Ready(clock, q) <==> CC.Ready(clock, Content(q))
  {
  }

  /** A message that arrived is either behind the clock or in the queue. */
  lemma ArrivedAtLoop(peers: set<Str>, s: System, i: Str, m: Message) returns (q: Message)
    requires Inv(peers, s) && i in peers && Arrived(i, m) in s.trace
    ensures Content(q) == m && (q in s.nodes[i].queue || CC.Stale(s.nodes[i].clock, q))
  {
    hide GoodTrace, Counts, CC.Stale;
    ArrivedFacts(peers, s.trace, i, m);
    assert Holds(peers, s.trace, i, s.nodes[i].clock, s.nodes[i].queue);
    if CC.Stale(s.nodes[i].clock, m) {
      q := m;
    } else {
      q :| q in s.nodes[i].queue && Content(q) == m;
    }
  }

  /** What the sender had delivered when it stamped its message had been sent. */
  lemma DependencySent(peers: set<Str>, t: Trace, p: nat, k: Str, l: Str)
    requires GoodTrace(peers, t) && SendsAtMost(t, TWO_32) && p <= |t|
    ensures |DeliveredAt(t[..p], k, l)| <= |SentBy(t[..p], l)|
  {
    hide SentBy, DeliveredAt, GoodTrace, SendsAtMost;
    GoodPrefix(peers, t, p);
    SendsPrefix(t, p, TWO_32);
    DeliveredPrefix(peers, t[..p], k, l);
  }

  lemma {:induction false} ReachesAll(peers: set<Str>, s: System, i: Str, p: nat)
    requires Inv(peers, s) && SendsAtMost(s.trace, TWO_32 - 1) && i in peers && AllArrived(s.trace, i)
    requires p <= |s.trace|
    ensures var o := CC.DeliverAll(s.nodes[i].clock, s.nodes[i].queue);
            o.clock.Keys == peers && forall l :: l in peers && l != i ==> |SentBy(s.trace[..p], l)| <= o.clock[l]
  {
    hide SentBy, GoodTrace, SendsAtMost, AllArrived, CC.DeliverAll, Holds;
    var o := CC.DeliverAll(s.nodes[i].clock, s.nodes[i].queue);
    AfterLoop(s.nodes[i].clock, s.nodes[i].queue, Message(0, [], [], map[], []));
    assert Counts(peers, s.trace, i, s.nodes[i].frame, s.nodes[i].clock);
    if p == 0 {
      forall l
        ensures SentBy(s.trace[..0], l) == []
      {
        EmptyLogs(l, l);
      }
    } else {
      ReachesAll(peers, s, i, p - 1);
      if s.trace[p - 1].Sent? && s.trace[p - 1].at != i {
        ReachesOne(peers, s, i, p - 1);
      }
      forall l | l in peers && l != i
        ensures |SentBy(s.trace[..p], l)| <= o.clock[l]
      {
        LogStep(s.trace, p - 1, l, l);
      }
    }
  }

  lemma QueueEmpties(peers: set<Str>, s: System, i: Str)
    requires Inv(peers, s) && SendsAtMost(s.trace, TWO_32 - 1) && i in peers && AllArrived(s.trace, i)
    ensures CC.DeliverAll(s.nodes[i].clock, s.nodes[i].queue).queue == []
  {
    var t, n := s.trace, s.nodes[i];
    var o := CC.DeliverAll(n.clock, n.queue);
    assert Holds(peers, t, i, n.clock, n.queue);
    hide SentBy, DeliveredAt, GoodTrace, CC.DeliverAll, AllArrived, SendsAtMost, CC.Ready;
    ReachesAll(peers, s, i, |t|);
    assert t[..|t|] == t;
    SendsWeaker(t, TWO_32 - 1, TWO_32);
    forall q | q in n.queue
      ensures CC.Stale(o.clock, q)
    {
      ArrivedFacts(peers, t, i, Content(q));
      StampTells(peers, t, Content(q));
    }
    if o.queue != [] {
      AfterLoop(n.clock, n.queue, o.queue[0]);
    }
  }

  /** The delivery step records deliveries and nothing else. */
  lemma OnlyDeliveries(s: System, i: Str, k: Str)
    requires Enabled(s, Deliver(i))
    ensures var t, t' := s.trace, Step(s, Deliver(i)).trace;
            SentBy(t', k) == SentBy(t, k) && forall m :: Arrived(i, m) in t' ==> Arrived(i, m) in t
  {
    var o := CC.DeliverAll(s.nodes[i].clock, s.nodes[i].queue);
    NoSends(s.trace, i, o.delivered, k);
  }

  lemma {:induction false} NoSends(t: Trace, i: Str, ds: seq<Message>, k: Str)
    ensures SentBy(t + Deliveries(i, ds), k) == SentBy(t, k)
    decreases |ds|
  {
    hide SentBy, Deliveries;
    if ds == [] {
      assert t + Deliveries(i, ds) == t;
    } else {
      var e := Delivered(i, Content(ds[0]));
      AppendLog(t, e, k, k);
      NoSends(t + [e], i, ds[1..], k);
      DeliveriesStep(t, i, ds);
    }
  }

  /** Node `i` after the delivery step has delivered everything that anyone ever sent. */
  ghost predicate Complete(peers: set<Str>, s: System, i: Str)
    requires Enabled(s, Deliver(i))
  {
    var c := Step(s, Deliver(i)).nodes[i].clock;
    c.Keys == peers && forall k :: k in peers ==> c[k] == |SentBy(s.trace, k)|
  }

  lemma CompleteIf(peers: set<Str>, s: System, i: Str)
    requires Inv(peers, s) && SendsAtMost(s.trace, TWO_32 - 1) && i in peers && AllArrived(s.trace, i)
    requires Enabled(s, Deliver(i))
    ensures Complete(peers, s, i)
  {
    hide SentBy, DeliveredAt, GoodTrace, SendsAtMost, AllArrived, Inv, CC.DeliverAll, Deliveries;
    var t := s.trace;
    NodesOf(peers, s);
    ReachesAll(peers, s, i, |t|);
    assert t[..|t|] == t;
    DeliveredState(peers, s, i);
    forall k | k in peers
      ensures Step(s, Deliver(i)).nodes[i].clock[k] == |SentBy(t, k)|
    {
      DeliveredAtMost(peers, s, i, k);
    }
  }

  lemma DeliveredState(peers: set<Str>, s: System, i: Str)
    requires Inv(peers, s) && i in peers
    ensures Enabled(s, Deliver(i)) && Inv(peers, Step(s, Deliver(i)))
  {
    hide GoodTrace, Counts, Holds, Step;
    DeliverKeeps(peers, s, i);
  }

  /** After the step the entry for `k` is what was delivered from it, a prefix of what it sent. */
  lemma DeliveredAtMost(peers: set<Str>, s: System, i: Str, k: Str)
    requires Inv(peers, s) && SendsAtMost(s.trace, TWO_32 - 1) && i in peers && k in peers
    ensures Enabled(s, Deliver(i))
    ensures var s' := Step(s, Deliver(i));
            && s'.nodes.Keys == peers && GoodTrace(peers, s'.trace) && SendsAtMost(s'.trace, TWO_32)
            && s'.nodes[i].clock.Keys == peers
            && (if k == i then s'.nodes[i].clock[k] == |SentBy(s.trace, k)|
                else s'.nodes[i].clock[k] == |DeliveredAt(s'.trace, i, k)| <= |SentBy(s.trace, k)|)
            && (k != i ==> DeliveredAt(s'.trace, i, k) <= SentBy(s.trace, k))
  {
    DeliveredState(peers, s, i);
    var s' := Step(s, Deliver(i));
    forall l
      ensures SentBy(s'.trace, l) == SentBy(s.trace, l)
    {
      OnlyDeliveries(s, i, l);
    }
    hide SentBy, DeliveredAt, Step, GoodTrace;
    if k == i {
      OwnEntry(peers, s', i);
    } else {
      EntryCounts(peers, s', i, k);
      DeliveredPrefix(peers, s'.trace, i, k);
    }
  }

  lemma EntryCounts(peers: set<Str>, s: System, i: Str, k: Str)
    requires Inv(peers, s) && i in peers && k in peers && i != k
    ensures s.nodes.Keys == peers && s.nodes[i].clock.Keys == peers
    ensures s.nodes[i].clock[k] == |DeliveredAt(s.trace, i, k)|
  {
    assert Counts(peers, s.trace, i, s.nodes[i].frame, s.nodes[i].clock);
    hide Inv;
  }

  lemma CompleteOnlyIf(peers: set<Str>, s: System, i: Str)
    requires Inv(peers, s) && SendsAtMost(s.trace, TWO_32 - 1) && i in peers && Enabled(s, Deliver(i))
    requires Complete(peers, s, i)
    ensures AllArrived(s.trace, i)
  {
    hide SentBy, DeliveredAt, GoodTrace, SendsAtMost, Inv, Step;
    var s' := Step(s, Deliver(i));
    forall m: Message | Sent(m.uuid, m) in s.trace && m.uuid != i
      ensures Arrived(i, m) in s.trace
    {
      var k := m.uuid;
      NodesOf(peers, s);
      SentFacts(peers, s.trace, m);
      DeliveredAtMost(peers, s, i, k);
      assert DeliveredAt(s'.trace, i, k) == SentBy(s.trace, k);
      var p :| 0 <= p < |s.trace| && s.trace[p] == Sent(k, m);
      SentAtIndex(s.trace, p, k, m);
      var d := DeliveryOf(s'.trace, i, k, |SentBy(s.trace[..p], k)|);
      EventAt(peers, s'.trace, d);
      OnlyDeliveries(s, i, k);
    }
  }

  /** Once all messages of the others have arrived, one run of the loop delivers everything - and only then. */
  lemma NothingStuck(peers: set<Str>, actions: seq<Action>, i: Str)
    requires Runnable(Init(peers), actions) && i in peers
    requires SendsAtMost(Final(peers, actions).trace, TWO_32 - 1)
    ensures Enabled(Final(peers, actions), Deliver(i))
    ensures AllArrived(Final(peers, actions).trace, i) <==> Complete(peers, Final(peers, actions), i)
    ensures AllArrived(Final(peers, actions).trace, i) ==>
              Step(Final(peers, actions), Deliver(i)).nodes[i].queue == []
  {
    RunInv(peers, actions);
    hide Final, Inv, GoodTrace, SendsAtMost, AllArrived, Complete;
    var s := Final(peers, actions);
    DeliveredState(peers, s, i);
    if AllArrived(s.trace, i) {
      QueueEmpties(peers, s, i);
      CompleteIf(peers, s, i);
    } else if Complete(peers, s, i) {
      CompleteOnlyIf(peers, s, i);
    }
  }
}
