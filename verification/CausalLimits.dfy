// Where causal delivery ends: the 32-bit clock wraps.
module CausalLimits {
  import opened Bytes
  import opened MulticastFraming
  import CC = CausalClock
  import opened CausalTrace
  import opened CausalSystem
  import opened CausalRuns
  import MessageCodec
  import MulticastAcks
  import RM = ReliableMulticast

  /** Ids as the framing carries them. */
  ghost predicate Uuids(peers: set<Str>) { forall id :: id in peers ==> |id| == 36 }

  /** Every run in which no node sends more than `n` messages delivers causally. */
  ghost predicate CausalUpTo(n: nat) {
    forall peers: set<Str>, actions: seq<Action> ::
      Uuids(peers) && Runnable(Init(peers), actions) && SendsAtMost(Final(peers, actions).trace, n)
      ==> Causal(Final(peers, actions).trace)
  }

  /** Happens-before and the stamps say the same about `a` and `b`. */
  ghost predicate StampsAgree(t: Trace, a: Message, b: Message) {
    && a.uuid in a.vectorClock && a.uuid in b.vectorClock
    && (HappensBefore(t, a, b) <==> a.vectorClock[a.uuid] <= b.vectorClock[a.uuid])
  }

  /** In every such run they do so about all messages. */
  ghost predicate StampsUpTo(n: nat) {
    forall peers: set<Str>, actions: seq<Action> ::
      Uuids(peers) && Runnable(Init(peers), actions) && SendsAtMost(Final(peers, actions).trace, n)
      ==> AllStampsAgree(Final(peers, actions).trace)
  }

  ghost predicate AllStampsAgree(t: Trace) {
    forall a: Message, b: Message :: Sent(a.uuid, a) in t && Sent(b.uuid, b) in t && a != b ==> StampsAgree(t, a, b)
  }

  /** In every such run, a node that all messages have reached gets everything delivered. */
  ghost predicate CompleteUpTo(n: nat) {
    forall peers: set<Str>, actions: seq<Action>, i: Str ::
      Uuids(peers) && Runnable(Init(peers), actions) && SendsAtMost(Final(peers, actions).trace, n)
      && i in peers && AllArrived(Final(peers, actions).trace, i)
      ==> Enabled(Final(peers, actions), Deliver(i)) && Complete(peers, Final(peers, actions), i)
  }

  // ---------------------------------------------------------------------
  // A run past the wrap
  // ---------------------------------------------------------------------

  const X: Str := Zeros(35) + [120]
  const Y: Str := Zeros(35) + [121]

  lemma TwoIds()
    ensures X != Y && |X| == |Y| == 36 && Uuids({X, Y})
  {
    assert X[35] != Y[35];
  }

  /** X sends `n` messages: the first has body [0], all others [1]. */
  function Body(k: nat): Str { if k == 0 then [0] else [1] }

  function Sends(n: nat): seq<Action> {
    if n == 0 then [] else Sends(n - 1) + [Send(X, Body(n - 1))]
  }

  function Nth(k: nat): Message {
    Message(k % TWO_32, [], X, map[X := (k + 1) % TWO_32, Y := 0], Body(k))
  }

  function SendTrace(n: nat): (t: Trace)
    ensures |t| == n
    ensures forall k :: 0 <= k < n ==> t[k] == Sent(X, Nth(k))
  {
    if n == 0 then [] else SendTrace(n - 1) + [Sent(X, Nth(n - 1))]
  }

  function AfterSends(n: nat): System {
    System(map[X := Node(n % TWO_32, map[X := n % TWO_32, Y := 0], []), Y := Node(0, map[X := 0, Y := 0], [])],
           SendTrace(n))
  }

  lemma {:induction false} ExecAppend(s: System, actions: seq<Action>, a: Action)
    requires Runnable(s, actions) && Enabled(Exec(s, actions), a)
    ensures Runnable(s, actions + [a]) && Exec(s, actions + [a]) == Step(Exec(s, actions), a)
    decreases |actions|
  {
    hide Enabled, Step;
    if actions == [] {
      assert [a][1..] == [];
    } else {
      assert (actions + [a])[1..] == actions[1..] + [a];
      ExecAppend(Step(s, actions[0]), actions[1..], a);
    }
  }

  lemma NthIsStamped(n: nat)
    ensures X in AfterSends(n).nodes && X in AfterSends(n).nodes[X].clock
    ensures Stamped(AfterSends(n).nodes[X], X, Body(n)) == Nth(n)
    ensures Visible(Nth(n)) == Nth(n)
  {
    TwoIds();
    hide SendTrace;
    IncWraps(n);
    assert Nth(n).vectorClock.Keys == {X, Y};
    assert |Nth(n).vectorClock| == |{X, Y}| == 2;
  }

  lemma TraceStep(n: nat)
    ensures SendTrace(n + 1) == SendTrace(n) + [Sent(X, Nth(n))]
  {
  }

  lemma ClockStep(n: nat)
    ensures var clock: Clock := map[X := n % TWO_32, Y := 0];
            CC.Bump(clock, X) == map[X := (n + 1) % TWO_32, Y := 0]
  {
    TwoIds();
    IncWraps(n);
  }

  lemma NodesStep(n: nat)
    ensures var clock: Clock := map[X := n % TWO_32, Y := 0];
            AfterSends(n + 1).nodes == AfterSends(n).nodes[X := Node(Inc32(n % TWO_32), CC.Bump(clock, X), [])]
  {
    TwoIds();
    ClockStep(n);
    hide SendTrace, CC.Bump;
    IncWraps(n);
    var clock: Clock := map[X := n % TWO_32, Y := 0];
    var nodes := AfterSends(n).nodes[X := Node(Inc32(n % TWO_32), CC.Bump(clock, X), [])];
    assert nodes[X] == AfterSends(n + 1).nodes[X] && nodes[Y] == AfterSends(n + 1).nodes[Y];
    assert nodes.Keys == {X, Y} == AfterSends(n + 1).nodes.Keys;
  }

  lemma SendStep(n: nat)
    ensures Enabled(AfterSends(n), Send(X, Body(n)))
    ensures Step(AfterSends(n), Send(X, Body(n))) == AfterSends(n + 1)
  {
    NthIsStamped(n);
    TraceStep(n);
    NodesStep(n);
    TwoIds();
    hide SendTrace, Stamped, Visible, Body, CC.Bump;
  }

  lemma NoSendsYet()
    ensures Init({X, Y}) == AfterSends(0)
  {
    TwoIds();
    var zero: Clock := map[X := 0, Y := 0];
    assert ZeroClock({X, Y}) == zero;
    var nodes := Init({X, Y}).nodes;
    assert nodes.Keys == {X, Y} && nodes[X] == nodes[Y] == Node(0, zero, []);
  }

  lemma {:induction false} ManySends(n: nat)
    ensures Runnable(Init({X, Y}), Sends(n)) && Exec(Init({X, Y}), Sends(n)) == AfterSends(n)
  {
    hide Step, Enabled, SendTrace;
    if n == 0 {
      NoSendsYet();
    } else {
      ManySends(n - 1);
      SendStep(n - 1);
      ExecAppend(Init({X, Y}), Sends(n - 1), Send(X, Body(n - 1)));
    }
  }

  lemma {:induction false} SendLog(n: nat, k: Str)
    ensures |SentBy(SendTrace(n), k)| == if k == X then n else 0
  {
    if n == 0 {
    } else {
      SendLog(n - 1, k);
      AppendLog(SendTrace(n - 1), Sent(X, Nth(n - 1)), k, k);
    }
  }

  /** All of X's messages up to the first one past the wrap; only that one reaches Y. */
  function WrapRun(): seq<Action> {
    Sends(TWO_32 + 1) + [Arrive(Y, Nth(TWO_32), [])] + [Deliver(Y)]
  }

  function WrapTrace(): Trace {
    SendTrace(TWO_32 + 1) + [Arrived(Y, Nth(TWO_32))] + [Delivered(Y, Nth(TWO_32))]
  }

  lemma WrapEnd()
    ensures Runnable(Init({X, Y}), WrapRun()) && Final({X, Y}, WrapRun()).trace == WrapTrace()
  {
    hide Sends, SendTrace, Exec, Runnable;
    TwoIds();
    var m := Nth(TWO_32);
    ManySends(TWO_32 + 1);
    var s := AfterSends(TWO_32 + 1);
    assert s.trace[TWO_32] == Sent(X, m);
    ExecAppend(Init({X, Y}), Sends(TWO_32 + 1), Arrive(Y, m, []));
    var s' := Step(s, Arrive(Y, m, []));
    assert s'.nodes[Y] == Node(0, map[X := 0, Y := 0], [m]);
    LoneMessage(m);
    ExecAppend(Init({X, Y}), Sends(TWO_32 + 1) + [Arrive(Y, m, [])], Deliver(Y));
    assert Deliveries(Y, [m]) == [Delivered(Y, m)];
  }

  lemma LoneMessage(m: Message)
    requires m == Nth(TWO_32)
    ensures CC.DeliverAll(map[X := 0, Y := 0], [m]).delivered == [m]
  {
    TwoIds();
    var vc: Clock := map[X := 0, Y := 0];
    assert CC.Ready(vc, m);
    CC.DeliverAllAt(vc, [m], 0);
    assert CC.Without([m], 0) == [];
    CC.DeliverAllIdle(CC.Bump(vc, X), []);
  }

  /** Y delivers the message past the wrap although the first message of X, a cause of it, never came. */
  lemma WrapBreaksCausality()
    ensures Runnable(Init({X, Y}), WrapRun())
    ensures SendsAtMost(Final({X, Y}, WrapRun()).trace, TWO_32 + 1)
    ensures !Causal(Final({X, Y}, WrapRun()).trace)
  {
    hide Exec, Runnable, SendTrace, Sends, SentBy;
    TwoIds();
    WrapEnd();
    var t := WrapTrace();
    var past := SendTrace(TWO_32 + 1);
    var a, b := Nth(0), Nth(TWO_32);
    forall k
      ensures |SentBy(t, k)| <= TWO_32 + 1
    {
      SendLog(TWO_32 + 1, k);
      AppendLog(past, Arrived(Y, b), k, k);
      AppendLog(past + [Arrived(Y, b)], Delivered(Y, b), k, k);
    }
    assert t[0] == Sent(X, a) && t[TWO_32] == Sent(X, b);
    assert DirectAt(t, a, b, 0, TWO_32);
    DirectHappensBefore(t, a, b);
    assert t[TWO_32 + 2] == Delivered(Y, b);
    assert Delivered(Y, a) !in t[..TWO_32 + 2];
  }

  /** The exact limit: 2^32 messages from each node, and no more. */
  lemma CausalExactlyUpTo(n: nat)
    ensures CausalUpTo(n) <==> n <= TWO_32
  {
    hide Runnable, Final, SendsAtMost, Causal, Uuids;
    if n <= TWO_32 {
      forall peers: set<Str>, actions: seq<Action> |
        Runnable(Init(peers), actions) && SendsAtMost(Final(peers, actions).trace, n)
        ensures Causal(Final(peers, actions).trace)
      {
        SendsWeaker(Final(peers, actions).trace, n, TWO_32);
        RunIsCausal(peers, actions);
      }
    } else {
      TwoIds();
      WrapBreaksCausality();
      SendsWeaker(Final({X, Y}, WrapRun()).trace, TWO_32 + 1, n);
    }
  }

  // ---------------------------------------------------------------------
  // Runs that reach the wrap
  // ---------------------------------------------------------------------

  lemma SendsOnlyX(n: nat)
    ensures SendsAtMost(SendTrace(n), n)
  {
    hide SentBy, SendTrace;
    forall k
      ensures |SentBy(SendTrace(n), k)| <= n
    {
      SendLog(n, k);
    }
  }

  /** X's message number 2^32 has stamp 0, although number 1 happened before it. */
  lemma WrapBreaksStamps()
    ensures Runnable(Init({X, Y}), Sends(TWO_32)) && SendsAtMost(Final({X, Y}, Sends(TWO_32)).trace, TWO_32)
    ensures !AllStampsAgree(Final({X, Y}, Sends(TWO_32)).trace)
  {
    hide Exec, Runnable, SendTrace, Sends, SentBy, HappensBefore;
    ManySends(TWO_32);
    SendsOnlyX(TWO_32);
    var t, a, b := SendTrace(TWO_32), Nth(0), Nth(TWO_32 - 1);
    assert t[0] == Sent(X, a) && t[TWO_32 - 1] == Sent(X, b);
    assert DirectAt(t, a, b, 0, TWO_32 - 1);
    DirectHappensBefore(t, a, b);
    TwoIds();
    assert a.vectorClock[X] == 1 && b.vectorClock[X] == 0;
    assert !StampsAgree(t, a, b);
  }

  /** The exact limit for the stamps: fewer than 2^32 messages from each node. */
  lemma StampsExactlyUpTo(n: nat)
    ensures StampsUpTo(n) <==> n < TWO_32
  {
    hide Runnable, Final, SendsAtMost, Uuids, HappensBefore, Sends;
    if n < TWO_32 {
      forall peers: set<Str>, actions: seq<Action> |
        Runnable(Init(peers), actions) && SendsAtMost(Final(peers, actions).trace, n)
        ensures AllStampsAgree(Final(peers, actions).trace)
      {
        SendsWeaker(Final(peers, actions).trace, n, TWO_32 - 1);
        forall a: Message, b: Message |
          Sent(a.uuid, a) in Final(peers, actions).trace && Sent(b.uuid, b) in Final(peers, actions).trace && a != b
          ensures StampsAgree(Final(peers, actions).trace, a, b)
        {
          RunStamps(peers, actions, a, b);
        }
      }
    } else {
      hide AllStampsAgree;
      TwoIds();
      WrapBreaksStamps();
      SendsWeaker(Final({X, Y}, Sends(TWO_32)).trace, TWO_32, n);
    }
  }

  /** The first `n` messages of X reach Y, in order. */
  function Arrivals(n: nat): seq<Action> {
    if n == 0 then [] else Arrivals(n - 1) + [Arrive(Y, Nth(n - 1), [])]
  }

  function ArrivalTrace(n: nat): (t: Trace)
    ensures |t| == n
    ensures forall k :: 0 <= k < n ==> t[k] == Arrived(Y, Nth(k))
  {
    if n == 0 then [] else ArrivalTrace(n - 1) + [Arrived(Y, Nth(n - 1))]
  }

  function Queue(n: nat): seq<Message> {
    if n == 0 then [] else Queue(n - 1) + [Nth(n - 1)]
  }

  /** X has sent `sends` messages and the first `n` of them wait at Y. */
  function AfterArrivals(sends: nat, n: nat): System {
    var s := AfterSends(sends);
    System(s.nodes[Y := Node(0, map[X := 0, Y := 0], Queue(n))], SendTrace(sends) + ArrivalTrace(n))
  }

  lemma NoArrivalsYet(sends: nat)
    ensures AfterArrivals(sends, 0) == AfterSends(sends)
  {
    TwoIds();
    hide SendTrace;
    assert AfterSends(sends).nodes[Y] == Node(0, map[X := 0, Y := 0], Queue(0));
    assert SendTrace(sends) + ArrivalTrace(0) == SendTrace(sends);
  }

  lemma ArrivalTraceStep(n: nat)
    ensures ArrivalTrace(n + 1) == ArrivalTrace(n) + [Arrived(Y, Nth(n))]
  {
  }

  lemma ArrivalNodes(sends: nat, n: nat)
    ensures AfterArrivals(sends, n + 1).nodes
         == AfterArrivals(sends, n).nodes[Y := Node(0, map[X := 0, Y := 0], Queue(n) + [Nth(n)])]
  {
    hide SendTrace, ArrivalTrace, AfterSends;
    assert Queue(n + 1) == Queue(n) + [Nth(n)];
  }

  lemma ArrivalStep(sends: nat, n: nat)
    requires n < sends
    ensures Enabled(AfterArrivals(sends, n), Arrive(Y, Nth(n), []))
    ensures Step(AfterArrivals(sends, n), Arrive(Y, Nth(n), [])) == AfterArrivals(sends, n + 1)
  {
    TwoIds();
    ArrivalNodes(sends, n);
    ArrivalTraceStep(n);
    hide SendTrace, ArrivalTrace, AfterSends, Queue;
    var s := AfterArrivals(sends, n);
    assert s.trace[n] == Sent(X, Nth(n));
    assert s.nodes[Y].queue == Queue(n) && Nth(n).(ip := []) == Nth(n);
    assert SendTrace(sends) + (ArrivalTrace(n) + [Arrived(Y, Nth(n))]) == s.trace + [Arrived(Y, Nth(n))];
  }

  lemma {:induction false} ManyArrivals(sends: nat, n: nat)
    requires n <= sends
    ensures Runnable(Init({X, Y}), Sends(sends) + Arrivals(n))
    ensures Exec(Init({X, Y}), Sends(sends) + Arrivals(n)) == AfterArrivals(sends, n)
    decreases n
  {
    hide Step, Enabled, SendTrace, ArrivalTrace, AfterArrivals, Runnable, Exec, Sends;
    if n == 0 {
      ManySends(sends);
      NoArrivalsYet(sends);
      assert Sends(sends) + Arrivals(0) == Sends(sends);
    } else {
      ManyArrivals(sends, n - 1);
      ArrivalStep(sends, n - 1);
      var a := Arrive(Y, Nth(n - 1), []);
      ExecAppend(Init({X, Y}), Sends(sends) + Arrivals(n - 1), a);
      assert Sends(sends) + Arrivals(n) == Sends(sends) + Arrivals(n - 1) + [a];
    }
  }

  lemma {:induction false} ArrivalLog(t: Trace, n: nat, k: Str)
    ensures SentBy(t + ArrivalTrace(n), k) == SentBy(t, k)
  {
    hide SentBy;
    if n == 0 {
      assert t + ArrivalTrace(0) == t;
    } else {
      ArrivalLog(t, n - 1, k);
      AppendLog(t + ArrivalTrace(n - 1), Arrived(Y, Nth(n - 1)), k, k);
      assert t + ArrivalTrace(n) == t + ArrivalTrace(n - 1) + [Arrived(Y, Nth(n - 1))];
    }
  }

  lemma AllReachY(n: nat)
    ensures AllArrived(AfterArrivals(n, n).trace, Y)
  {
    hide SendTrace, ArrivalTrace;
    var t := AfterArrivals(n, n).trace;
    forall m: Message | Sent(m.uuid, m) in t && m.uuid != Y
      ensures Arrived(Y, m) in t
    {
      var p :| 0 <= p < |t| && t[p] == Sent(m.uuid, m);
      assert p < n && t[n + p] == Arrived(Y, Nth(p));
    }
  }

  lemma ArrivalsSent(n: nat)
    ensures SendsAtMost(AfterArrivals(n, n).trace, n)
    ensures |SentBy(AfterArrivals(n, n).trace, X)| == n
  {
    hide SendTrace, ArrivalTrace, SentBy;
    forall k
      ensures |SentBy(AfterArrivals(n, n).trace, k)| == if k == X then n else 0
    {
      SendLog(n, k);
      ArrivalLog(SendTrace(n), n, k);
    }
  }

  lemma StepIsGood(actions: seq<Action>, s: System)
    requires Runnable(Init({X, Y}), actions) && s == Final({X, Y}, actions)
    ensures Enabled(s, Deliver(Y)) && GoodTrace({X, Y}, Step(s, Deliver(Y)).trace)
  {
    RunInv({X, Y}, actions);
    hide Final, GoodTrace, Counts, Holds, Runnable, Step;
    DeliveredState({X, Y}, s, Y);
  }

  /** A clock entry cannot count 2^32 messages. */
  lemma NoRoomFor(s: System, n: nat)
    requires Enabled(s, Deliver(Y)) && |SentBy(s.trace, X)| == n >= TWO_32
    ensures !Complete({X, Y}, s, Y)
  {
    hide CC.DeliverAll, Deliveries, SentBy;
    var c := Step(s, Deliver(Y)).nodes[Y].clock;
    assert X in {X, Y};
    assert X in c ==> c[X] < TWO_32;
  }

  /** Y has all of X's 2^32 messages in its queue and still does not deliver the last one. */
  lemma WrapStallsDelivery()
    ensures Runnable(Init({X, Y}), Sends(TWO_32) + Arrivals(TWO_32))
    ensures var s := Final({X, Y}, Sends(TWO_32) + Arrivals(TWO_32));
            && SendsAtMost(s.trace, TWO_32) && AllArrived(s.trace, Y)
            && Enabled(s, Deliver(Y)) && !Complete({X, Y}, s, Y)
            && Delivered(Y, Nth(TWO_32 - 1)) !in Step(s, Deliver(Y)).trace
  {
    hide Exec, Runnable, Sends, Arrivals, SentBy, AllArrived, Step, SendsAtMost, AfterArrivals, GoodTrace, Complete;
    ManyArrivals(TWO_32, TWO_32);
    var s := AfterArrivals(TWO_32, TWO_32);
    AllReachY(TWO_32);
    ArrivalsSent(TWO_32);
    StepIsGood(Sends(TWO_32) + Arrivals(TWO_32), s);
    NoRoomFor(s, TWO_32);
    TwoIds();
    assert Nth(TWO_32 - 1).vectorClock[X] == 0;
    ZeroNeverDelivered({X, Y}, Step(s, Deliver(Y)).trace, Y, Nth(TWO_32 - 1));
  }

  /** The exact limit for completeness: fewer than 2^32 messages from each node. */
  lemma CompleteExactlyUpTo(n: nat)
    ensures CompleteUpTo(n) <==> n < TWO_32
  {
    hide Runnable, Final, SendsAtMost, Uuids, AllArrived, Complete, Sends, Arrivals, Step;
    if n < TWO_32 {
      forall peers: set<Str>, actions: seq<Action>, i: Str |
        Runnable(Init(peers), actions) && SendsAtMost(Final(peers, actions).trace, n)
        && i in peers && AllArrived(Final(peers, actions).trace, i)
        ensures Enabled(Final(peers, actions), Deliver(i)) && Complete(peers, Final(peers, actions), i)
      {
        SendsWeaker(Final(peers, actions).trace, n, TWO_32 - 1);
        NothingStuck(peers, actions, i);
      }
    } else {
      TwoIds();
      WrapStallsDelivery();
      var actions := Sends(TWO_32) + Arrivals(TWO_32);
      SendsWeaker(Final({X, Y}, actions).trace, TWO_32, n);
    }
  }

  /** A message whose stamp wrapped to zero is a duplicate to every node, whatever its clock and queue. */
  lemma ZeroStampIsDropped(vc: Clock, q: seq<Message>, m: Message)
    requires m.uuid in vc && m.uuid in m.vectorClock && m.vectorClock[m.uuid] == 0
    ensures multiset(CC.DeliverAll(vc, q).dropped)[m] == multiset(q)[m]
  {
    var o := CC.DeliverAll(vc, q);
    CC.DeliverAllSettles(vc, q);
    CC.AfterGrows(vc, o.delivered);
    hide CC.DeliverAll, CC.Legal;
    assert m !in o.queue;
    if m in o.delivered {
      CC.LegalAboveStart(vc, o.delivered, m);
    }
  }

  // ---------------------------------------------------------------------
  // On the wire
  // ---------------------------------------------------------------------

  lemma StampedKeys(peers: set<Str>, actions: seq<Action>, i: Str, body: Str)
    requires Runnable(Init(peers), actions) && Enabled(Final(peers, actions), Send(i, body))
    ensures var m := Stamped(Final(peers, actions).nodes[i], i, body);
            m.uuid == i && i in peers && m.vectorClock.Keys == peers && m.message == body
  {
    hide Final, GoodTrace, SentBy, DeliveredAt;
    assert i in peers by {
      RunInv(peers, actions);
      NodesOf(peers, Final(peers, actions));
    }
    CountsOf(peers, actions, i);
  }

  lemma WireCarries(m: Message, order: seq<Str>, ip: Str)
    requires m.uuid in m.vectorClock && Uuids(m.vectorClock.Keys) && |m.vectorClock.Keys| < TWO_32
    requires 0 < |m.message| < TWO_64 && Enumerates(order, m.vectorClock)
    ensures Decoded(Clip(Encoded(m, order)), ip)
         == if |m.vectorClock.Keys| <= MAX_NODES then Ok(Visible(m).(ip := ip)) else Err
  {
    hide Encoded, Decoded, Enumerates;
    if |m.vectorClock| <= MAX_NODES {
      ClippedDecodes(m, order, ip);
    } else {
      TooManyNodes(m, order, ip);
    }
  }

  /**
   With 36-byte ids, any encoding of anything with a body that a node sends in a run comes
   through the read buffer of every other node as exactly the message that an arrival puts in
   the queue there, if there are at most 24 nodes; otherwise it cannot be decoded.
   */
  lemma WireCarriesSends(peers: set<Str>, actions: seq<Action>, i: Str, body: Str, order: seq<Str>, ip: Str)
    requires Runnable(Init(peers), actions) && Enabled(Final(peers, actions), Send(i, body))
    requires |peers| < TWO_32 && Uuids(peers) && 0 < |body| < TWO_64
    requires Enumerates(order, Stamped(Final(peers, actions).nodes[i], i, body).vectorClock)
    ensures var m := Stamped(Final(peers, actions).nodes[i], i, body);
            Decoded(Clip(Encoded(m, order)), ip) == if |peers| <= MAX_NODES then Ok(Visible(m).(ip := ip)) else Err
  {
    var m := Stamped(Final(peers, actions).nodes[i], i, body);
    StampedKeys(peers, actions, i, body);
    hide Final, Runnable, Encoded, Decoded, Enumerates, Visible, Stamped;
    WireCarries(m, order, ip);
  }

  /** What a node makes of a datagram, by the message in it. */
  lemma ReactionTo(j: Str, data: Str, ip: Str, m: Message)
    requires Decoded(data, ip) == Ok(m)
    ensures RM.Reaction(j, data, ip) ==
      if m.uuid == j then RM.Skipped
      else
        match MessageCodec.Decoded(m.message)
        case Ok(notice) => RM.Taken(m, notice)
        case Err => RM.Crashed
  {
    hide Decoded, MessageCodec.Decoded;
  }

  /**
   What every node makes of anything sent in a run, itself included: the sender skips it; the
   others take in exactly what an arrival queues, or crash if the payload does not decode. With
   more than 24 nodes everyone crashes who gets it.
   */
  lemma ReactionToSend(peers: set<Str>, actions: seq<Action>, i: Str, body: Str, order: seq<Str>, ip: Str, j: Str)
    requires Runnable(Init(peers), actions) && Enabled(Final(peers, actions), Send(i, body))
    requires |peers| < TWO_32 && Uuids(peers) && 0 < |body| < TWO_64
    requires Enumerates(order, Stamped(Final(peers, actions).nodes[i], i, body).vectorClock)
    ensures var m := Stamped(Final(peers, actions).nodes[i], i, body);
            RM.Reaction(j, Clip(Encoded(m, order)), ip) ==
            if |peers| > 24 then RM.Crashed
            else if j == i then RM.Skipped
            else
              match MessageCodec.Decoded(Visible(m).message)
              case Ok(notice) => RM.Taken(Visible(m).(ip := ip), notice)
              case Err => RM.Crashed
  {
    var m := Stamped(Final(peers, actions).nodes[i], i, body);
    WireCarriesSends(peers, actions, i, body, order, ip);
    hide Final, Runnable, Encoded, Decoded, Enumerates, Cut, MessageCodec.Decoded;
    if |peers| <= 24 {
      ReactionTo(j, Clip(Encoded(m, order)), ip, Visible(m).(ip := ip));
    }
  }

  lemma RunPeers(peers: set<Str>, actions: seq<Action>)
    requires Runnable(Init(peers), actions)
    ensures Final(peers, actions).nodes.Keys == peers
  {
    RunInv(peers, actions);
    NodesOf(peers, Final(peers, actions));
  }

  /** Right after a send its message can arrive at every node but the sender, and joins the queue there. */
  lemma ArrivalAfterSend(s: System, i: Str, body: Str, ip: Str, j: Str)
    requires Enabled(s, Send(i, body)) && j in s.nodes
    ensures var m, s' := Visible(Stamped(s.nodes[i], i, body)), Step(s, Send(i, body));
            && j in s'.nodes && (Enabled(s', Arrive(j, m, ip)) <==> j != i)
            && (j != i ==> j in Step(s', Arrive(j, m, ip)).nodes)
            && (j != i ==> Step(s', Arrive(j, m, ip)).nodes[j].queue == s'.nodes[j].queue + [m.(ip := ip)])
  {
    hide Cut, BodyRoom, CC.Bump;
    var e := Sent(i, Visible(Stamped(s.nodes[i], i, body)));
    assert (s.trace + [e])[|s.trace|] == e;
  }

  /** The guard of an arrival is what the method does: exactly the other nodes queue the message, as received. */
  lemma ArrivalIsReaction(peers: set<Str>, actions: seq<Action>, i: Str, body: Str, order: seq<Str>, ip: Str, j: Str)
    requires Runnable(Init(peers), actions) && Enabled(Final(peers, actions), Send(i, body)) && j in peers
    requires |peers| <= 24 && Uuids(peers) && 0 < |body| < TWO_64
    requires Enumerates(order, Stamped(Final(peers, actions).nodes[i], i, body).vectorClock)
    requires MessageCodec.Decoded(Visible(Stamped(Final(peers, actions).nodes[i], i, body)).message).Ok?
    ensures var m := Stamped(Final(peers, actions).nodes[i], i, body);
            var s := Step(Final(peers, actions), Send(i, body));
            var r := RM.Reaction(j, Clip(Encoded(m, order)), ip);
            && (r == RM.Skipped <==> j == i)
            && (r.Taken? <==> Enabled(s, Arrive(j, Visible(m), ip)))
            && (r.Taken? ==> Step(s, Arrive(j, Visible(m), ip)).nodes[j].queue == s.nodes[j].queue + [r.msg])
  {
    ReactionToSend(peers, actions, i, body, order, ip, j);
    StampedKeys(peers, actions, i, body);
    RunPeers(peers, actions);
    hide *;
    ArrivalAfterSend(Final(peers, actions), i, body, ip, j);
  }

  lemma AckTo(msg: Message)
    ensures RM.AckOf(msg).ip == msg.ip && RM.AckOf(msg).uuid == msg.uuid
  {
  }

  /**
   The acks come home: whoever takes in a message sent in a run answers to the address it came
   from and to its sender, and at the sender that answer ends exactly the wait for this node's
   ack of this frame.
   */
  lemma AckOfSend(peers: set<Str>, actions: seq<Action>, i: Str, body: Str, order: seq<Str>, ip: Str, j: Str,
                  p: MulticastAcks.Pending, f: U32, k: Str)
    requires Runnable(Init(peers), actions) && Enabled(Final(peers, actions), Send(i, body))
    requires |peers| < TWO_32 && Uuids(peers) && 0 < |body| < TWO_64
    requires Enumerates(order, Stamped(Final(peers, actions).nodes[i], i, body).vectorClock)
    requires RM.Reaction(j, Clip(Encoded(Stamped(Final(peers, actions).nodes[i], i, body), order)), ip).Taken?
    ensures var n := Final(peers, actions).nodes[i];
            var ack := RM.AckOf(RM.Reaction(j, Clip(Encoded(Stamped(n, i, body), order)), ip).msg);
            && ack.ip == ip && ack.uuid == i && MessageCodec.Decoded(ack.payload).Ok?
            && (MulticastAcks.Awaits(MulticastAcks.AfterAck(p, j, MessageCodec.Decoded(ack.payload).value.frame), f, k)
                <==> MulticastAcks.Awaits(p, f, k) && !(f == n.frame && k == j))
  {
    var n := Final(peers, actions).nodes[i];
    var m := Stamped(n, i, body);
    ReactionToSend(peers, actions, i, body, order, ip, j);
    assert m.frame == n.frame && m.uuid == i && Visible(m).frame == m.frame && Visible(m).uuid == m.uuid;
    var msg := Visible(m).(ip := ip);
    hide *;
    AckTo(msg);
    RM.AckEndsWait(msg, j, p, f, k);
  }

  /** The message past the wrap, on which `WrapBreaksCausality` rests, does get through. */
  lemma WrapGetsThrough(order: seq<Str>, ip: Str)
    requires Enumerates(order, Nth(TWO_32).vectorClock)
    ensures Decoded(Clip(Encoded(Nth(TWO_32), order)), ip) == Ok(Nth(TWO_32).(ip := ip))
    ensures RM.Reaction(Y, Clip(Encoded(Nth(TWO_32), order)), ip)
         == RM.Taken(Nth(TWO_32).(ip := ip), MessageCodec.Bare(MessageCodec.ELECTION))
  {
    hide Runnable, Exec, Sends, Encoded, Decoded, Enumerates, SendTrace;
    TwoIds();
    ManySends(TWO_32);
    NthIsStamped(TWO_32);
    WireCarriesSends({X, Y}, Sends(TWO_32), X, Body(TWO_32), order, ip);
  }
}
