// server/multicast/multicast.go: the delivery test on vector clocks and the
// delivery loop over the hold-back queue, as functions of clock and queue.
module CausalClock {
  import opened Bytes
  import opened MulticastFraming

  // ---------------------------------------------------------------------
  // The delivery test
  // ---------------------------------------------------------------------

  /** The stamp of `m` at its own sender is known and already reached. */
  predicate Stale(vc: Clock, m: Message) {
    m.uuid in vc && m.uuid in m.vectorClock && m.vectorClock[m.uuid] <= vc[m.uuid]
  }

  /** `m` is the next message of its sender and everything it depends on is here. */
  predicate Ready(vc: Clock, m: Message) {
    && m.uuid in vc && m.uuid in m.vectorClock
    && (var here: int := vc[m.uuid]; m.vectorClock[m.uuid] == here + 1)
    && forall k :: k in vc && k != m.uuid ==> k in m.vectorClock && m.vectorClock[k] <= vc[k]
  }

  predicate Actionable(vc: Clock, m: Message) { Stale(vc, m) || Ready(vc, m) }

  function Bump(vc: Clock, k: Str): Clock
    requires k in vc
  {
    vc[k := Inc32(vc[k])]
  }

  ghost predicate Leq(a: Clock, b: Clock) {
    a.Keys == b.Keys && forall k :: k in a ==> a[k] <= b[k]
  }

  /** The pointwise maximum over the local peer set. */
  ghost function Join(vc: Clock, other: Clock): Clock {
    map k | k in vc :: if k in other && other[k] > vc[k] then other[k] else vc[k]
  }

  /** Bumping the sender's entry is what merging the whole stamp would do. */
  lemma BumpIsJoin(vc: Clock, m: Message)
    requires Ready(vc, m)
    ensures Bump(vc, m.uuid) == Join(vc, m.vectorClock)
  {
    assert vc[m.uuid] + 1 < TWO_32;
  }

  // ---------------------------------------------------------------------
  // The delivery loop
  // ---------------------------------------------------------------------

  function Without(q: seq<Message>, i: nat): seq<Message>
    requires i < |q|
  {
    q[..i] + q[i + 1..]
  }

  /** Where the scan of the queue stops: at the first message it can act on, or past the end. */
  function FirstActionable(vc: Clock, q: seq<Message>): (i: nat)
    ensures i <= |q|
    ensures forall h :: 0 <= h < i ==> !Actionable(vc, q[h])
    ensures i < |q| ==> Actionable(vc, q[i])
  {
    if q == [] || Actionable(vc, q[0]) then 0 else 1 + FirstActionable(vc, q[1..])
  }

  datatype Outcome = Outcome(clock: Clock, queue: seq<Message>, delivered: seq<Message>, dropped: seq<Message>)

  /** Scan, act on the first actionable message, start over; until nothing can be done. */
  function DeliverAll(vc: Clock, q: seq<Message>): Outcome
    decreases |q|
  {
    var i := FirstActionable(vc, q);
    if i == |q| then Outcome(vc, q, [], [])
    else if Stale(vc, q[i]) then
      var o := DeliverAll(vc, Without(q, i));
      o.(dropped := [q[i]] + o.dropped)
    else
      var o := DeliverAll(Bump(vc, q[i].uuid), Without(q, i));
      o.(delivered := [q[i]] + o.delivered)
  }

  /** The loop's next turn, from the scan that stopped at `i`. */
  lemma DeliverAllAt(vc: Clock, q: seq<Message>, i: nat)
    requires i < |q| && Actionable(vc, q[i])
    requires forall h :: 0 <= h < i ==> !Actionable(vc, q[h])
    ensures DeliverAll(vc, q) ==
      if Stale(vc, q[i]) then
        var o := DeliverAll(vc, Without(q, i));
        o.(dropped := [q[i]] + o.dropped)
      else
        var o := DeliverAll(Bump(vc, q[i].uuid), Without(q, i));
        o.(delivered := [q[i]] + o.delivered)
  {
    hide Actionable;
    assert FirstActionable(vc, q) == i;
  }

  lemma DeliverAllIdle(vc: Clock, q: seq<Message>)
    requires forall h :: 0 <= h < |q| ==> !Actionable(vc, q[h])
    ensures DeliverAll(vc, q) == Outcome(vc, q, [], [])
  {
  }

  /** A sequence of messages each of which is ready when its turn comes. */
  predicate Legal(vc: Clock, ds: seq<Message>) {
    ds != [] ==> Ready(vc, ds[0]) && Legal(Bump(vc, ds[0].uuid), ds[1..])
  }

  /** The clock after delivering `ds`. */
  function After(vc: Clock, ds: seq<Message>): (c: Clock)
    requires Legal(vc, ds)
    ensures c.Keys == vc.Keys
  {
    if ds == [] then vc else After(Bump(vc, ds[0].uuid), ds[1..])
  }

  lemma {:induction false} AfterGrows(vc: Clock, ds: seq<Message>)
    requires Legal(vc, ds)
    ensures Leq(vc, After(vc, ds))
    ensures forall m :: m in ds ==> Stale(After(vc, ds), m)
  {
    if ds == [] {
    } else {
      var next := Bump(vc, ds[0].uuid);
      AfterGrows(next, ds[1..]);
      assert Stale(next, ds[0]);
    }
  }

  /** What one run of the loop achieves, for messages `all` held in the queue or seen before. */
  ghost predicate Settles(vc: Clock, all: multiset<Message>, o: Outcome) {
    && Legal(vc, o.delivered) && o.clock == After(vc, o.delivered)
    && all == multiset(o.delivered) + multiset(o.dropped) + multiset(o.queue)
    && (forall m :: m in o.dropped ==> Stale(o.clock, m))
    && (forall m :: m in o.queue ==> !Actionable(o.clock, m))
  }

  lemma SplitAt(q: seq<Message>, i: nat)
    requires i < |q|
    ensures multiset(q) == multiset{q[i]} + multiset(Without(q, i))
  {
    assert q == q[..i] + ([q[i]] + q[i + 1..]);
  }

  lemma DropSettles(vc: Clock, m: Message, all: multiset<Message>, o: Outcome)
    requires Stale(vc, m) && Settles(vc, all, o)
    ensures Settles(vc, multiset{m} + all, o.(dropped := [m] + o.dropped))
  {
    AfterGrows(vc, o.delivered);
    assert multiset([m] + o.dropped) == multiset{m} + multiset(o.dropped);
  }

  lemma DeliverSettles(vc: Clock, m: Message, all: multiset<Message>, o: Outcome)
    requires Ready(vc, m) && Settles(Bump(vc, m.uuid), all, o)
    ensures Settles(vc, multiset{m} + all, o.(delivered := [m] + o.delivered))
  {
    assert multiset([m] + o.delivered) == multiset{m} + multiset(o.delivered);
    assert ([m] + o.delivered)[1..] == o.delivered;
  }

  /** The loop conserves messages, delivers legally and stops only when nothing can be done. */
  lemma {:induction false} DeliverAllSettles(vc: Clock, q: seq<Message>)
    ensures Settles(vc, multiset(q), DeliverAll(vc, q))
    decreases |q|
  {
    var i := FirstActionable(vc, q);
    if i == |q| {
    } else {
      var m := q[i];
      SplitAt(q, i);
      if Stale(vc, m) {
        DeliverAllSettles(vc, Without(q, i));
        DropSettles(vc, m, multiset(Without(q, i)), DeliverAll(vc, Without(q, i)));
      } else {
        var next := Bump(vc, m.uuid);
        DeliverAllSettles(next, Without(q, i));
        DeliverSettles(vc, m, multiset(Without(q, i)), DeliverAll(next, Without(q, i)));
      }
    }
  }

  // ---------------------------------------------------------------------
  // Independence of the order of arrival
  // ---------------------------------------------------------------------

  /** Every message of `ds` that is not ready at `bound` keeps the delivery of `ds` below `bound`. */
  lemma {:induction false} Least(vc: Clock, ds: seq<Message>, bound: Clock)
    requires Legal(vc, ds) && Leq(vc, bound)
    requires forall m :: m in ds ==> !Ready(bound, m)
    ensures Leq(After(vc, ds), bound)
  {
    if ds == [] {
    } else {
      var m := ds[0];
      assert m in ds;
      if bound[m.uuid] == vc[m.uuid] {
        assert Ready(bound, m);
      }
      Least(Bump(vc, m.uuid), ds[1..], bound);
    }
  }

  /** A run that has settled leaves no message ready. */
  lemma NothingReady(vc: Clock, all: multiset<Message>, o: Outcome)
    requires Settles(vc, all, o)
    ensures forall m :: m in all ==> !Ready(o.clock, m)
  {
    AfterGrows(vc, o.delivered);
    forall m | m in all
      ensures !Ready(o.clock, m)
    {
      assert m in o.delivered || m in o.dropped || m in o.queue;
    }
  }

  lemma SettledClockLeq(vc: Clock, all1: multiset<Message>, o1: Outcome, all2: multiset<Message>, o2: Outcome)
    requires Settles(vc, all1, o1) && Settles(vc, all2, o2)
    requires forall m :: m in all1 ==> m in all2
    ensures Leq(o1.clock, o2.clock)
  {
    NothingReady(vc, all2, o2);
    AfterGrows(vc, o2.delivered);
    assert forall m :: m in o1.delivered ==> m in all1;
    Least(vc, o1.delivered, o2.clock);
  }

  /** Every entry between start and end was passed by delivering a message with that stamp. */
  lemma {:induction false} PassedBy(vc: Clock, ds: seq<Message>, k: Str, n: nat) returns (m: Message)
    requires Legal(vc, ds) && k in vc && vc[k] < n <= After(vc, ds)[k]
    ensures m in ds && m.uuid == k && k in m.vectorClock && m.vectorClock[k] == n
  {
    var next := Bump(vc, ds[0].uuid);
    if next[k] < n {
      m := PassedBy(next, ds[1..], k, n);
    } else {
      m := ds[0];
    }
  }

  /** Sender and sequence number determine the message. */
  ghost predicate StampsIdentify(all: multiset<Message>) {
    forall m, m' :: m in all && m' in all && m.uuid == m'.uuid
      && m.uuid in m.vectorClock && m.uuid in m'.vectorClock && m.vectorClock[m.uuid] == m'.vectorClock[m.uuid]
      ==> m == m'
  }

  lemma {:induction false} LegalAboveStart(vc: Clock, ds: seq<Message>, m: Message)
    requires Legal(vc, ds) && m in ds
    ensures m.uuid in vc && m.uuid in m.vectorClock && vc[m.uuid] < m.vectorClock[m.uuid]
  {
    if m != ds[0] {
      LegalAboveStart(Bump(vc, ds[0].uuid), ds[1..], m);
    }
  }

  /** The delivered messages are exactly those whose stamps lie between the two clocks. */
  lemma DeliveredSet(vc: Clock, all: multiset<Message>, o: Outcome, m: Message)
    requires Settles(vc, all, o) && StampsIdentify(all) && m in all
    ensures m in o.delivered <==>
      m.uuid in vc && m.uuid in m.vectorClock && vc[m.uuid] < m.vectorClock[m.uuid] <= o.clock[m.uuid]
  {
    AfterGrows(vc, o.delivered);
    if m in o.delivered {
      LegalAboveStart(vc, o.delivered, m);
    } else if m.uuid in vc && m.uuid in m.vectorClock && vc[m.uuid] < m.vectorClock[m.uuid] <= o.clock[m.uuid] {
      var m' := PassedBy(vc, o.delivered, m.uuid, m.vectorClock[m.uuid]);
    }
  }

  /** A message stays in the queue exactly when its stamp was not reached. */
  lemma RemainingCount(vc: Clock, all: multiset<Message>, o: Outcome, m: Message)
    requires Settles(vc, all, o)
    ensures multiset(o.queue)[m] == if Stale(o.clock, m) then 0 else all[m]
  {
    AfterGrows(vc, o.delivered);
    if Stale(o.clock, m) {
      assert m !in o.queue;
    } else {
      assert m !in o.delivered && m !in o.dropped;
    }
  }

  /** The stamp of a delivered message has an entry for every peer. */
  lemma {:induction false} StampComplete(vc: Clock, ds: seq<Message>, m: Message)
    requires Legal(vc, ds) && m in ds
    ensures forall k :: k in vc ==> k in m.vectorClock
  {
    if m == ds[0] {
    } else {
      StampComplete(Bump(vc, ds[0].uuid), ds[1..], m);
    }
  }

  /** A message of an unknown sender, or without an entry for its sender, is neither delivered nor dropped. */
  lemma StrangersWait(vc: Clock, q: seq<Message>, m: Message)
    requires m.uuid !in vc || m.uuid !in m.vectorClock
    ensures multiset(DeliverAll(vc, q).queue)[m] == multiset(q)[m]
  {
    var o := DeliverAll(vc, q);
    DeliverAllSettles(vc, q);
    AfterGrows(vc, o.delivered);
    hide DeliverAll, Ready;
    if m in o.delivered {
      LegalAboveStart(vc, o.delivered, m);
    }
    assert m !in o.dropped;
  }

  /** A message whose stamp lacks one of the peers is not delivered. */
  lemma IncompleteStampsWait(vc: Clock, q: seq<Message>, m: Message, k: Str)
    requires k in vc && k !in m.vectorClock
    ensures m !in DeliverAll(vc, q).delivered
  {
    var o := DeliverAll(vc, q);
    DeliverAllSettles(vc, q);
    hide DeliverAll, Legal;
    if m in o.delivered {
      StampComplete(vc, o.delivered, m);
    }
  }

  // ---------------------------------------------------------------------
  // Arrivals in batches
  // ---------------------------------------------------------------------

  /** Each batch is appended to the queue and followed by one run of the loop. */
  function Feed(vc: Clock, q: seq<Message>, batches: seq<seq<Message>>): Outcome
    requires batches != []
    decreases |batches|
  {
    var o := DeliverAll(vc, q + batches[0]);
    if |batches| == 1 then o else Then(o, Feed(o.clock, o.queue, batches[1..]))
  }

  function Flatten(batches: seq<seq<Message>>): seq<Message> {
    if batches == [] then [] else batches[0] + Flatten(batches[1..])
  }

  lemma {:induction false} LegalConcat(vc: Clock, a: seq<Message>, b: seq<Message>)
    requires Legal(vc, a) && Legal(After(vc, a), b)
    ensures Legal(vc, a + b) && After(vc, a + b) == After(After(vc, a), b)
  {
    if a == [] {
      assert a + b == b;
    } else {
      assert (a + b)[1..] == a[1..] + b;
      LegalConcat(Bump(vc, a[0].uuid), a[1..], b);
    }
  }

  function Then(o: Outcome, o': Outcome): Outcome {
    Outcome(o'.clock, o'.queue, o.delivered + o'.delivered, o.dropped + o'.dropped)
  }

  lemma SettlesThen(vc: Clock, all: multiset<Message>, o: Outcome, more: multiset<Message>, o': Outcome)
    requires Settles(vc, all, o) && Settles(o.clock, multiset(o.queue) + more, o')
    ensures Settles(vc, all + more, Then(o, o'))
  {
    hide Ready, Actionable;
    LegalConcat(vc, o.delivered, o'.delivered);
    AfterGrows(o.clock, o'.delivered);
    forall m | m in o.dropped + o'.dropped
      ensures Stale(o'.clock, m)
    {
      assert m in o.dropped || m in o'.dropped;
    }
    Rebalance(multiset(o.delivered), multiset(o.dropped), multiset(o.queue), more,
              multiset(o'.delivered), multiset(o'.dropped), multiset(o'.queue));
  }

  lemma Rebalance<T>(d: multiset<T>, r: multiset<T>, q: multiset<T>, more: multiset<T>,
                     d': multiset<T>, r': multiset<T>, q': multiset<T>)
    requires q + more == d' + r' + q'
    ensures (d + r + q) + more == (d + d') + (r + r') + q'
  {
    assert (d + r + q) + more == (d + r) + (q + more);
  }

  lemma {:induction false} FeedSettles(vc: Clock, q: seq<Message>, batches: seq<seq<Message>>)
    requires batches != []
    ensures Settles(vc, multiset(q + Flatten(batches)), Feed(vc, q, batches))
    decreases |batches|
  {
    hide Settles, DeliverAll, Legal, Stale, Ready;
    var o := DeliverAll(vc, q + batches[0]);
    DeliverAllSettles(vc, q + batches[0]);
    if |batches| == 1 {
      assert Flatten(batches) == batches[0];
    } else {
      var more := Flatten(batches[1..]);
      FeedSettles(o.clock, o.queue, batches[1..]);
      assert multiset(o.queue + more) == multiset(o.queue) + multiset(more);
      SettlesThen(vc, multiset(q + batches[0]), o, multiset(more), Feed(o.clock, o.queue, batches[1..]));
      assert q + Flatten(batches) == (q + batches[0]) + more;
    }
  }

  /** Two ways for the same messages to arrive: any order, repeated, one at a time or all at once. */
  ghost predicate SameArrivals(q1: seq<Message>, b1: seq<seq<Message>>, q2: seq<Message>, b2: seq<seq<Message>>) {
    forall m :: m in multiset(q1 + Flatten(b1)) <==> m in multiset(q2 + Flatten(b2))
  }

  /** However the same messages arrive, the final clock is the same. */
  lemma ClockIgnoresOrder(vc: Clock, q1: seq<Message>, b1: seq<seq<Message>>, q2: seq<Message>, b2: seq<seq<Message>>)
    requires b1 != [] && b2 != []
    requires SameArrivals(q1, b1, q2, b2)
    ensures Feed(vc, q1, b1).clock == Feed(vc, q2, b2).clock
  {
    hide Settles, Feed, Flatten;
    FeedSettles(vc, q1, b1);
    FeedSettles(vc, q2, b2);
    var all1, all2 := multiset(q1 + Flatten(b1)), multiset(q2 + Flatten(b2));
    SettledClockLeq(vc, all1, Feed(vc, q1, b1), all2, Feed(vc, q2, b2));
    SettledClockLeq(vc, all2, Feed(vc, q2, b2), all1, Feed(vc, q1, b1));
  }

  /** The delivered messages agree too, when sender and sequence number identify a message. */
  lemma DeliveredIgnoresOrder(vc: Clock, q1: seq<Message>, b1: seq<seq<Message>>, q2: seq<Message>,
                              b2: seq<seq<Message>>, m: Message)
    requires b1 != [] && b2 != []
    requires SameArrivals(q1, b1, q2, b2)
    requires StampsIdentify(multiset(q1 + Flatten(b1)))
    ensures m in Feed(vc, q1, b1).delivered <==> m in Feed(vc, q2, b2).delivered
  {
    hide Feed, Flatten, Legal, After;
    ClockIgnoresOrder(vc, q1, b1, q2, b2);
    FeedSettles(vc, q1, b1);
    FeedSettles(vc, q2, b2);
    var all1, all2 := multiset(q1 + Flatten(b1)), multiset(q2 + Flatten(b2));
    var o1, o2 := Feed(vc, q1, b1), Feed(vc, q2, b2);
    if m in all1 {
      DeliveredSet(vc, all1, o1, m);
      DeliveredSet(vc, all2, o2, m);
    } else {
      NotDelivered(vc, all1, o1, m);
      NotDelivered(vc, all2, o2, m);
    }
  }

  lemma NotDelivered(vc: Clock, all: multiset<Message>, o: Outcome, m: Message)
    requires Settles(vc, all, o) && m !in all
    ensures m !in o.delivered
  {
    assert m in o.delivered ==> m in multiset(o.delivered);
  }

  /** What is left in the queue is the same bag of messages for every permutation of the arrivals. */
  lemma QueueIgnoresOrder(vc: Clock, q1: seq<Message>, b1: seq<seq<Message>>, q2: seq<Message>, b2: seq<seq<Message>>)
    requires b1 != [] && b2 != []
    requires multiset(q1 + Flatten(b1)) == multiset(q2 + Flatten(b2))
    ensures multiset(Feed(vc, q1, b1).queue) == multiset(Feed(vc, q2, b2).queue)
  {
    var all1, all2 := multiset(q1 + Flatten(b1)), multiset(q2 + Flatten(b2));
    hide Settles, Feed, Flatten;
    ClockIgnoresOrder(vc, q1, b1, q2, b2);
    FeedSettles(vc, q1, b1);
    FeedSettles(vc, q2, b2);
    forall m: Message
      ensures multiset(Feed(vc, q1, b1).queue)[m] == multiset(Feed(vc, q2, b2).queue)[m]
    {
      RemainingCount(vc, all1, Feed(vc, q1, b1), m);
      RemainingCount(vc, all2, Feed(vc, q2, b2), m);
    }
  }
}
