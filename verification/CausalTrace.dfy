// What the stamps of server/multicast/multicast.go mean: traces of sends, arrivals and
// deliveries in which every stamp records the history of its sender, and every
// delivery passed the delivery test.
module CausalTrace {
  import opened Bytes
  import opened MulticastFraming
  import CC = CausalClock

  datatype Event =
    | Sent(at: Str, msg: Message)
    | Arrived(at: Str, msg: Message)
    | Delivered(at: Str, msg: Message)

  type Trace = seq<Event>

  /** The messages sent by `k`, in order. */
  function SentBy(t: Trace, k: Str): seq<Message> {
    if t == [] then []
    else
      var e := t[|t| - 1];
      SentBy(t[..|t| - 1], k) + if e.Sent? && e.at == k then [e.msg] else []
  }

  /** The messages from `k` delivered at node `i`, in order. */
  function DeliveredAt(t: Trace, i: Str, k: Str): seq<Message> {
    if t == [] then []
    else
      var e := t[|t| - 1];
      DeliveredAt(t[..|t| - 1], i, k) + if e.Delivered? && e.at == i && e.msg.uuid == k then [e.msg] else []
  }

  /** Is `e` something that the code can do after `past`? */
  ghost predicate EventOk(peers: set<Str>, past: Trace, e: Event) {
    && e.at in peers && e.msg.uuid in peers && e.msg.vectorClock.Keys == peers && e.msg.ip == []
    && match e
       case Sent(i, m) =>
         && m.uuid == i
         && m.frame == |SentBy(past, i)| % TWO_32
         && m.vectorClock[i] == (|SentBy(past, i)| + 1) % TWO_32
         && forall k :: k in peers && k != i ==> m.vectorClock[k] == |DeliveredAt(past, i, k)|
       case Arrived(i, m) =>
         m.uuid != i && Sent(m.uuid, m) in past
       case Delivered(i, m) =>
         && m.uuid != i && Sent(m.uuid, m) in past && Arrived(i, m) in past
         && m.vectorClock[m.uuid] == |DeliveredAt(past, i, m.uuid)| + 1
         && m.vectorClock[i] <= |SentBy(past, i)|
         && forall k :: k in peers && k != i && k != m.uuid ==> m.vectorClock[k] <= |DeliveredAt(past, i, k)|
  }

  ghost predicate GoodTrace(peers: set<Str>, t: Trace) {
    forall p :: 0 <= p < |t| ==> EventOk(peers, t[..p], t[p])
  }

  lemma EventAt(peers: set<Str>, t: Trace, p: nat)
    requires GoodTrace(peers, t) && p < |t|
    ensures EventOk(peers, t[..p], t[p])
  {
  }

  /** No node sent more than `n` messages. */
  ghost predicate SendsAtMost(t: Trace, n: nat) {
    forall k :: |SentBy(t, k)| <= n
  }

  // ---------------------------------------------------------------------
  // Logs of prefixes
  // ---------------------------------------------------------------------

  lemma EmptyLogs(i: Str, k: Str)
    ensures SentBy([], k) == [] && DeliveredAt([], i, k) == []
  {
  }

  lemma LogStep(t: Trace, p: nat, i: Str, k: Str)
    requires p < |t|
    ensures SentBy(t[..p + 1], k) == SentBy(t[..p], k) + if t[p].Sent? && t[p].at == k then [t[p].msg] else []
    ensures DeliveredAt(t[..p + 1], i, k)
         == DeliveredAt(t[..p], i, k) + if t[p].Delivered? && t[p].at == i && t[p].msg.uuid == k then [t[p].msg] else []
  {
    assert t[..p + 1][..p] == t[..p];
  }

  lemma AppendLog(t: Trace, e: Event, i: Str, k: Str)
    ensures SentBy(t + [e], k) == SentBy(t, k) + if e.Sent? && e.at == k then [e.msg] else []
    ensures DeliveredAt(t + [e], i, k)
         == DeliveredAt(t, i, k) + if e.Delivered? && e.at == i && e.msg.uuid == k then [e.msg] else []
  {
    assert (t + [e])[..|t|] == t;
  }

  lemma {:induction false} LogGrows(t: Trace, p: nat, q: nat, i: Str, k: Str)
    requires p <= q <= |t|
    ensures SentBy(t[..p], k) <= SentBy(t[..q], k)
    ensures DeliveredAt(t[..p], i, k) <= DeliveredAt(t[..q], i, k)
    decreases q - p
  {
    hide SentBy, DeliveredAt;
    if p == q {
    } else {
      LogStep(t, q - 1, i, k);
      LogGrows(t, p, q - 1, i, k);
    }
  }

  /** A send at position `p` puts its message at that place of the log. */
  lemma SentAtIndex(t: Trace, p: nat, k: Str, m: Message)
    requires p < |t| && t[p] == Sent(k, m)
    ensures |SentBy(t[..p], k)| < |SentBy(t, k)| && SentBy(t, k)[|SentBy(t[..p], k)|] == m
  {
    hide SentBy, DeliveredAt;
    LogStep(t, p, k, k);
    LogGrows(t, p + 1, |t|, k, k);
    assert t[..|t|] == t;
  }

  lemma {:induction false} SendOf(t: Trace, k: Str, n: nat) returns (p: nat)
    requires n < |SentBy(t, k)|
    ensures p < |t| && t[p] == Sent(k, SentBy(t, k)[n]) && |SentBy(t[..p], k)| == n
  {
    var front := t[..|t| - 1];
    if n < |SentBy(front, k)| {
      p := SendOf(front, k, n);
      assert front[..p] == t[..p];
    } else {
      p := |t| - 1;
    }
  }

  lemma {:induction false} DeliveryOf(t: Trace, i: Str, k: Str, n: nat) returns (p: nat)
    requires n < |DeliveredAt(t, i, k)|
    ensures p < |t| && t[p] == Delivered(i, DeliveredAt(t, i, k)[n]) && |DeliveredAt(t[..p], i, k)| == n
  {
    var front := t[..|t| - 1];
    if n < |DeliveredAt(front, i, k)| {
      p := DeliveryOf(front, i, k, n);
      assert front[..p] == t[..p];
    } else {
      p := |t| - 1;
    }
  }

  lemma GoodPrefix(peers: set<Str>, t: Trace, p: nat)
    requires GoodTrace(peers, t) && p <= |t|
    ensures GoodTrace(peers, t[..p])
  {
    hide EventOk;
    forall q | 0 <= q < p
      ensures EventOk(peers, t[..p][..q], t[..p][q])
    {
      assert t[..p][..q] == t[..q];
    }
  }

  lemma SendsPrefix(t: Trace, p: nat, n: nat)
    requires SendsAtMost(t, n) && p <= |t|
    ensures SendsAtMost(t[..p], n)
  {
    hide SentBy, DeliveredAt;
    forall k
      ensures |SentBy(t[..p], k)| <= n
    {
      LogGrows(t, p, |t|, k, k);
      assert t[..|t|] == t;
    }
  }

  /** The n-th message of a sender carries n as its stamp, modulo the width of the counter. */
  lemma StampIsNumber(peers: set<Str>, t: Trace, k: Str, n: nat)
    requires GoodTrace(peers, t) && n < |SentBy(t, k)|
    ensures var m := SentBy(t, k)[n];
            k in peers && m.uuid == k && m.frame == n % TWO_32 && m.vectorClock.Keys == peers
            && m.vectorClock[k] == (n + 1) % TWO_32
  {
    hide SentBy, DeliveredAt, GoodTrace;
    var p := SendOf(t, k, n);
    EventAt(peers, t, p);
  }

  /** Up to 2^32 messages of a sender, a non-zero stamp tells the message. */
  lemma StampTells(peers: set<Str>, t: Trace, m: Message)
    requires GoodTrace(peers, t) && SendsAtMost(t, TWO_32) && Sent(m.uuid, m) in t
    ensures m.vectorClock.Keys == peers && m.uuid in peers
    ensures var n := m.vectorClock[m.uuid];
            n != 0 ==> n <= |SentBy(t, m.uuid)| && SentBy(t, m.uuid)[n - 1] == m
  {
    hide SentBy, DeliveredAt, GoodTrace;
    var p :| 0 <= p < |t| && t[p] == Sent(m.uuid, m);
    EventAt(peers, t, p);
    SentAtIndex(t, p, m.uuid, m);
  }

  lemma DeliveredPrefixStep(peers: set<Str>, t: Trace, e: Event, i: Str, k: Str)
    requires GoodTrace(peers, t) && SendsAtMost(t, TWO_32) && EventOk(peers, t, e)
    requires DeliveredAt(t, i, k) <= SentBy(t, k)
    ensures DeliveredAt(t + [e], i, k) <= SentBy(t + [e], k)
  {
    hide SentBy, DeliveredAt, GoodTrace, SendsAtMost;
    AppendLog(t, e, i, k);
    if e.Delivered? && e.at == i && e.msg.uuid == k {
      StampTells(peers, t, e.msg);
      assert SentBy(t, k)[|DeliveredAt(t, i, k)|] == e.msg;
    }
  }

  /** A node delivers another node's messages in the order sent, from the first on, each once. */
  lemma {:induction false} DeliveredPrefix(peers: set<Str>, t: Trace, i: Str, k: Str)
    requires GoodTrace(peers, t) && SendsAtMost(t, TWO_32)
    ensures DeliveredAt(t, i, k) <= SentBy(t, k)
  {
    hide SentBy, DeliveredAt, GoodTrace, SendsAtMost, EventOk;
    if t == [] {
      EmptyLogs(i, k);
    } else {
      var p := |t| - 1;
      GoodPrefix(peers, t, p);
      SendsPrefix(t, p, TWO_32);
      DeliveredPrefix(peers, t[..p], i, k);
      EventAt(peers, t, p);
      assert t == t[..p] + [t[p]];
      DeliveredPrefixStep(peers, t[..p], t[p], i, k);
    }
  }

  /** A stamp of 0 at the own sender is never the next one. */
  lemma ZeroNeverDelivered(peers: set<Str>, t: Trace, i: Str, m: Message)
    requires GoodTrace(peers, t) && m.uuid in m.vectorClock && m.vectorClock[m.uuid] == 0
    ensures Delivered(i, m) !in t
  {
    hide GoodTrace, SentBy, DeliveredAt;
    if Delivered(i, m) in t {
      var p :| 0 <= p < |t| && t[p] == Delivered(i, m);
      EventAt(peers, t, p);
    }
  }

  lemma DeliveredOnce(peers: set<Str>, t: Trace, p: nat, q: nat)
    requires GoodTrace(peers, t) && p < q < |t| && t[p].Delivered?
    ensures t[p] != t[q]
  {
    hide SentBy, DeliveredAt, GoodTrace;
    var i, k := t[p].at, t[p].msg.uuid;
    EventAt(peers, t, p);
    EventAt(peers, t, q);
    if t[q].Delivered? && t[q].at == i && t[q].msg.uuid == k {
      LogStep(t, p, i, k);
      LogGrows(t, p + 1, q, i, k);
      assert t[p].msg.vectorClock[k] < t[q].msg.vectorClock[k];
    }
  }

  // ---------------------------------------------------------------------
  // Happens-before
  // ---------------------------------------------------------------------

  /** The sender of `b` had sent or delivered `a` when it sent `b`. */
  ghost predicate Direct(t: Trace, a: Message, b: Message) {
    exists p, q :: DirectAt(t, a, b, p, q)
  }

  ghost predicate DirectAt(t: Trace, a: Message, b: Message, p: int, q: int) {
    0 <= p < q < |t| && t[q] == Sent(b.uuid, b) && (t[p] == Sent(b.uuid, a) || t[p] == Delivered(b.uuid, a))
  }

  ghost predicate Path(t: Trace, path: seq<Message>) {
    |path| >= 2 && forall n :: 0 <= n < |path| - 1 ==> Direct(t, path[n], path[n + 1])
  }

  ghost predicate Connects(t: Trace, a: Message, b: Message, path: seq<Message>) {
    Path(t, path) && path[0] == a && path[|path| - 1] == b
  }

  /** The transitive closure of `Direct`. */
  ghost predicate HappensBefore(t: Trace, a: Message, b: Message) {
    exists path :: Connects(t, a, b, path)
  }

  lemma DirectHappensBefore(t: Trace, a: Message, b: Message)
    requires Direct(t, a, b)
    ensures HappensBefore(t, a, b)
  {
    assert Connects(t, a, b, [a, b]);
  }

  /** `a`'s stamp lies below `b`'s, strictly so at the sender of `b`. */
  ghost predicate Below(peers: set<Str>, a: Message, b: Message) {
    && a.uuid in peers && b.uuid in peers && a.vectorClock.Keys == peers
    && CC.Leq(a.vectorClock, b.vectorClock)
    && a.vectorClock[b.uuid] < b.vectorClock[b.uuid]
  }

  /** A message that was sent and whose own stamp did not wrap to zero. */
  ghost predicate Numbered(peers: set<Str>, t: Trace, m: Message) {
    && Sent(m.uuid, m) in t && m.uuid in peers && m.vectorClock.Keys == peers
    && m.vectorClock[m.uuid] != 0
  }

  lemma DirectNumbered(peers: set<Str>, t: Trace, a: Message, b: Message)
    requires GoodTrace(peers, t) && SendsAtMost(t, TWO_32) && Direct(t, a, b)
    ensures Numbered(peers, t, a) && Sent(b.uuid, b) in t
  {
    hide SentBy, DeliveredAt, GoodTrace;
    var p, q :| DirectAt(t, a, b, p, q);
    EventAt(peers, t, p);
    EventAt(peers, t, q);
    if t[p].Sent? {
      LogStep(t, p, b.uuid, b.uuid);
      LogGrows(t, p + 1, q, b.uuid, b.uuid);
      SentAtIndex(t, q, b.uuid, b);
    }
  }

  lemma StampNumber(stamp: nat, sent: nat)
    requires sent < TWO_32 && stamp == (sent + 1) % TWO_32 && stamp != 0
    ensures stamp == sent + 1
  {
  }

  /** The stamp of a numbered message is the history of its sender. */
  lemma StampOf(peers: set<Str>, t: Trace, b: Message, q: nat, k: Str)
    requires GoodTrace(peers, t) && SendsAtMost(t, TWO_32) && Numbered(peers, t, b)
    requires q < |t| && t[q] == Sent(b.uuid, b) && k in peers
    ensures b.vectorClock[k]
         == if k == b.uuid then |SentBy(t[..q], k)| + 1 else |DeliveredAt(t[..q], b.uuid, k)|
  {
    hide SentBy, DeliveredAt, GoodTrace;
    EventAt(peers, t, q);
    SentAtIndex(t, q, b.uuid, b);
    StampNumber(b.vectorClock[b.uuid], |SentBy(t[..q], b.uuid)|);
  }

  /** Between the two events of `DirectAt` one clock entry does not fall, and the sender's own one rises. */
  lemma DirectBelowAt(peers: set<Str>, t: Trace, a: Message, b: Message, p: nat, q: nat, k: Str)
    requires GoodTrace(peers, t) && SendsAtMost(t, TWO_32) && Numbered(peers, t, a) && Numbered(peers, t, b)
    requires DirectAt(t, a, b, p, q) && k in peers
    ensures a.vectorClock[k] <= b.vectorClock[k]
    ensures k == b.uuid ==> a.vectorClock[k] < b.vectorClock[k]
  {
    hide SentBy, DeliveredAt, GoodTrace, SendsAtMost;
    StampOf(peers, t, b, q, k);
    LogStep(t, p, b.uuid, k);
    LogGrows(t, p + 1, q, b.uuid, k);
    EventAt(peers, t, p);
    if t[p].Sent? {
      StampOf(peers, t, a, p, k);
    }
  }

  lemma DirectBelow(peers: set<Str>, t: Trace, a: Message, b: Message)
    requires GoodTrace(peers, t) && SendsAtMost(t, TWO_32) && Direct(t, a, b) && Numbered(peers, t, b)
    ensures Below(peers, a, b)
  {
    hide SentBy, DeliveredAt, GoodTrace, SendsAtMost, EventOk;
    DirectNumbered(peers, t, a, b);
    var p, q :| DirectAt(t, a, b, p, q);
    forall k | k in peers
      ensures a.vectorClock[k] <= b.vectorClock[k] && (k == b.uuid ==> a.vectorClock[k] < b.vectorClock[k])
    {
      DirectBelowAt(peers, t, a, b, p, q, k);
    }
  }

  lemma {:induction false} PathBelow(peers: set<Str>, t: Trace, path: seq<Message>)
    requires GoodTrace(peers, t) && SendsAtMost(t, TWO_32)
    requires Path(t, path) && Numbered(peers, t, path[|path| - 1])
    ensures Numbered(peers, t, path[0]) && Below(peers, path[0], path[|path| - 1])
  {
    hide SentBy, DeliveredAt, GoodTrace, SendsAtMost, Direct, EventOk;
    var a, c := path[0], path[1];
    assert Direct(t, path[0], path[1]);
    DirectNumbered(peers, t, a, c);
    if |path| > 2 {
      var rest := path[1..];
      forall n | 0 <= n < |rest| - 1
        ensures Direct(t, rest[n], rest[n + 1])
      {
        assert Direct(t, path[n + 1], path[n + 2]);
      }
      PathBelow(peers, t, rest);
    }
    DirectBelow(peers, t, a, c);
  }

  lemma HappensBeforeBelow(peers: set<Str>, t: Trace, a: Message, b: Message)
    requires GoodTrace(peers, t) && SendsAtMost(t, TWO_32)
    requires HappensBefore(t, a, b) && Numbered(peers, t, b)
    ensures Numbered(peers, t, a) && Below(peers, a, b)
  {
    hide SentBy, DeliveredAt, GoodTrace, SendsAtMost, Path, Below, Numbered;
    var path :| Connects(t, a, b, path);
    PathBelow(peers, t, path);
  }

  // ---------------------------------------------------------------------
  // Causal delivery
  // ---------------------------------------------------------------------

  /** Every delivery comes after the deliveries of all causes sent by other nodes. */
  ghost predicate Causal(t: Trace) {
    forall p, a: Message :: 0 <= p < |t| && t[p].Delivered? && a.uuid != t[p].at && HappensBefore(t, a, t[p].msg)
      ==> Delivered(t[p].at, a) in t[..p]
  }

  lemma CauseDelivered(peers: set<Str>, t: Trace, p: nat, a: Message)
    requires GoodTrace(peers, t) && SendsAtMost(t, TWO_32)
    requires p < |t| && t[p].Delivered? && a.uuid != t[p].at && HappensBefore(t, a, t[p].msg)
    ensures Delivered(t[p].at, a) in t[..p]
  {
    hide SentBy, DeliveredAt, GoodTrace, SendsAtMost, HappensBefore;
    var i, b, j := t[p].at, t[p].msg, a.uuid;
    EventAt(peers, t, p);
    HappensBeforeBelow(peers, t, a, b);
    var past := t[..p];
    var n := a.vectorClock[j];
    assert n <= |DeliveredAt(past, i, j)|;
    StampTells(peers, t, a);
    GoodPrefix(peers, t, p);
    SendsPrefix(t, p, TWO_32);
    DeliveredPrefix(peers, past, i, j);
    LogGrows(t, p, |t|, i, j);
    assert t[..|t|] == t;
    var d := DeliveryOf(past, i, j, n - 1);
    assert past[d] == Delivered(i, a);
  }

  lemma CausalDelivery(peers: set<Str>, t: Trace)
    requires GoodTrace(peers, t) && SendsAtMost(t, TWO_32)
    ensures Causal(t)
  {
    hide GoodTrace, SendsAtMost, HappensBefore;
    forall p, a: Message | 0 <= p < |t| && t[p].Delivered? && a.uuid != t[p].at && HappensBefore(t, a, t[p].msg)
      ensures Delivered(t[p].at, a) in t[..p]
    {
      CauseDelivered(peers, t, p, a);
    }
  }

  // ---------------------------------------------------------------------
  // Stamps characterise causality
  // ---------------------------------------------------------------------

  lemma StampImpliesDirect(peers: set<Str>, t: Trace, a: Message, b: Message)
    requires GoodTrace(peers, t) && SendsAtMost(t, TWO_32 - 1)
    requires Numbered(peers, t, a) && Numbered(peers, t, b) && a != b
    requires a.vectorClock[a.uuid] <= b.vectorClock[a.uuid]
    ensures Direct(t, a, b)
  {
    hide SentBy, DeliveredAt, GoodTrace;
    var j, k, n := b.uuid, a.uuid, a.vectorClock[a.uuid];
    StampTells(peers, t, a);
    StampTells(peers, t, b);
    var q := SendOf(t, j, b.vectorClock[j] - 1);
    var past := t[..q];
    EventAt(peers, t, q);
    if j == k {
      var p := SendOf(t, j, n - 1);
      if q <= p {
        LogGrows(t, q, p, j, j);
      }
      assert DirectAt(t, a, b, p, q);
    } else {
      GoodPrefix(peers, t, q);
      SendsPrefix(t, q, TWO_32);
      DeliveredPrefix(peers, past, j, k);
      LogGrows(t, q, |t|, j, k);
      assert t[..|t|] == t;
      var p := DeliveryOf(past, j, k, n - 1);
      assert DirectAt(t, a, b, p, q);
    }
  }

  lemma SentNumbered(peers: set<Str>, t: Trace, m: Message)
    requires GoodTrace(peers, t) && SendsAtMost(t, TWO_32 - 1) && Sent(m.uuid, m) in t
    ensures Numbered(peers, t, m)
  {
    hide SentBy, DeliveredAt, GoodTrace;
    var p :| 0 <= p < |t| && t[p] == Sent(m.uuid, m);
    EventAt(peers, t, p);
    SentAtIndex(t, p, m.uuid, m);
  }

  /** `a` happened before `b` exactly when `b`'s stamp has reached `a` at `a`'s sender. */
  lemma StampsCharacteriseCausality(peers: set<Str>, t: Trace, a: Message, b: Message)
    requires GoodTrace(peers, t) && SendsAtMost(t, TWO_32 - 1)
    requires Sent(a.uuid, a) in t && Sent(b.uuid, b) in t && a != b
    ensures a.uuid in a.vectorClock && a.uuid in b.vectorClock
    ensures HappensBefore(t, a, b) <==> a.vectorClock[a.uuid] <= b.vectorClock[a.uuid]
  {
    hide SentBy, DeliveredAt, GoodTrace, HappensBefore;
    SentNumbered(peers, t, a);
    SentNumbered(peers, t, b);
    if a.vectorClock[a.uuid] <= b.vectorClock[a.uuid] {
      StampImpliesDirect(peers, t, a, b);
      DirectHappensBefore(t, a, b);
    }
    if HappensBefore(t, a, b) {
      HappensBeforeBelow(peers, t, a, b);
    }
  }
}
