// server/multicast/multicast.go: which nodes an acknowledgement is still awaited from,
// for every frame, over any interleaving of sends, acks, retries and removals.
module MulticastAcks {
  import opened Bytes

  type Pending = map<U32, map<Str, bool>>

  // ---------------------------------------------------------------------
  // The four places that touch the table
  // ---------------------------------------------------------------------

  /** The send loop stores a fresh map for every node, so the last node's map is what stays. */
  function AfterSend(p: Pending, nodeIds: seq<Str>, frame: U32): Pending {
    if nodeIds == [] then p else p[frame := map[nodeIds[|nodeIds| - 1] := false]]
  }

  function AfterAck(p: Pending, uuid: Str, frame: U32): Pending {
    if frame in p then p[frame := p[frame] - {uuid}] else p
  }

  /** A retry worker gives a frame up once nothing is pending for it. */
  function AfterRetry(p: Pending, frame: U32): Pending {
    if frame in p && |p[frame]| > 0 then p else p - {frame}
  }

  function AfterRemoval(p: Pending, id: Str): Pending {
    map f | f in p :: p[f] - {id}
  }

  function RemoveFirst(ids: seq<Str>, id: Str): seq<Str> {
    if ids == [] then []
    else if ids[0] == id then ids[1..]
    else [ids[0]] + RemoveFirst(ids[1..], id)
  }

  lemma {:induction false} RemoveFirstCounts(ids: seq<Str>, id: Str)
    ensures multiset(RemoveFirst(ids, id)) == multiset(ids) - multiset{id}
  {
    if ids == [] {
    } else {
      assert ids == [ids[0]] + ids[1..];
      RemoveFirstCounts(ids[1..], id);
    }
  }

  /** Is an ack from `id` for `frame` still awaited? */
  predicate Awaits(p: Pending, frame: U32, id: Str) { frame in p && id in p[frame] }

  /** The nodes a new frame waits for are all the peers exactly when there is at most one peer. */
  lemma AwaitsAllPeersIff(p: Pending, nodeIds: seq<Str>, frame: U32)
    requires frame !in p
    ensures (forall id :: id in nodeIds <==> Awaits(AfterSend(p, nodeIds, frame), frame, id))
        <==> forall id, id' :: id in nodeIds && id' in nodeIds ==> id == id'
  {
    if nodeIds != [] {
      var last := nodeIds[|nodeIds| - 1];
      assert last in nodeIds;
      assert forall id :: Awaits(AfterSend(p, nodeIds, frame), frame, id) <==> id == last;
    }
  }

  /** A turn of a retry worker forgets its frame exactly when nobody is awaited, and no other frame ever. */
  lemma RetryForgets(p: Pending, frame: U32, f: U32)
    ensures f in AfterRetry(p, frame) <==> f in p && (f == frame ==> exists id :: Awaits(p, frame, id))
    ensures f in AfterRetry(p, frame) ==> AfterRetry(p, frame)[f] == p[f]
  {
    if frame in p && |p[frame]| > 0 {
      assert exists id :: id in p[frame];
      var id :| id in p[frame];
      assert Awaits(p, frame, id);
    }
  }

  // ---------------------------------------------------------------------
  // Runs
  // ---------------------------------------------------------------------

  /** `sends` counts the messages sent so far; `frame` is the wrapping counter of the code. */
  datatype Book = Book(sends: nat, frame: U32, nodeIds: seq<Str>, pending: Pending)

  datatype Action = Send | Ack(uuid: Str, frame: U32) | Retry(frame: U32) | Remove(id: Str)

  function Step(b: Book, a: Action): Book {
    match a
    case Send => Book(b.sends + 1, Inc32(b.frame), b.nodeIds, AfterSend(b.pending, b.nodeIds, b.frame))
    case Ack(uuid, frame) => b.(pending := AfterAck(b.pending, uuid, frame))
    case Retry(frame) => b.(pending := AfterRetry(b.pending, frame))
    case Remove(id) => b.(nodeIds := RemoveFirst(b.nodeIds, id), pending := AfterRemoval(b.pending, id))
  }

  function Run(b: Book, actions: seq<Action>): Book
    decreases |actions|
  {
    if actions == [] then b else Run(Step(b, actions[0]), actions[1..])
  }

  /**
   Frames in the table were used before, an id is listed at most once, and only
   current nodes are awaited, at most one for each frame.
   */
  ghost predicate Consistent(b: Book) {
    && b.frame == b.sends % TWO_32
    && (forall id :: multiset(b.nodeIds)[id] <= 1)
    && (forall f :: f in b.pending ==> f < b.sends)
    && (forall f, id :: Awaits(b.pending, f, id) ==> id in b.nodeIds)
    && (forall f, id, id' :: Awaits(b.pending, f, id) && Awaits(b.pending, f, id') ==> id == id')
  }

  lemma {:induction false} SendsGrow(b: Book, actions: seq<Action>)
    ensures b.sends <= Run(b, actions).sends
    decreases |actions|
  {
    if actions == [] {
    } else {
      SendsGrow(Step(b, actions[0]), actions[1..]);
    }
  }

  /** What one step does to the expectation of one ack. */
  lemma StepAwaits(b: Book, a: Action, f: U32, id: Str)
    ensures Awaits(Step(b, a).pending, f, id) <==>
      || (a == Send && f == b.frame && b.nodeIds != [] && id == b.nodeIds[|b.nodeIds| - 1])
      || (Awaits(b.pending, f, id) && a != Ack(id, f) && a != Remove(id)
          && !(a == Send && f == b.frame && b.nodeIds != []))
  {
  }

  lemma StepFrames(b: Book, a: Action)
    requires forall f :: f in b.pending ==> f < b.sends
    requires b.frame == b.sends % TWO_32
    ensures forall f :: f in Step(b, a).pending ==> f < Step(b, a).sends
  {
    assert b.frame <= b.sends;
  }

  lemma StepLists(b: Book, a: Action, id: Str)
    requires multiset(b.nodeIds)[id] <= 1
    ensures multiset(Step(b, a).nodeIds)[id] <= 1
    ensures id in Step(b, a).nodeIds <==> id in b.nodeIds && a != Remove(id)
  {
    if a.Remove? {
      var ids := RemoveFirst(b.nodeIds, a.id);
      RemoveFirstCounts(b.nodeIds, a.id);
      assert id in ids <==> id in multiset(ids);
      assert id in b.nodeIds <==> id in multiset(b.nodeIds);
    }
  }

  lemma StepCounts(b: Book, a: Action)
    requires b.frame == b.sends % TWO_32
    ensures Step(b, a).frame == Step(b, a).sends % TWO_32
  {
    IncWraps(b.sends);
    hide Inc32;
  }

  lemma StepKeeps(b: Book, a: Action)
    requires Consistent(b)
    ensures Consistent(Step(b, a))
  {
    hide Step, Awaits, AfterSend, AfterAck, AfterRetry, AfterRemoval, RemoveFirst;
    var b' := Step(b, a);
    StepFrames(b, a);
    assert b'.frame == b'.sends % TWO_32 by { StepCounts(b, a); }
    forall id
      ensures multiset(b'.nodeIds)[id] <= 1
    {
      StepLists(b, a, id);
    }
    forall f, id | Awaits(b'.pending, f, id)
      ensures id in b'.nodeIds
    {
      StepAwaits(b, a, f, id);
      StepLists(b, a, id);
    }
    forall f, id, id' | Awaits(b'.pending, f, id) && Awaits(b'.pending, f, id')
      ensures id == id'
    {
      StepAwaits(b, a, f, id);
      StepAwaits(b, a, f, id');
    }
  }

  /** The table stays consistent over every run. */
  lemma {:induction false} RunKeeps(b: Book, actions: seq<Action>)
    requires Consistent(b)
    ensures Consistent(Run(b, actions))
    decreases |actions|
  {
    hide Consistent, Step;
    if actions == [] {
    } else {
      StepKeeps(b, actions[0]);
      RunKeeps(Step(b, actions[0]), actions[1..]);
    }
  }

  /** None of the sends from number `low` up to `high` takes frame `f`. */
  ghost predicate Unused(f: U32, low: nat, high: nat) {
    forall n :: low <= n < high ==> n % TWO_32 != f
  }

  lemma ShrinkStep(b: Book, a: Action, f: U32, id: Str)
    requires b.frame == b.sends % TWO_32 && Unused(f, b.sends, Step(b, a).sends) && !Awaits(b.pending, f, id)
    ensures !Awaits(Step(b, a).pending, f, id)
  {
    StepAwaits(b, a, f, id);
    hide Awaits;
    assert a == Send ==> b.sends < Step(b, a).sends;
  }

  lemma UnusedParts(f: U32, low: nat, mid: nat, high: nat)
    requires low <= mid <= high && Unused(f, low, high)
    ensures Unused(f, low, mid) && Unused(f, mid, high)
  {
  }

  /** Until its number is used again, a node is never added to the set awaited for a frame. */
  lemma {:induction false} PendingOnlyShrinks(b: Book, actions: seq<Action>, f: U32, id: Str)
    requires b.frame == b.sends % TWO_32 && Unused(f, b.sends, Run(b, actions).sends)
    requires !Awaits(b.pending, f, id)
    ensures !Awaits(Run(b, actions).pending, f, id)
    decreases |actions|
  {
    hide Awaits, Step, Unused;
    if actions == [] {
    } else {
      var next := Step(b, actions[0]);
      SendsGrow(b, [actions[0]]);
      SendsGrow(next, actions[1..]);
      OneStep(b, actions[0]);
      StepCounts(b, actions[0]);
      UnusedParts(f, b.sends, next.sends, Run(b, actions).sends);
      ShrinkStep(b, actions[0], f, id);
      PendingOnlyShrinks(next, actions[1..], f, id);
    }
  }

  lemma OneStep(b: Book, a: Action)
    ensures Run(b, [a]) == Step(b, a)
  {
    assert Run(b, [a]) == Run(Step(b, a), []);
    hide Step;
  }

  lemma SettledByStep(b: Book, a: Action, f: U32, id: Str)
    requires b.frame == b.sends % TWO_32 && Unused(f, b.sends, Step(b, a).sends)
    requires Awaits(b.pending, f, id) && !Awaits(Step(b, a).pending, f, id)
    ensures a == Ack(id, f) || a == Remove(id)
  {
    StepAwaits(b, a, f, id);
    assert a == Send ==> b.sends < Step(b, a).sends;
  }

  /** Until then a node stops being awaited only by its own ack for that frame or by its removal. */
  lemma {:induction false} SettledOnlyByAckOrRemoval(b: Book, actions: seq<Action>, f: U32, id: Str)
    requires b.frame == b.sends % TWO_32 && Unused(f, b.sends, Run(b, actions).sends)
    requires Awaits(b.pending, f, id) && !Awaits(Run(b, actions).pending, f, id)
    ensures Ack(id, f) in actions || Remove(id) in actions
    decreases |actions|
  {
    hide Awaits, Step, Unused;
    var a, next := actions[0], Step(b, actions[0]);
    SendsGrow(b, [a]);
    SendsGrow(next, actions[1..]);
    OneStep(b, a);
    StepCounts(b, a);
    UnusedParts(f, b.sends, next.sends, Run(b, actions).sends);
    if Awaits(next.pending, f, id) {
      SettledOnlyByAckOrRemoval(next, actions[1..], f, id);
    } else {
      SettledByStep(b, a, f, id);
    }
  }

  lemma {:induction false} UnlistedNeverAwaited(b: Book, actions: seq<Action>, id: Str, f: U32)
    requires id !in b.nodeIds && !Awaits(b.pending, f, id)
    ensures !Awaits(Run(b, actions).pending, f, id)
    decreases |actions|
  {
    hide Awaits;
    if actions == [] {
    } else {
      assert id !in multiset(b.nodeIds);
      StepLists(b, actions[0], id);
      StepAwaits(b, actions[0], f, id);
      UnlistedNeverAwaited(Step(b, actions[0]), actions[1..], id, f);
    }
  }

  /** Once those listed behind it are removed, a listed node is the one that the next send awaits. */
  lemma {:induction false} ListedIsAwaited(b: Book, id: Str) returns (actions: seq<Action>)
    requires id in b.nodeIds
    ensures Awaits(Run(b, actions).pending, b.frame, id)
    decreases |b.nodeIds|
  {
    hide Awaits;
    var last := b.nodeIds[|b.nodeIds| - 1];
    if last == id {
      actions := [Send];
      StepAwaits(b, Send, b.frame, id);
      assert Run(b, [Send]) == Run(Step(b, Send), []);
    } else {
      var next := Step(b, Remove(last));
      RemoveFirstCounts(b.nodeIds, last);
      assert last in multiset(b.nodeIds) && id in multiset(b.nodeIds);
      assert |multiset(next.nodeIds)| < |multiset(b.nodeIds)| && id in multiset(next.nodeIds);
      var rest := ListedIsAwaited(next, id);
      actions := [Remove(last)] + rest;
      assert actions[1..] == rest;
    }
  }

  /** The first step of a run that starts with a removal. */
  lemma AfterTheRemoval(b: Book, id: Str, actions: seq<Action>)
    ensures Run(b, [Remove(id)] + actions) == Run(Step(b, Remove(id)), actions)
  {
    assert ([Remove(id)] + actions)[1..] == actions;
    hide Step;
  }

  lemma RemovedUnlisted(b: Book, id: Str)
    ensures id in Step(b, Remove(id)).nodeIds <==> multiset(b.nodeIds)[id] > 1
  {
    RemoveFirstCounts(b.nodeIds, id);
    var ids := Step(b, Remove(id)).nodeIds;
    assert id in ids <==> multiset(ids)[id] > 0;
  }

  /** After its removal a node is never awaited again exactly when it was listed at most once. */
  lemma RemovedNeverAwaited(b: Book, id: Str)
    ensures (forall actions, f :: !Awaits(Run(b, [Remove(id)] + actions).pending, f, id))
       <==> multiset(b.nodeIds)[id] <= 1
  {
    hide Awaits, Step, Run;
    var next := Step(b, Remove(id));
    RemovedUnlisted(b, id);
    if multiset(b.nodeIds)[id] <= 1 {
      forall actions, f: U32
        ensures !Awaits(Run(b, [Remove(id)] + actions).pending, f, id)
      {
        AfterTheRemoval(b, id, actions);
        StepAwaits(b, Remove(id), f, id);
        UnlistedNeverAwaited(next, actions, id, f);
      }
    } else {
      var actions := ListedIsAwaited(next, id);
      AfterTheRemoval(b, id, actions);
      assert Awaits(Run(b, [Remove(id)] + actions).pending, next.frame, id);
    }
  }
}
