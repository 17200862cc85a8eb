// server/multicast/multicast.go: the object a node holds for one multicast session.
// Every method body between lock and unlock is one atomic step.
module ReliableMulticast {
  import opened Bytes
  import opened MulticastFraming
  import opened CausalClock
  import MulticastAcks
  import MessageCodec

  /** The peers other than `id`, in order. */
  function Others(ids: seq<Str>, id: Str): (r: seq<Str>)
    ensures |r| <= |ids|
    ensures id in ids ==> |r| < |ids|
  {
    if ids == [] then []
    else
      var front, last := ids[..|ids| - 1], ids[|ids| - 1];
      Others(front, id) + if last == id then [] else [last]
  }

  lemma OthersFront(ids: seq<Str>, id: Str, n: nat)
    requires n < |ids|
    ensures Others(ids[..n + 1], id) == Others(ids[..n], id) + if ids[n] == id then [] else [ids[n]]
  {
    assert ids[..n + 1][..n] == ids[..n];
  }

  function Blanks(n: nat): (r: seq<Str>)
    ensures |r| == n && forall i :: 0 <= i < n ==> r[i] == []
  {
    seq(n, _ => [])
  }

  lemma FillSlot(front: seq<Str>, free: nat, x: Str)
    requires free > 0
    ensures (front + Blanks(free))[|front| := x] == front + [x] + Blanks(free - 1)
  {
  }

  /** There is a slot for each of the other peers. */
  lemma SlotFree(ids: seq<Str>, id: Str, n: nat)
    requires id in ids && n < |ids| && ids[n] != id
    ensures |Others(ids[..n], id)| < |ids| - 1
    decreases |ids|
  {
    var front, last := ids[..|ids| - 1], ids[|ids| - 1];
    if n == |ids| - 1 {
      assert id in front;
    } else if id in front {
      assert front[..n] == ids[..n];
      SlotFree(front, id, n);
    }
  }

  /** `nodeIds` as the constructor leaves it: one slot less than peers, the rest of the slots blank. */
  function InitialNodeIds(ids: seq<Str>, id: Str): seq<Str>
    requires id in ids
  {
    Others(ids, id) + Blanks(|ids| - 1 - |Others(ids, id)|)
  }

  lemma {:induction false} OthersCount(ids: seq<Str>, id: Str, k: Str)
    ensures multiset(Others(ids, id))[k] == if k == id then 0 else multiset(ids)[k]
    ensures |Others(ids, id)| + multiset(ids)[id] == |ids|
  {
    if ids == [] {
    } else {
      var front, last := ids[..|ids| - 1], ids[|ids| - 1];
      assert ids == front + [last];
      OthersCount(front, id, k);
    }
  }

  /** With distinct peers, `nodeIds` holds each of the other peers once and nothing else. */
  lemma InitialNodeIdsDistinct(ids: seq<Str>, id: Str, k: Str)
    requires id in ids && forall k :: multiset(ids)[k] <= 1
    ensures multiset(InitialNodeIds(ids, id))[k] == if k in ids && k != id then 1 else 0
  {
    hide Others;
    assert id in multiset(ids) && (k in ids <==> k in multiset(ids));
    OthersCount(ids, id, k);
    assert InitialNodeIds(ids, id) == Others(ids, id);
  }

  /** A zero entry for `id` and for each of `ids`. */
  ghost predicate ZeroFor(clock: Clock, ids: seq<Str>, id: Str) {
    && (forall k :: k in clock <==> k == id || k in ids)
    && forall k :: k in clock ==> clock[k] == 0
  }

  lemma ZeroStep(clock: Clock, ids: seq<Str>, id: Str, n: nat)
    requires n < |ids| && ZeroFor(clock, ids[..n], id)
    ensures ZeroFor(if ids[n] == id then clock else clock[ids[n] := 0], ids[..n + 1], id)
  {
    assert ids[..n + 1] == ids[..n] + [ids[n]];
  }

  /** The peer loop of the constructor: zero clocks for all, a slot for each of the others. */
  method FillPeers(id: Str, peerIds: seq<Str>) returns (ids: seq<Str>, clock: Clock)
    requires id in peerIds
    ensures ids == InitialNodeIds(peerIds, id)
    ensures clock == map k | k in peerIds :: 0
  {
    ids, clock := Blanks(|peerIds| - 1), map[id := 0];
    var index := 0;
    assert Others(peerIds[..0], id) == [] && ids == [] + Blanks(|peerIds| - 1);
    hide Others, Blanks;
    assert ZeroFor(clock, peerIds[..0], id);
    for n := 0 to |peerIds|
      invariant index == |Others(peerIds[..n], id)| < |peerIds|
      invariant ids == Others(peerIds[..n], id) + Blanks(|peerIds| - 1 - index)
      invariant ZeroFor(clock, peerIds[..n], id)
    {
      hide ZeroFor;
      OthersFront(peerIds, id, n);
      ZeroStep(clock, peerIds, id, n);
      if peerIds[n] != id {
        SlotFree(peerIds, id, n);
        FillSlot(Others(peerIds[..n], id), |peerIds| - 1 - index, peerIds[n]);
        clock := clock[peerIds[n] := 0];
        ids := ids[index := peerIds[n]];
        index := index + 1;
      }
    }
    assert peerIds[..|peerIds|] == peerIds;
  }

  lemma ReadyIsNotStale(vc: Clock, m: Message)
    requires Ready(vc, m)
    ensures m.uuid in vc && !Stale(vc, m)
  {
  }

  /** The clock once `id` is known; a node that is told of itself starts over. */
  function WithPeer(vc: Clock, self: Str, id: Str): Clock {
    if id in vc && id != self then vc else vc[id := 0]
  }

  function WithEntry(m: Message, id: Str): Message {
    if id in m.vectorClock then m else m.(vectorClock := m.vectorClock[id := 0])
  }

  function Announced(q: seq<Message>, id: Str): (r: seq<Message>)
    ensures |r| == |q| && forall n :: 0 <= n < |q| ==> r[n] == WithEntry(q[n], id)
  {
    seq(|q|, n requires 0 <= n < |q| => WithEntry(q[n], id))
  }

  /** An ack on its way: address, addressee, unicast payload. */
  datatype Ack = Ack(ip: Str, uuid: Str, payload: Str)

  function AckMessage(frame: U32): MessageCodec.Message {
    MessageCodec.Bare(MessageCodec.MULTICAST_ACK).(frame := frame)
  }

  function AckOf(msg: Message): Ack {
    Ack(msg.ip, msg.uuid, MessageCodec.Encoded(AckMessage(msg.frame)))
  }

  /** What becomes of a datagram. */
  datatype Reception = Skipped | Crashed | Taken(msg: Message, notice: MessageCodec.Message)

  function Reaction(self: Str, data: Str, ip: Str): Reception {
    match Decoded(data, ip)
    case Err => Crashed
    case Ok(msg) =>
      if msg.uuid == self then Skipped
      else
        match MessageCodec.Decoded(msg.message)
        case Err => Crashed
        case Ok(notice) => Taken(msg, notice)
  }

  /** Clock, queue and deliveries after a notice; only a new node matters to them. */
  function AfterNotice(self: Str, vc: Clock, q: seq<Message>, notice: MessageCodec.Message): Outcome {
    if notice.kind == MessageCodec.NEW_NODE then DeliverAll(WithPeer(vc, self, notice.uuid), Announced(q, notice.uuid))
    else Outcome(vc, q, [], [])
  }

  function NodesAfter(ids: seq<Str>, notice: MessageCodec.Message): seq<Str> {
    if notice.kind == MessageCodec.DEAD_NODE then MulticastAcks.RemoveFirst(ids, notice.uuid) else ids
  }

  function AcksAfter(p: MulticastAcks.Pending, notice: MessageCodec.Message): MulticastAcks.Pending {
    if notice.kind == MessageCodec.DEAD_NODE then MulticastAcks.AfterRemoval(p, notice.uuid) else p
  }

  class ReliableMulticast {
    const id: Str
    var frame: U32
    var vectorClock: Clock
    var holdBackQueue: seq<Message>
    var nodeIds: seq<Str>
    var bufferAck: MulticastAcks.Pending
    // What was handed to the channel of the application, oldest first.
    var msgChan: seq<Message>

    ghost predicate Valid()
      reads this
    {
      id in vectorClock
    }

    constructor (id: Str, peerIds: seq<Str>)
      requires id in peerIds
      ensures Valid() && this.id == id && frame == 0
      ensures vectorClock == map k | k in peerIds :: 0
      ensures nodeIds == InitialNodeIds(peerIds, id)
      ensures holdBackQueue == [] && bufferAck == map[] && msgChan == []
    {
      this.id := id;
      frame := 0;
      bufferAck := map[];
      holdBackQueue := [];
      msgChan := [];
      var ids, clock := FillPeers(id, peerIds);
      nodeIds, vectorClock := ids, clock;
    }

    // ---------------------------------------------------------------------
    // Delivery
    // ---------------------------------------------------------------------

    /** (can deliver, is duplicate); the clock is ranged over in any order. */
    method CanDeliver(msg: Message) returns (canDeliver: bool, isDuplicate: bool)
      ensures isDuplicate == Stale(vectorClock, msg)
      ensures canDeliver == Ready(vectorClock, msg)
    {
      var j := msg.uuid;
      if j !in vectorClock {
        return false, false;
      }
      var ij := vectorClock[j];
      if j !in msg.vectorClock {
        return false, false;
      }
      var jj := msg.vectorClock[j];
      if jj <= ij {
        return false, true;
      }
      if jj != Inc32(ij) {
        return false, false;
      }
      var left := vectorClock.Keys;
      while left != {}
        invariant left <= vectorClock.Keys
        invariant forall k :: k in vectorClock && k !in left && k != j ==>
                    k in msg.vectorClock && msg.vectorClock[k] <= vectorClock[k]
      {
        var k :| k in left;
        left := left - {k};
        if k == j {
          continue;
        }
        if k !in msg.vectorClock {
          return false, false;
        }
        if msg.vectorClock[k] > vectorClock[k] {
          return false, false;
        }
      }
      return true, false;
    }

    /** One scan of the queue: acts on the first message it can, removing it in place. */
    method ScanQueue() returns (delivered: bool)
      modifies `vectorClock, `holdBackQueue, `msgChan
      ensures var before, after := old(DeliverAll(vectorClock, holdBackQueue)), DeliverAll(vectorClock, holdBackQueue);
              && before.clock == after.clock && before.queue == after.queue
              && old(msgChan) + before.delivered == msgChan + after.delivered
              && (!delivered ==> after == Outcome(vectorClock, holdBackQueue, [], []))
      ensures if delivered then |holdBackQueue| < |old(holdBackQueue)| else holdBackQueue == old(holdBackQueue)
    {
      hide Stale, Ready, DeliverAll;
      for i := 0 to |holdBackQueue|
        invariant vectorClock == old(vectorClock) && holdBackQueue == old(holdBackQueue) && msgChan == old(msgChan)
        invariant forall h :: 0 <= h < i ==> !Actionable(vectorClock, holdBackQueue[h])
      {
        var msg := holdBackQueue[i];
        var canDeliver, isDuplicate := CanDeliver(msg);
        if isDuplicate {
          DeliverAllAt(vectorClock, holdBackQueue, i);
          holdBackQueue := holdBackQueue[..i] + holdBackQueue[i + 1..];
          return true;
        }
        if canDeliver {
          DeliverAllAt(vectorClock, holdBackQueue, i);
          ReadyIsNotStale(vectorClock, msg);
          msgChan := msgChan + [msg];
          vectorClock := vectorClock[msg.uuid := Inc32(vectorClock[msg.uuid])];
          holdBackQueue := holdBackQueue[..i] + holdBackQueue[i + 1..];
          return true;
        }
      }
      DeliverAllIdle(vectorClock, holdBackQueue);
      return false;
    }

    /** Rescans after every delivery or drop, until a scan changes nothing. */
    method DeliverMessages()
      modifies `vectorClock, `holdBackQueue, `msgChan
      ensures var o := old(DeliverAll(vectorClock, holdBackQueue));
              vectorClock == o.clock && holdBackQueue == o.queue && msgChan == old(msgChan) + o.delivered
    {
      hide DeliverAll;
      ghost var whole := DeliverAll(vectorClock, holdBackQueue);
      ghost var chan := msgChan;
      var delivered := true;
      while delivered
        invariant var o := DeliverAll(vectorClock, holdBackQueue);
                  && whole.clock == o.clock && whole.queue == o.queue && chan + whole.delivered == msgChan + o.delivered
                  && (!delivered ==> o == Outcome(vectorClock, holdBackQueue, [], []))
        decreases |holdBackQueue|, delivered
      {
        delivered := ScanQueue();
      }
    }

    // ---------------------------------------------------------------------
    // Sending and receiving
    // ---------------------------------------------------------------------

    /** Returns the datagram that is handed to the retry worker. */
    method SendMessage(data: Str) returns (encodedData: Str)
      requires Valid()
      modifies `frame, `vectorClock, `bufferAck
      ensures Valid()
      ensures vectorClock == old(Bump(vectorClock, id))
      ensures frame == Inc32(old(frame))
      ensures bufferAck == old(MulticastAcks.AfterSend(bufferAck, nodeIds, frame))
      ensures IsEncoding(encodedData, Message(old(frame), [], id, vectorClock, data))
    {
      hide IsEncoding;
      vectorClock := vectorClock[id := Inc32(vectorClock[id])];
      assert id in vectorClock;
      var clockCopy: Clock := map[];
      var left := vectorClock.Keys;
      while left != {}
        modifies {}
        invariant left <= vectorClock.Keys
        invariant clockCopy == map k | k in vectorClock.Keys - left :: vectorClock[k]
      {
        var uuid :| uuid in left;
        clockCopy := clockCopy[uuid := vectorClock[uuid]];
        left := left - {uuid};
      }
      assert clockCopy == vectorClock;
      encodedData := Encode(Message(frame, [], id, clockCopy, data));
      for i := 0 to |nodeIds|
        modifies `bufferAck
        invariant bufferAck == MulticastAcks.AfterSend(old(bufferAck), nodeIds[..i], frame)
      {
        bufferAck := bufferAck[frame := map[nodeIds[i] := false]];
        assert nodeIds[..i + 1][i] == nodeIds[i];
      }
      assert nodeIds[..|nodeIds|] == nodeIds;
      frame := Inc32(frame);
    }

    /** The locked part of one turn of the retry worker: is the frame done? */
    method RetryTurn(frame: U32) returns (done: bool)
      modifies `bufferAck
      ensures bufferAck == MulticastAcks.AfterRetry(old(bufferAck), frame)
      ensures done <==> forall id :: !MulticastAcks.Awaits(old(bufferAck), frame, id)
    {
      if frame in bufferAck && |bufferAck[frame]| > 0 {
        var id :| id in bufferAck[frame];
        assert MulticastAcks.Awaits(bufferAck, frame, id);
        return false;
      }
      bufferAck := bufferAck - {frame};
      return true;
    }

    method OnAck(uuid: Str, frame: U32)
      modifies `bufferAck
      ensures bufferAck == MulticastAcks.AfterAck(old(bufferAck), uuid, frame)
    {
      if frame in bufferAck && uuid in bufferAck[frame] {
        bufferAck := bufferAck[frame := bufferAck[frame] - {uuid}];
      } else if frame in bufferAck {
        assert bufferAck[frame] - {uuid} == bufferAck[frame];
      }
    }

    /** The first half of RemoveDeadNode: drop the first entry for `id`. */
    method RemoveFromNodeIds(id: Str)
      modifies `nodeIds
      ensures nodeIds == MulticastAcks.RemoveFirst(old(nodeIds), id)
    {
      for index := 0 to |nodeIds|
        invariant nodeIds == old(nodeIds) && forall n :: 0 <= n < index ==> nodeIds[n] != id
      {
        if nodeIds[index] == id {
          RemoveFirstAt(nodeIds, id, index);
          nodeIds := nodeIds[..index] + nodeIds[index + 1..];
          return;
        }
      }
      RemoveFirstAbsent(nodeIds, id);
    }

    method RemoveDeadNode(id: Str)
      modifies `nodeIds, `bufferAck
      ensures nodeIds == MulticastAcks.RemoveFirst(old(nodeIds), id)
      ensures bufferAck == MulticastAcks.AfterRemoval(old(bufferAck), id)
    {
      RemoveFromNodeIds(id);
      RemoveFromBufferAck(id);
    }

    /** The second half: nobody waits for `id` any more. */
    method RemoveFromBufferAck(id: Str)
      modifies `bufferAck
      ensures bufferAck == MulticastAcks.AfterRemoval(old(bufferAck), id)
    {
      var left := bufferAck.Keys;
      while left != {}
        invariant left <= bufferAck.Keys == old(bufferAck).Keys
        invariant forall f :: f in left ==> bufferAck[f] == old(bufferAck)[f]
        invariant forall f :: f in bufferAck && f !in left ==> bufferAck[f] == old(bufferAck)[f] - {id}
      {
        var f :| f in left;
        if id in bufferAck[f] {
          bufferAck := bufferAck[f := bufferAck[f] - {id}];
        } else {
          assert bufferAck[f] - {id} == bufferAck[f];
        }
        left := left - {f};
      }
    }

    /** Puts `id` at 0 into the stamps of the queue that lack it. */
    method AnnounceToQueue(id: Str)
      modifies `holdBackQueue
      ensures holdBackQueue == Announced(old(holdBackQueue), id)
    {
      for i := 0 to |holdBackQueue|
        invariant |holdBackQueue| == |old(holdBackQueue)|
        invariant forall h :: 0 <= h < i ==> holdBackQueue[h] == WithEntry(old(holdBackQueue)[h], id)
        invariant forall h :: i <= h < |holdBackQueue| ==> holdBackQueue[h] == old(holdBackQueue)[h]
      {
        var msg := holdBackQueue[i];
        if id !in msg.vectorClock {
          holdBackQueue := holdBackQueue[i := msg.(vectorClock := msg.vectorClock[id := 0])];
        }
      }
    }

    /** A peer that joins the session late; the own id is reset. */
    method AddNewNode(id: Str)
      modifies `vectorClock, `holdBackQueue, `msgChan
      ensures var o := old(DeliverAll(WithPeer(vectorClock, this.id, id), Announced(holdBackQueue, id)));
              vectorClock == o.clock && holdBackQueue == o.queue && msgChan == old(msgChan) + o.delivered
    {
      hide DeliverAll;
      if !(id in vectorClock && id != this.id) {
        vectorClock := vectorClock[id := 0];
      }
      AnnounceToQueue(id);
      DeliverMessages();
    }

    /** The notice in a message from another node, if it is one, takes effect; the message joins the queue. */
    method TakeIn(msg: Message, notice: MessageCodec.Message)
      modifies this
      ensures var o := old(AfterNotice(id, vectorClock, holdBackQueue, notice));
              vectorClock == o.clock && msgChan == old(msgChan) + o.delivered && holdBackQueue == o.queue + [msg]
      ensures nodeIds == NodesAfter(old(nodeIds), notice)
      ensures bufferAck == AcksAfter(old(bufferAck), notice)
      ensures frame == old(frame)
    {
      hide DeliverAll;
      if notice.kind == MessageCodec.NEW_NODE {
        AddNewNode(notice.uuid);
      }
      if notice.kind == MessageCodec.DEAD_NODE {
        RemoveDeadNode(notice.uuid);
      }
      holdBackQueue := holdBackQueue + [msg];
    }

    /**
     One datagram from the network: own messages are skipped, the others are acked and join the
     queue. A dead-node notice updates the ack table, a new-node notice the clocks. A datagram or a
     payload that does not decode crashes the node.
     */
    method OnDatagram(data: Str, ip: Str) returns (r: Reception, ack: Option<Ack>)
      modifies this
      ensures r == Reaction(id, Clip(data), ip)
      ensures ack == if r.Taken? then Some(AckOf(r.msg)) else None
      ensures r.Taken? ==>
        && (var o := old(AfterNotice(id, vectorClock, holdBackQueue, r.notice));
            vectorClock == o.clock && msgChan == old(msgChan) + o.delivered && holdBackQueue == o.queue + [r.msg])
        && nodeIds == NodesAfter(old(nodeIds), r.notice) && bufferAck == AcksAfter(old(bufferAck), r.notice)
      ensures !r.Taken? ==>
        && vectorClock == old(vectorClock) && msgChan == old(msgChan) && holdBackQueue == old(holdBackQueue)
        && nodeIds == old(nodeIds) && bufferAck == old(bufferAck)
      ensures frame == old(frame)
    {
      hide Decoded, MessageCodec.Decoded, MessageCodec.Encoded, AfterNotice, NodesAfter, AcksAfter;
      var decoded := Decode(Clip(data), ip);
      if decoded.Err? {
        return Crashed, None;
      }
      var msg := decoded.value;
      if msg.uuid == id {
        return Skipped, None;
      }
      var ackPayload := MessageCodec.Encode(AckMessage(msg.frame));
      var payload := MessageCodec.Decode(msg.message);
      if payload.Err? {
        return Crashed, None;
      }
      TakeIn(msg, payload.value);
      return Taken(msg, payload.value), Some(Ack(msg.ip, msg.uuid, ackPayload));
    }
  }

  /** A queued message that a newcomer would hold up for ever is due as before once it is announced. */
  lemma NewcomerHoldsNothingUp(vc: Clock, self: Str, id: Str, m: Message)
    requires id !in vc && m.uuid != id
    ensures Ready(WithPeer(vc, self, id), WithEntry(m, id)) <==>
      Ready(vc, m) && (id in m.vectorClock ==> m.vectorClock[id] == 0)
    ensures id !in m.vectorClock ==> !Ready(WithPeer(vc, self, id), m)
  {
    var vc', m' := WithPeer(vc, self, id), WithEntry(m, id);
    assert vc'[id] == 0 && id in m'.vectorClock;
    assert forall k :: k in vc ==> k in vc' && vc'[k] == vc[k];
    assert forall k :: k in vc ==> (k in m.vectorClock <==> k in m'.vectorClock);
  }

  lemma {:induction false} RemoveFirstAt(ids: seq<Str>, id: Str, index: nat)
    requires index < |ids| && ids[index] == id && forall n :: 0 <= n < index ==> ids[n] != id
    ensures MulticastAcks.RemoveFirst(ids, id) == ids[..index] + ids[index + 1..]
    decreases |ids|
  {
    if index == 0 {
    } else {
      var rest := ids[1..];
      RemoveFirstAt(rest, id, index - 1);
      assert ids[..index] == [ids[0]] + rest[..index - 1] && ids[index + 1..] == rest[index..];
    }
  }

  lemma {:induction false} RemoveFirstAbsent(ids: seq<Str>, id: Str)
    requires forall n :: 0 <= n < |ids| ==> ids[n] != id
    ensures MulticastAcks.RemoveFirst(ids, id) == ids
  {
    if ids == [] {
    } else {
      RemoveFirstAbsent(ids[1..], id);
      assert ids == [ids[0]] + ids[1..];
    }
  }

  // ---------------------------------------------------------------------
  // Whom the first send awaits
  // ---------------------------------------------------------------------

  lemma {:induction false} OthersJoined(a: seq<Str>, b: seq<Str>, id: Str)
    ensures Others(a + b, id) == Others(a, id) + Others(b, id)
    decreases |b|
  {
    if b == [] {
      assert a + b == a;
    } else {
      var front, last := b[..|b| - 1], b[|b| - 1];
      assert (a + b)[..|a + b| - 1] == a + front;
      OthersJoined(a, front, id);
    }
  }

  lemma OthersOne(x: Str, id: Str)
    ensures Others([x], id) == if x == id then [] else [x]
  {
    assert [x][..0] == [];
  }

  /** The others keep their order: whoever is listed last, or last but for the own id, comes last. */
  lemma LastOther(ids: seq<Str>, id: Str)
    requires |ids| >= 2 && ids[|ids| - 2] != id
    ensures var others := Others(ids, id);
            && others != []
            && others[|others| - 1] == if ids[|ids| - 1] != id then ids[|ids| - 1] else ids[|ids| - 2]
  {
    var n := |ids|;
    assert ids == ids[..n - 2] + ([ids[n - 2]] + [ids[n - 1]]);
    OthersJoined(ids[..n - 2], [ids[n - 2]] + [ids[n - 1]], id);
    OthersJoined([ids[n - 2]], [ids[n - 1]], id);
    OthersOne(ids[n - 2], id);
    OthersOne(ids[n - 1], id);
    hide Others;
  }

  lemma OnlyIdsListed(ids: seq<Str>, id: Str, k: Str)
    requires k in Others(ids, id)
    ensures k in ids && k != id
  {
    OthersCount(ids, id, k);
    hide Others;
    assert k in multiset(Others(ids, id));
    assert k in multiset(ids);
  }

  lemma {:induction false} CountOfDistinct(ids: seq<Str>, id: Str)
    requires id in ids && forall i, j :: 0 <= i < j < |ids| ==> ids[i] != ids[j]
    ensures multiset(ids)[id] == 1
  {
    var front, last := ids[..|ids| - 1], ids[|ids| - 1];
    assert ids == front + [last];
    if last == id {
      assert id !in front && id !in multiset(front);
    } else {
      CountOfDistinct(front, id);
    }
  }

  lemma LastIsOther(ids: seq<Str>, id: Str)
    requires ids != [] && ids[|ids| - 1] != id
    ensures var others := Others(ids, id);
            others != [] && others[|others| - 1] == ids[|ids| - 1]
  {
    assert ids == ids[..|ids| - 1] + [ids[|ids| - 1]];
    OthersJoined(ids[..|ids| - 1], [ids[|ids| - 1]], id);
    OthersOne(ids[|ids| - 1], id);
    hide Others;
  }

  lemma NoBlanks(ids: seq<Str>, id: Str)
    requires id in ids && multiset(ids)[id] == 1
    ensures InitialNodeIds(ids, id) == Others(ids, id)
  {
    OthersCount(ids, id, id);
    hide Others;
  }

  /** In a fresh session with distinct peers a send awaits exactly the last of the others. */
  lemma FirstSendAwaits(ids: seq<Str>, id: Str, frame: U32)
    requires id in ids && |ids| >= 2 && forall i, j :: 0 <= i < j < |ids| ==> ids[i] != ids[j]
    ensures var last := if ids[|ids| - 1] != id then ids[|ids| - 1] else ids[|ids| - 2];
            MulticastAcks.AfterSend(map[], InitialNodeIds(ids, id), frame) == map[frame := map[last := false]]
  {
    hide Others, InitialNodeIds;
    CountOfDistinct(ids, id);
    NoBlanks(ids, id);
    if ids[|ids| - 1] != id {
      LastIsOther(ids, id);
    } else {
      LastOther(ids, id);
    }
  }

  /** A session whose list has the own id twice awaits, with every send, a node that does not exist. */
  lemma DoubledIdAwaitsNobody(ids: seq<Str>, id: Str, frame: U32)
    requires id in ids && [] !in ids
    ensures MulticastAcks.Awaits(MulticastAcks.AfterSend(map[], InitialNodeIds(ids, id), frame), frame, [])
       <==> multiset(ids)[id] > 1
  {
    OthersCount(ids, id, id);
    var others, nodes := Others(ids, id), InitialNodeIds(ids, id);
    assert id in multiset(ids);
    if multiset(ids)[id] > 1 {
      assert nodes[|nodes| - 1] == [];
    } else {
      assert nodes == others;
      if others != [] {
        OnlyIdsListed(ids, id, others[|others| - 1]);
      }
    }
    hide Others;
  }

  // ---------------------------------------------------------------------
  // Acks
  // ---------------------------------------------------------------------

  /** The ack of a message names its frame; taken from `k`, it ends the wait for `k` there and nothing else. */
  lemma AckEndsWait(msg: Message, k: Str, p: MulticastAcks.Pending, f: U32, id: Str)
    ensures MessageCodec.Decoded(AckOf(msg).payload) == Ok(AckMessage(msg.frame))
    ensures var read := MessageCodec.Decoded(AckOf(msg).payload).value;
            && AckOf(msg).payload[0] == 10 && read.frame == msg.frame
            && (MulticastAcks.Awaits(MulticastAcks.AfterAck(p, k, read.frame), f, id)
                <==> MulticastAcks.Awaits(p, f, id) && !(f == msg.frame && id == k))
  {
    var ack := AckMessage(msg.frame);
    MessageCodec.RoundTrip(ack);
    MessageCodec.KindLayout(ack);
    hide MessageCodec.Encoded, MessageCodec.Decoded;
  }

  // ---------------------------------------------------------------------
  // Notices
  // ---------------------------------------------------------------------

  /**
   What a payload does besides being queued, told by its first byte: 6 removes the node it names
   from the list and from every pending set, 7 adds it to the clock, all others do nothing.
   */
  lemma NoticeEffects(self: Str, vc: Clock, q: seq<Message>, ids: seq<Str>, p: MulticastAcks.Pending, data: Str)
    requires MessageCodec.Decoded(data).Ok?
    ensures var notice := MessageCodec.Decoded(data).value;
            && data != []
            && (if data[0] == 6 then
                  && multiset(NodesAfter(ids, notice)) == multiset(ids) - multiset{notice.uuid}
                  && forall f, k :: MulticastAcks.Awaits(AcksAfter(p, notice), f, k)
                                    <==> MulticastAcks.Awaits(p, f, k) && k != notice.uuid
                else NodesAfter(ids, notice) == ids && AcksAfter(p, notice) == p)
            && (if data[0] == 7 then AfterNotice(self, vc, q, notice).clock.Keys == vc.Keys + {notice.uuid}
                else AfterNotice(self, vc, q, notice) == Outcome(vc, q, [], []))
  {
    KindRead(data);
    var notice := MessageCodec.Decoded(data).value;
    hide MessageCodec.Decoded, DeliverAll, Announced;
    MulticastAcks.RemoveFirstCounts(ids, notice.uuid);
    KeysKept(WithPeer(vc, self, notice.uuid), Announced(q, notice.uuid));
  }

  lemma KindRead(data: Str)
    requires MessageCodec.Decoded(data).Ok?
    ensures data != [] && MessageCodec.Decoded(data).value.kind == data[0]
  {
    hide MessageCodec.DecodedBlock, MessageCodec.DecodedMembers;
  }

  lemma KeysKept(vc: Clock, q: seq<Message>)
    ensures DeliverAll(vc, q).clock.Keys == vc.Keys
  {
    DeliverAllSettles(vc, q);
    AfterGrows(vc, DeliverAll(vc, q).delivered);
    hide DeliverAll, Legal;
  }

  /** A new-node notice is followed by a run of the delivery loop: what it held up and is due now is delivered. */
  lemma NewcomerSettles(self: Str, vc: Clock, q: seq<Message>, notice: MessageCodec.Message)
    requires notice.kind == 7
    ensures Settles(WithPeer(vc, self, notice.uuid), multiset(Announced(q, notice.uuid)),
                    AfterNotice(self, vc, q, notice))
  {
    DeliverAllSettles(WithPeer(vc, self, notice.uuid), Announced(q, notice.uuid));
    hide DeliverAll, Settles, Announced;
  }

  /** A notice of a node that is known already changes no clock; one that names the receiver resets its own entry. */
  lemma KnownNodes(vc: Clock, self: Str, id: Str)
    requires id in vc
    ensures id != self ==> WithPeer(vc, self, id) == vc
    ensures id == self ==> WithPeer(vc, self, id) == vc[self := 0]
  {
  }

  /** After such a reset the next message is a duplicate to everyone who has delivered one before. */
  lemma ResetSilencesSender(vc: Clock, self: Str, other: Clock, m: Message)
    requires m.uuid == self && m.vectorClock == Bump(WithPeer(vc, self, self), self)
    requires self in other && other[self] >= 1
    ensures Stale(other, m) && !Ready(other, m)
  {
  }

  /** The message that announces a newcomer is not delivered unless its own stamp has an entry for it. */
  lemma AnnouncementHeldUp(self: Str, vc: Clock, q: seq<Message>, m: Message, notice: MessageCodec.Message)
    requires notice.kind == 7 && notice.uuid !in m.vectorClock
    ensures var o := AfterNotice(self, vc, q, notice);
            m !in DeliverAll(o.clock, o.queue + [m]).delivered
  {
    var o := AfterNotice(self, vc, q, notice);
    KeysKept(WithPeer(vc, self, notice.uuid), Announced(q, notice.uuid));
    hide DeliverAll, Announced;
    IncompleteStampsWait(o.clock, o.queue + [m], m, notice.uuid);
  }
}
