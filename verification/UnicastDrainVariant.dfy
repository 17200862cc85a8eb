// A VARIANT, not what the repository does: the listener of server/unicast/unicast.go with a
// drain loop that advances the peer's counter with every buffered frame it hands up.
module UnicastDrainVariant {
  import opened Bytes
  import opened FrameKeys
  import opened UnicastFraming
  import opened ReliableUnicast
  import opened UnicastListener

  /** Hands up the buffered successors of what `id` has delivered. */
  function Drain(l: Listener, id: Str): Accepted
    decreases |l.msgBuf|
  {
    var next := Inc64(LastFrame(l.peerFrame, id));
    var key := Key(id, next);
    if key !in l.msgBuf then Accepted(l, [])
    else
      var r := Drain(Listener(l.peerFrame[id := next], l.msgBuf - {key}), id);
      Accepted(r.state, [l.msgBuf[key]] + r.handed)
  }

  /** The state with `m` in the buffer. */
  function Buffered(l: Listener, m: Message): Listener {
    l.(msgBuf := l.msgBuf[Key(m.fromUUID, m.frame) := m])
  }

  function Take(l: Listener, msg: Message): Accepted {
    var last := LastFrame(l.peerFrame, msg.fromUUID);
    if msg.frame > Inc64(last) then Accepted(Buffered(l, msg), [])
    else if msg.frame < Inc64(last) then Accepted(l, [])
    else
      var r := Drain(l.(peerFrame := l.peerFrame[msg.fromUUID := Inc64(last)]), msg.fromUUID);
      Accepted(r.state, [msg] + r.handed)
  }

  function TakeAll(msgs: seq<Message>): Accepted {
    if msgs == [] then Accepted(Listener(map[], map[]), [])
    else
      var before := TakeAll(msgs[..|msgs| - 1]);
      var r := Take(before.state, msgs[|msgs| - 1]);
      Accepted(r.state, before.handed + r.handed)
  }

  /** `f` is there from `id`: handed up already or in the buffer. */
  predicate Has(l: Listener, id: Str, f: nat) {
    1 <= f <= LastFrame(l.peerFrame, id) || Key(id, f) in l.msgBuf
  }

  /** The buffer is in order, without frames that would wrap. */
  ghost predicate Tidy(l: Listener) {
    && BufferOk(l)
    && (forall key :: key in l.msgBuf ==> l.msgBuf[key].frame <= MAX_FRAME)
    && forall id :: LastFrame(l.peerFrame, id) <= MAX_FRAME
  }

  /** The next frame of `id` is not waiting in the buffer. */
  predicate Drained(l: Listener, id: Str) { Key(id, LastFrame(l.peerFrame, id) + 1) !in l.msgBuf }

  /** `low` + 1 up to `high`. */
  function Range(low: nat, high: nat): (s: seq<nat>)
    requires low <= high
    ensures |s| == high - low
    decreases high - low
  {
    if low == high then [] else [low + 1] + Range(low + 1, high)
  }

  lemma UpToNext(n: nat)
    ensures UpTo(n + 1) == UpTo(n) + [n + 1]
  {
  }

  lemma {:induction false} RangeExtends(low: nat, high: nat)
    requires low <= high
    ensures UpTo(low) + Range(low, high) == UpTo(high)
    decreases high - low
  {
    if low == high {
    } else {
      RangeExtends(low + 1, high);
      UpToNext(low);
      Assoc(UpTo(low), [low + 1], Range(low + 1, high));
      hide UpTo;
    }
  }

  /** The frames that are there before and after; one more is frame `f` of `id`. */
  ghost predicate Gains(l: Listener, l': Listener, id: Str, f: nat) {
    forall x, k :: |x| == 36 ==> Has(l', x, k) == (Has(l, x, k) || (x == id && k == f))
  }

  ghost predicate Keeps(l: Listener, l': Listener) {
    forall x, k :: |x| == 36 ==> Has(l', x, k) == Has(l, x, k)
  }

  // ---------------------------------------------------------------------
  // The drain
  // ---------------------------------------------------------------------

  /** The state after the next frame of `id`, which leaves the buffer if it was there. */
  function Up(l: Listener, id: Str): Listener {
    var next := Inc64(LastFrame(l.peerFrame, id));
    Listener(l.peerFrame[id := next], l.msgBuf - {Key(id, next)})
  }

  lemma UpTidy(l: Listener, id: Str)
    requires Tidy(l) && |id| == 36 && LastFrame(l.peerFrame, id) < MAX_FRAME
    ensures Tidy(Up(l, id))
  {
    hide Key;
    var l' := Up(l, id);
    forall key | key in l'.msgBuf
      ensures LastFrame(l'.peerFrame, l'.msgBuf[key].fromUUID) < l'.msgBuf[key].frame
    {
      var m := l.msgBuf[key];
      assert key == Key(m.fromUUID, m.frame) && key != Key(id, LastFrame(l.peerFrame, id) + 1);
    }
    forall x
      ensures LastFrame(l'.peerFrame, x) <= MAX_FRAME
    {
      assert LastFrame(l.peerFrame, x) <= MAX_FRAME;
    }
  }

  lemma UpGains(l: Listener, id: Str)
    requires |id| == 36 && LastFrame(l.peerFrame, id) < MAX_FRAME
    ensures Gains(l, Up(l, id), id, LastFrame(l.peerFrame, id) + 1)
  {
    hide Key;
    var next, l' := LastFrame(l.peerFrame, id) + 1, Up(l, id);
    forall x, k: nat | |x| == 36
      ensures Has(l', x, k) == (Has(l, x, k) || (x == id && k == next))
    {
      KeyInjective(x, k, id, next);
    }
  }

  /** What a drain of `id` does: consecutive frames until one is missing, none lost, no other peer touched. */
  ghost predicate Drains(l: Listener, r: Accepted, id: Str) {
    && Tidy(r.state) && Drained(r.state, id) && Keeps(l, r.state)
    && LastFrame(l.peerFrame, id) <= LastFrame(r.state.peerFrame, id)
    && FramesFrom(r.handed, id) == Range(LastFrame(l.peerFrame, id), LastFrame(r.state.peerFrame, id))
    && forall x :: x != id ==>
         LastFrame(r.state.peerFrame, x) == LastFrame(l.peerFrame, x) && FramesFrom(r.handed, x) == []
  }

  lemma DrainsOneMore(l: Listener, m: Message, r: Accepted, id: Str)
    requires m.fromUUID == id && LastFrame(l.peerFrame, id) < MAX_FRAME && m.frame == LastFrame(l.peerFrame, id) + 1
    requires Drains(Up(l, id), r, id) && Keeps(l, Up(l, id))
    ensures Drains(l, Accepted(r.state, [m] + r.handed), id)
  {
    hide Tidy, Key, Drained, Has;
    forall x
      ensures FramesFrom([m] + r.handed, x) == (if x == id then [m.frame] else []) + FramesFrom(r.handed, x)
    {
      FramesOne(m, x);
      FramesConcat([m], r.handed, x);
    }
  }

  lemma DrainsNothing(l: Listener, id: Str)
    requires Tidy(l) && Drained(l, id)
    ensures Drains(l, Accepted(l, []), id)
  {
  }

  /** What lies in the buffer for the next frame of `id`. */
  lemma NextBuffered(l: Listener, id: Str)
    requires Tidy(l) && |id| == 36 && !Drained(l, id)
    ensures var key := Key(id, LastFrame(l.peerFrame, id) + 1);
            && LastFrame(l.peerFrame, id) < MAX_FRAME
            && l.msgBuf[key].fromUUID == id && l.msgBuf[key].frame == LastFrame(l.peerFrame, id) + 1
  {
    var m := l.msgBuf[Key(id, LastFrame(l.peerFrame, id) + 1)];
    KeyInjective(id, LastFrame(l.peerFrame, id) + 1, m.fromUUID, m.frame);
  }

  lemma {:induction false} DrainEffect(l: Listener, id: Str)
    requires Tidy(l) && |id| == 36
    ensures Drains(l, Drain(l, id), id)
    decreases |l.msgBuf|
  {
    hide Key, Drains, Keeps, Gains;
    var next := Inc64(LastFrame(l.peerFrame, id));
    if Key(id, next) in l.msgBuf {
      NextBuffered(l, id);
      UpTidy(l, id);
      UpGains(l, id);
      BufferedGainsNothing(l, Up(l, id), id, next);
      DrainEffect(Up(l, id), id);
      hide Tidy;
      DrainsOneMore(l, l.msgBuf[Key(id, next)], Drain(Up(l, id), id), id);
    } else {
      DrainsNothing(l, id);
    }
  }

  lemma BufferedGainsNothing(l: Listener, l': Listener, id: Str, f: nat)
    requires Gains(l, l', id, f) && Key(id, f) in l.msgBuf
    ensures Keeps(l, l')
  {
  }

  // ---------------------------------------------------------------------
  // Runs
  // ---------------------------------------------------------------------

  /** What holds after any arrivals. */
  ghost predicate Good(r: Accepted) {
    && Tidy(r.state)
    && forall id :: |id| == 36 ==> GoodFor(r, id)
  }

  ghost predicate GoodFor(r: Accepted, id: Str) {
    Drained(r.state, id) && FramesFrom(r.handed, id) == UpTo(LastFrame(r.state.peerFrame, id))
  }

  lemma TakeKeeps(before: Accepted, m: Message)
    requires Good(before) && Proper(m) && m.frame > 0
    ensures var r := Take(before.state, m);
            Good(Accepted(r.state, before.handed + r.handed)) && Gains(before.state, r.state, m.fromUUID, m.frame)
  {
    var l, r := before.state, Take(before.state, m);
    var last := LastFrame(l.peerFrame, m.fromUUID);
    assert GoodFor(before, m.fromUUID);
    if m.frame == Inc64(last) {
      HandOne(before, m);
    } else {
      assert before.handed + r.handed == before.handed;
      if m.frame > Inc64(last) {
        BufferOne(before, m);
      }
    }
  }

  lemma BufferGains(l: Listener, m: Message)
    requires |m.fromUUID| == 36
    ensures Gains(l, Buffered(l, m), m.fromUUID, m.frame)
  {
    hide Key;
    forall x, k: nat | |x| == 36
      ensures Has(Buffered(l, m), x, k) == (Has(l, x, k) || (x == m.fromUUID && k == m.frame))
    {
      KeyInjective(x, k, m.fromUUID, m.frame);
    }
  }

  lemma BufferTidy(l: Listener, m: Message)
    requires Tidy(l) && Proper(m) && m.frame > LastFrame(l.peerFrame, m.fromUUID)
    ensures Tidy(Buffered(l, m))
  {
    hide Key;
  }

  /** A frame further ahead leaves every next frame missing. */
  lemma StillDrained(l: Listener, m: Message, id: Str)
    requires |id| == |m.fromUUID| && Drained(l, id) && m.frame > LastFrame(l.peerFrame, m.fromUUID) + 1
    ensures Drained(Buffered(l, m), id)
  {
    KeyInjective(id, LastFrame(l.peerFrame, id) + 1, m.fromUUID, m.frame);
    hide Key;
  }

  lemma BufferOne(before: Accepted, m: Message)
    requires Good(before) && Proper(m) && m.frame > LastFrame(before.state.peerFrame, m.fromUUID) + 1
    ensures var l' := Buffered(before.state, m);
            Good(Accepted(l', before.handed)) && Gains(before.state, l', m.fromUUID, m.frame)
  {
    var l, l' := before.state, Buffered(before.state, m);
    BufferGains(l, m);
    BufferTidy(l, m);
    hide Key, Gains, Tidy, Drained, FramesFrom;
    forall id | |id| == 36
      ensures GoodFor(Accepted(l', before.handed), id)
    {
      assert GoodFor(before, id);
      StillDrained(l, m, id);
    }
  }

  /** The frame whose turn it is, and the drain behind it. */
  lemma TakeNext(l: Listener, m: Message)
    requires m.frame == Inc64(LastFrame(l.peerFrame, m.fromUUID)) && Drained(l, m.fromUUID)
    requires LastFrame(l.peerFrame, m.fromUUID) < MAX_FRAME
    ensures Up(l, m.fromUUID) == l.(peerFrame := l.peerFrame[m.fromUUID := m.frame])
    ensures var d := Drain(Up(l, m.fromUUID), m.fromUUID);
            Take(l, m) == Accepted(d.state, [m] + d.handed)
  {
    hide Key, Drain;
  }

  lemma HandOne(before: Accepted, m: Message)
    requires Good(before) && Proper(m) && m.frame == LastFrame(before.state.peerFrame, m.fromUUID) + 1
    ensures var r := Take(before.state, m);
            Good(Accepted(r.state, before.handed + r.handed)) && Gains(before.state, r.state, m.fromUUID, m.frame)
  {
    hide Key, Drain, Take, Up;
    var l, id := before.state, m.fromUUID;
    assert GoodFor(before, id);
    TakeNext(l, m);
    UpTidy(l, id);
    UpGains(l, id);
    DrainEffect(Up(l, id), id);
    var d := Drain(Up(l, id), id);
    hide GoodFor, Tidy, Has;
    forall x | |x| == 36
      ensures GoodFor(Accepted(d.state, before.handed + ([m] + d.handed)), x)
    {
      assert GoodFor(before, x);
      GoodForOneMore(before, m, Up(l, id), d, x);
    }
  }

  lemma FramesHanded(before: seq<Message>, m: Message, more: seq<Message>, x: Str)
    ensures FramesFrom(before + ([m] + more), x)
         == FramesFrom(before, x) + (if m.fromUUID == x then [m.frame] else []) + FramesFrom(more, x)
  {
    FramesConcat(before, [m] + more, x);
    FramesConcat([m], more, x);
    FramesOne(m, x);
  }

  lemma GoodForOneMore(before: Accepted, m: Message, l': Listener, d: Accepted, x: Str)
    requires |x| == 36 && GoodFor(before, x) && m.frame == LastFrame(before.state.peerFrame, m.fromUUID) + 1
    requires l' == before.state.(peerFrame := before.state.peerFrame[m.fromUUID := m.frame])
    requires Drains(l', d, m.fromUUID)
    ensures GoodFor(Accepted(d.state, before.handed + ([m] + d.handed)), x)
  {
    hide Tidy, Key, FramesFrom, Range, UpTo;
    FramesHanded(before.handed, m, d.handed, x);
    var n: nat := LastFrame(before.state.peerFrame, x);
    if x == m.fromUUID {
      UpToNext(n);
      RangeExtends(n + 1, LastFrame(d.state.peerFrame, x));
    } else {
      assert Has(d.state, x, n + 1) == Has(l', x, n + 1);
    }
  }

  /** Frame `f` from `id` is among the arrivals. */
  ghost predicate Arrived(msgs: seq<Message>, id: Str, f: nat) {
    exists m :: m in msgs && m.fromUUID == id && m.frame == f
  }

  lemma {:induction false} TakenAll(msgs: seq<Message>)
    requires forall m :: m in msgs ==> Proper(m) && m.frame > 0
    ensures Good(TakeAll(msgs))
    ensures forall id, f :: |id| == 36 ==> Has(TakeAll(msgs).state, id, f) == Arrived(msgs, id, f)
  {
    if msgs == [] {
    } else {
      var front, m := msgs[..|msgs| - 1], msgs[|msgs| - 1];
      assert msgs == front + [m];
      TakenAll(front);
      hide Good, Has, Take;
      TakeKeeps(TakeAll(front), m);
      forall id, f | |id| == 36
        ensures Arrived(msgs, id, f) <==> Arrived(front, id, f) || (id == m.fromUUID && f == m.frame)
      {
        ArrivedOneMore(front, m, id, f);
      }
    }
  }

  lemma ArrivedOneMore(front: seq<Message>, m: Message, id: Str, f: nat)
    ensures Arrived(front + [m], id, f) <==> Arrived(front, id, f) || (id == m.fromUUID && f == m.frame)
  {
    if id == m.fromUUID && f == m.frame {
      assert m in front + [m];
    }
    if Arrived(front, id, f) {
      var x :| x in front && x.fromUUID == id && x.frame == f;
      assert x in front + [m];
    }
  }

  /** With this drain every frame is handed up exactly once and in order. */
  lemma VariantExactlyOnce(msgs: seq<Message>, id: Str)
    requires |id| == 36 && forall m :: m in msgs ==> Proper(m) && m.frame > 0
    ensures FramesFrom(TakeAll(msgs).handed, id) == UpTo(LastFrame(TakeAll(msgs).state.peerFrame, id))
  {
    TakenAll(msgs);
  }

  /** With this drain the first k frames are handed up exactly when all of them arrived, in whatever order. */
  lemma VariantHandsUpWhatArrived(msgs: seq<Message>, id: Str, k: nat)
    requires |id| == 36 && forall m :: m in msgs ==> Proper(m) && m.frame > 0
    ensures LastFrame(TakeAll(msgs).state.peerFrame, id) >= k <==> forall f :: 1 <= f <= k ==> Arrived(msgs, id, f)
  {
    TakenAll(msgs);
    var l := TakeAll(msgs).state;
    hide TakeAll;
    var n := LastFrame(l.peerFrame, id);
    if n < k {
      assert !Has(l, id, n + 1);
      assert !Arrived(msgs, id, n + 1);
    } else {
      forall f | 1 <= f <= k
        ensures Arrived(msgs, id, f)
      {
        assert Has(l, id, f);
      }
    }
  }
}
