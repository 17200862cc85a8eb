// What the listener of server/unicast/unicast.go hands up, over every sequence of arrivals
// from any number of peers.
module UnicastListener {
  import opened Bytes
  import opened FrameKeys
  import opened UnicastFraming
  import opened ReliableUnicast

  // Frame numbers up to here do not wrap at the next one.
  const MAX_FRAME := TWO_64 - 2

  function AcceptAll(msgs: seq<Message>): Accepted {
    if msgs == [] then Accepted(Listener(map[], map[]), [])
    else
      var before := AcceptAll(msgs[..|msgs| - 1]);
      var r := Accept(before.state, msgs[|msgs| - 1]);
      Accepted(r.state, before.handed + r.handed)
  }

  /** Frame numbers, in order, of the messages from `id`. */
  function FramesFrom(msgs: seq<Message>, id: Str): seq<U64> {
    if msgs == [] then []
    else
      var m := msgs[|msgs| - 1];
      FramesFrom(msgs[..|msgs| - 1], id) + if m.fromUUID == id then [m.frame] else []
  }

  ghost predicate Proper(m: Message) { |m.fromUUID| == 36 && m.frame <= MAX_FRAME }

  // ---------------------------------------------------------------------
  // The buffer
  // ---------------------------------------------------------------------

  /** Every entry sits under its own key and is still ahead of what its sender has delivered. */
  ghost predicate BufferOk(l: Listener) {
    forall key :: key in l.msgBuf ==>
      var m := l.msgBuf[key];
      && |m.fromUUID| == 36 && key == Key(m.fromUUID, m.frame)
      && LastFrame(l.peerFrame, m.fromUUID) < m.frame
  }

  /** A frame that may be taken keeps the buffer in order exactly when the frame counter of its peer has room. */
  lemma AcceptKeepsBuffer(l: Listener, msg: Message)
    requires BufferOk(l) && |msg.fromUUID| == 36
    ensures BufferOk(Accept(l, msg).state) <==> LastFrame(l.peerFrame, msg.fromUUID) < TWO_64 - 1 || msg.frame == 0
  {
    var l' := Accept(l, msg).state;
    var id, last := msg.fromUUID, LastFrame(l.peerFrame, msg.fromUUID);
    if last == TWO_64 - 1 && msg.frame > 0 {
      assert l'.msgBuf[Key(id, msg.frame)] == msg;
    } else {
      forall key | key in l'.msgBuf
        ensures var m := l'.msgBuf[key];
                |m.fromUUID| == 36 && key == Key(m.fromUUID, m.frame) && LastFrame(l'.peerFrame, m.fromUUID) < m.frame
      {
        var m := l'.msgBuf[key];
        if key in l.msgBuf && m == l.msgBuf[key] {
          KeyInjective(id, msg.frame, m.fromUUID, m.frame);
        }
      }
    }
  }

  /** What one arrival means for one peer. */
  lemma AcceptEffect(l: Listener, msg: Message, id: Str)
    requires BufferOk(l) && Proper(msg) && LastFrame(l.peerFrame, msg.fromUUID) <= MAX_FRAME
    ensures var r := Accept(l, msg);
            var last := LastFrame(l.peerFrame, id);
            if msg.fromUUID == id && msg.frame == Inc64(last) then
              && Inc64(last) == last + 1
              && LastFrame(r.state.peerFrame, id) == msg.frame
              && (FramesFrom(r.handed, id) == [msg.frame] || FramesFrom(r.handed, id) == [msg.frame, msg.frame])
            else
              LastFrame(r.state.peerFrame, id) == last && FramesFrom(r.handed, id) == []
  {
    var r, key := Accept(l, msg), Key(msg.fromUUID, msg.frame);
    if r.handed == [msg] {
      FramesOne(msg, id);
    } else if r.handed != [] {
      var m := l.msgBuf[key];
      KeyInjective(msg.fromUUID, msg.frame, m.fromUUID, m.frame);
      FramesTwo(msg, m, id);
    }
  }

  lemma FramesOne(a: Message, id: Str)
    ensures FramesFrom([a], id) == if a.fromUUID == id then [a.frame] else []
  {
    assert [a][..0] == [];
  }

  lemma FramesTwo(a: Message, b: Message, id: Str)
    requires b.fromUUID == a.fromUUID
    ensures FramesFrom([a, b], id) == if a.fromUUID == id then [a.frame, b.frame] else []
  {
    assert [a, b][..1] == [a];
    FramesOne(a, id);
  }

  lemma {:induction false} FramesConcat(a: seq<Message>, b: seq<Message>, id: Str)
    ensures FramesFrom(a + b, id) == FramesFrom(a, id) + FramesFrom(b, id)
  {
    if b == [] {
      assert a + b == a;
    } else {
      assert (a + b)[..|a + b| - 1] == a + b[..|b| - 1];
      FramesConcat(a, b[..|b| - 1], id);
    }
  }

  // ---------------------------------------------------------------------
  // Order of hand-over
  // ---------------------------------------------------------------------

  function UpTo(n: nat): (s: seq<nat>)
    ensures |s| == n
  {
    if n == 0 then [] else UpTo(n - 1) + [n]
  }

  /** The numbers with immediate repeats removed. */
  function Collapse(fs: seq<nat>): seq<nat> {
    if |fs| < 2 then fs
    else if fs[|fs| - 1] == fs[|fs| - 2] then Collapse(fs[..|fs| - 1])
    else Collapse(fs[..|fs| - 1]) + [fs[|fs| - 1]]
  }

  ghost predicate AtMostTwice(fs: seq<nat>) { forall f :: multiset(fs)[f] <= 2 }

  /** 1 up to n, no gap, each number once or twice in a row. */
  ghost predicate Staircase(fs: seq<nat>, n: nat) {
    && Collapse(fs) == UpTo(n)
    && (fs != [] ==> fs[|fs| - 1] == n)
    && (forall f :: f in fs ==> 1 <= f <= n)
    && AtMostTwice(fs)
  }

  lemma CollapseNew(fs: seq<nat>, f: nat)
    requires fs != [] ==> fs[|fs| - 1] != f
    ensures Collapse(fs + [f]) == Collapse(fs) + [f]
  {
    assert (fs + [f])[..|fs|] == fs;
  }

  lemma CountOneMore(fs: seq<nat>, x: nat, f: nat)
    ensures multiset(fs + [x])[f] == multiset(fs)[f] + if f == x then 1 else 0
  {
  }

  lemma TwiceOneMore(fs: seq<nat>, x: nat)
    requires AtMostTwice(fs) && multiset(fs)[x] <= 1
    ensures AtMostTwice(fs + [x])
  {
    var more := fs + [x];
    forall f
      ensures multiset(more)[f] <= 2
    {
      CountOneMore(fs, x, f);
    }
  }

  lemma StairOnce(fs: seq<nat>, n: nat)
    requires Staircase(fs, n)
    ensures Staircase(fs + [n + 1], n + 1) && multiset(fs + [n + 1])[n + 1] == 1
  {
    assert n + 1 !in fs && multiset(fs)[n + 1] == 0;
    CollapseNew(fs, n + 1);
    TwiceOneMore(fs, n + 1);
    CountOneMore(fs, n + 1, n + 1);
    assert UpTo(n + 1) == UpTo(n) + [n + 1];
    hide Collapse, UpTo, AtMostTwice;
  }

  lemma StairTwice(fs: seq<nat>, n: nat)
    requires Staircase(fs, n) && fs != [] && multiset(fs)[n] == 1
    ensures Staircase(fs + [n], n)
  {
    assert (fs + [n])[..|fs|] == fs;
    assert fs[|fs| - 1] in fs;
    TwiceOneMore(fs, n);
    hide AtMostTwice;
  }

  /** The next number, once or twice. */
  lemma StairUp(fs: seq<nat>, n: nat, more: seq<nat>)
    requires Staircase(fs, n) && (more == [n + 1] || more == [n + 1, n + 1])
    ensures Staircase(fs + more, n + 1)
  {
    hide Staircase;
    StairOnce(fs, n);
    if |more| == 2 {
      StairTwice(fs + [n + 1], n + 1);
      assert fs + more == fs + [n + 1] + [n + 1];
    }
  }

  /** What one arrival keeps. */
  ghost predicate InOrder(r: Accepted, id: Str) {
    && BufferOk(r.state) && LastFrame(r.state.peerFrame, id) <= MAX_FRAME
    && Staircase(FramesFrom(r.handed, id), LastFrame(r.state.peerFrame, id))
  }

  lemma InOrderStep(before: Accepted, m: Message, id: Str)
    requires Proper(m) && InOrder(before, id) && InOrder(before, m.fromUUID)
    ensures var r := Accept(before.state, m);
            InOrder(Accepted(r.state, before.handed + r.handed), id)
  {
    hide Staircase, BufferOk, Accept, FramesFrom;
    var r := Accept(before.state, m);
    AcceptKeepsBuffer(before.state, m);
    AcceptEffect(before.state, m, id);
    FramesConcat(before.handed, r.handed, id);
    var fs, more := FramesFrom(before.handed, id), FramesFrom(r.handed, id);
    if more == [] {
      assert fs + more == fs;
    } else {
      StairUp(fs, LastFrame(before.state.peerFrame, id), more);
    }
  }

  /** The frames handed up from any peer, immediate repeats collapsed, are 1 to the peer's counter. */
  lemma {:induction false} HandedInOrder(msgs: seq<Message>, id: Str)
    requires forall m :: m in msgs ==> Proper(m)
    ensures InOrder(AcceptAll(msgs), id)
  {
    if msgs == [] {
    } else {
      var front, m := msgs[..|msgs| - 1], msgs[|msgs| - 1];
      assert m in msgs;
      HandedInOrder(front, id);
      HandedInOrder(front, m.fromUUID);
      hide InOrder;
      InOrderStep(AcceptAll(front), m, id);
    }
  }

  /** Nothing is made up: what is handed up or buffered has arrived. */
  lemma {:induction false} HandedArrived(msgs: seq<Message>)
    ensures var r := AcceptAll(msgs);
            && (forall m :: m in r.handed ==> m in msgs)
            && (forall key :: key in r.state.msgBuf ==> r.state.msgBuf[key] in msgs)
  {
    if msgs == [] {
    } else {
      var front, m := msgs[..|msgs| - 1], msgs[|msgs| - 1];
      HandedArrived(front);
      assert m in msgs && forall x :: x in front ==> x in msgs;
      var before := AcceptAll(front);
      var r := Accept(before.state, m);
      forall x | x in r.handed
        ensures x in msgs
      {
        assert x == m || x in before.state.msgBuf.Values;
      }
    }
  }

  // ---------------------------------------------------------------------
  // How far a peer gets
  // ---------------------------------------------------------------------

  /** `a` can be read in `b` by skipping elements. */
  predicate Subsequence(a: seq<nat>, b: seq<nat>) {
    if a == [] then true
    else if b == [] then false
    else if a[|a| - 1] == b[|b| - 1] then Subsequence(a[..|a| - 1], b[..|b| - 1])
    else Subsequence(a, b[..|b| - 1])
  }

  /** How a counter moves that only takes its next number. */
  function Advance(fs: seq<U64>): nat {
    if fs == [] then 0
    else
      var before := Advance(fs[..|fs| - 1]);
      if fs[|fs| - 1] == before + 1 then before + 1 else before
  }

  lemma {:induction false} AdvanceIsSubsequence(fs: seq<U64>, k: nat)
    ensures Advance(fs) >= k <==> Subsequence(UpTo(k), fs)
    decreases |fs|
  {
    if fs == [] {
    } else {
      var front := fs[..|fs| - 1];
      AdvanceIsSubsequence(front, k);
      if k > 0 {
        AdvanceIsSubsequence(front, k - 1);
        assert UpTo(k)[..k - 1] == UpTo(k - 1);
      }
    }
  }

  lemma {:induction false} CounterAdvances(msgs: seq<Message>, id: Str)
    requires forall m :: m in msgs ==> Proper(m)
    ensures LastFrame(AcceptAll(msgs).state.peerFrame, id) == Advance(FramesFrom(msgs, id))
  {
    if msgs == [] {
    } else {
      var front, m := msgs[..|msgs| - 1], msgs[|msgs| - 1];
      assert m in msgs;
      CounterAdvances(front, id);
      HandedInOrder(front, m.fromUUID);
      AcceptEffect(AcceptAll(front).state, m, id);
      hide BufferOk, Staircase, Accept, LastFrame, Advance;
      var fs := FramesFrom(front, id);
      if m.fromUUID == id {
        AdvanceStep(fs, m.frame);
      } else {
        assert FramesFrom(msgs, id) == fs;
      }
    }
  }

  lemma AdvanceStep(fs: seq<U64>, f: U64)
    ensures Advance(fs + [f]) == if f == Advance(fs) + 1 then f else Advance(fs)
  {
    assert (fs + [f])[..|fs|] == fs;
  }

  /**
   The first k frames of a peer are handed up exactly when 1, 2, ..., k arrived in this order,
   other arrivals between them: frames that came too early and were buffered do not count.
   */
  lemma HandedUpExactly(msgs: seq<Message>, id: Str, k: nat)
    requires forall m :: m in msgs ==> Proper(m)
    ensures LastFrame(AcceptAll(msgs).state.peerFrame, id) >= k <==> Subsequence(UpTo(k), FramesFrom(msgs, id))
  {
    CounterAdvances(msgs, id);
    AdvanceIsSubsequence(FramesFrom(msgs, id), k);
  }

  /** Two frames that arrive swapped: the second is acked and buffered, but not handed up. */
  lemma SwappedPairStalls(a: Message, b: Message)
    requires a.fromUUID == b.fromUUID && |a.fromUUID| == 36 && a.frame == 1 && b.frame == 2
    ensures AcceptAll([b, a]).handed == [a]
    ensures AcceptAll([b, a]).state.msgBuf == map[Key(b.fromUUID, 2) := b]
  {
    assert [b, a][..1] == [b] && [b][..0] == [];
    KeyInjective(a.fromUUID, 1, b.fromUUID, 2);
    var l := Listener(map[], map[]);
    assert AcceptAll([b, a][..1]) == Accept(l, b) by {
      assert AcceptAll([]) == Accepted(l, []);
    }
    assert Accept(l, b) == Accepted(Listener(map[b.fromUUID := 0], map[Key(b.fromUUID, 2) := b]), []);
  }

  // ---------------------------------------------------------------------
  // Which frames are handed up twice
  // ---------------------------------------------------------------------

  /** A copy of frame `f` came in before 1, 2, ..., f - 1 had arrived in this order. */
  predicate CameEarly(fs: seq<U64>, f: nat) {
    f >= 1 && exists p :: 0 <= p < |fs| && fs[p] == f && !Subsequence(UpTo(f - 1), fs[..p])
  }

  /** 1 up to n, twice where a copy came early. */
  function Copies(fs: seq<U64>, n: nat): seq<nat> {
    if n == 0 then [] else Copies(fs, n - 1) + if CameEarly(fs, n) then [n, n] else [n]
  }

  /** One more arrival makes a frame early if it is that frame and not the next one or an old one. */
  lemma EarlyStep(fs: seq<U64>, g: U64, f: nat)
    requires f >= 1
    ensures CameEarly(fs + [g], f) <==> CameEarly(fs, f) || (g == f && Advance(fs) + 1 < f)
  {
    var more := fs + [g];
    AdvanceIsSubsequence(fs, f - 1);
    hide Subsequence, Advance;
    assert more[..|fs|] == fs && more[|fs|] == g;
    forall p | 0 <= p < |fs|
      ensures more[p] == fs[p] && more[..p] == fs[..p]
    {
    }
  }

  lemma {:induction false} CopiesKept(fs: seq<U64>, g: U64, n: nat)
    requires n <= Advance(fs) + 1
    ensures Copies(fs + [g], n) == Copies(fs, n)
  {
    hide CameEarly;
    if n == 0 {
    } else {
      EarlyStep(fs, g, n);
      CopiesKept(fs, g, n - 1);
    }
  }

  /** Beyond the counter of a peer the buffer holds exactly the frames of which a copy came early. */
  ghost predicate BuffersEarly(l: Listener, id: Str, fs: seq<U64>) {
    forall f: nat :: f > LastFrame(l.peerFrame, id) ==> (Key(id, f) in l.msgBuf <==> CameEarly(fs, f))
  }

  /** What one arrival does to the buffer, seen from one peer. */
  lemma AcceptBuffers(l: Listener, msg: Message, id: Str, f: nat)
    requires Proper(msg) && |id| == 36
    requires LastFrame(l.peerFrame, msg.fromUUID) <= MAX_FRAME
    requires f > LastFrame(Accept(l, msg).state.peerFrame, id)
    ensures Key(id, f) in Accept(l, msg).state.msgBuf <==>
      Key(id, f) in l.msgBuf || (msg.fromUUID == id && msg.frame == f && f > LastFrame(l.peerFrame, id) + 1)
  {
    hide Key;
    KeyInjective(id, f, msg.fromUUID, msg.frame);
  }

  /** The frames one arrival hands up: two copies if one was waiting. */
  lemma AcceptCopies(l: Listener, msg: Message)
    requires BufferOk(l) && Proper(msg) && msg.frame == LastFrame(l.peerFrame, msg.fromUUID) + 1
    ensures FramesFrom(Accept(l, msg).handed, msg.fromUUID)
         == if Key(msg.fromUUID, msg.frame) in l.msgBuf then [msg.frame, msg.frame] else [msg.frame]
  {
    hide FramesFrom;
    var key := Key(msg.fromUUID, msg.frame);
    FramesOne(msg, msg.fromUUID);
    if key in l.msgBuf {
      var m := l.msgBuf[key];
      KeyInjective(msg.fromUUID, msg.frame, m.fromUUID, m.frame);
      FramesTwo(msg, m, msg.fromUUID);
    }
  }

  /** What the arrivals of a peer say about its counter, its buffered frames and what was handed up. */
  ghost predicate Copied(r: Accepted, id: Str, fs: seq<U64>) {
    && LastFrame(r.state.peerFrame, id) == Advance(fs)
    && BuffersEarly(r.state, id, fs)
    && FramesFrom(r.handed, id) == Copies(fs, Advance(fs))
  }

  /** An arrival from another peer. */
  lemma CopiedOther(before: Accepted, m: Message, id: Str, fs: seq<U64>)
    requires Proper(m) && |id| == 36 && m.fromUUID != id && BufferOk(before.state)
    requires LastFrame(before.state.peerFrame, m.fromUUID) <= MAX_FRAME
    requires Copied(before, id, fs)
    ensures var r := Accept(before.state, m);
            Copied(Accepted(r.state, before.handed + r.handed), id, fs)
  {
    var l, r := before.state, Accept(before.state, m);
    AcceptEffect(l, m, id);
    FramesConcat(before.handed, r.handed, id);
    assert FramesFrom(before.handed, id) + [] == FramesFrom(before.handed, id);
    hide Accept, Key, CameEarly, Advance, Copies, FramesFrom, BufferOk;
    forall f: nat | f > LastFrame(r.state.peerFrame, id)
      ensures Key(id, f) in r.state.msgBuf <==> CameEarly(fs, f)
    {
      AcceptBuffers(l, m, id, f);
    }
  }

  /** The copies up to the next frame, once it is there. */
  lemma CopiesUp(fs: seq<U64>, g: U64)
    requires g == Advance(fs) + 1
    ensures Copies(fs + [g], g) == Copies(fs, g - 1) + if CameEarly(fs, g) then [g, g] else [g]
  {
    CopiesKept(fs, g, g - 1);
    EarlyStep(fs, g, g);
    hide CameEarly, Advance;
  }

  lemma NothingHanded(l: Listener, m: Message)
    requires m.frame != Inc64(LastFrame(l.peerFrame, m.fromUUID))
    ensures FramesFrom(Accept(l, m).handed, m.fromUUID) == []
  {
    hide Key;
  }

  lemma CopiesNext(l: Listener, m: Message, fs: seq<U64>)
    requires BufferOk(l) && Proper(m) && m.frame == LastFrame(l.peerFrame, m.fromUUID) + 1 == Advance(fs) + 1
    requires Key(m.fromUUID, m.frame) in l.msgBuf <==> CameEarly(fs, m.frame)
    ensures Copies(fs, Advance(fs)) + FramesFrom(Accept(l, m).handed, m.fromUUID) == Copies(fs + [m.frame], m.frame)
  {
    hide Key, FramesFrom, CameEarly, Advance, BufferOk, Copies, Accept;
    AcceptCopies(l, m);
    CopiesUp(fs, m.frame);
  }

  lemma CopiesOld(l: Listener, m: Message, fs: seq<U64>)
    requires m.frame != Inc64(LastFrame(l.peerFrame, m.fromUUID))
    ensures Copies(fs, Advance(fs)) + FramesFrom(Accept(l, m).handed, m.fromUUID)
         == Copies(fs + [m.frame], Advance(fs))
  {
    hide Key, FramesFrom, CameEarly, Advance, Copies, Accept;
    NothingHanded(l, m);
    CopiesKept(fs, m.frame, Advance(fs));
  }

  lemma CopiesHanded(before: Accepted, m: Message, id: Str, fs: seq<U64>)
    requires Proper(m) && m.fromUUID == id && BufferOk(before.state)
    requires LastFrame(before.state.peerFrame, id) <= MAX_FRAME
    requires Copied(before, id, fs)
    ensures FramesFrom(before.handed + Accept(before.state, m).handed, id)
         == Copies(fs + [m.frame], Advance(fs + [m.frame]))
  {
    hide Key, FramesFrom, CameEarly, Advance, BufferOk, Copies, Accept;
    AdvanceStep(fs, m.frame);
    FramesConcat(before.handed, Accept(before.state, m).handed, id);
    if m.frame == Advance(fs) + 1 {
      assert Key(id, m.frame) in before.state.msgBuf <==> CameEarly(fs, m.frame);
      CopiesNext(before.state, m, fs);
    } else {
      CopiesOld(before.state, m, fs);
    }
  }

  lemma EarlyHeld(l: Listener, m: Message, id: Str, fs: seq<U64>)
    requires Proper(m) && m.fromUUID == id && BufferOk(l) && BuffersEarly(l, id, fs)
    requires LastFrame(l.peerFrame, id) == Advance(fs) <= MAX_FRAME
    ensures BuffersEarly(Accept(l, m).state, id, fs + [m.frame])
  {
    AcceptEffect(l, m, id);
    hide Accept, Key, CameEarly, Advance, FramesFrom, BufferOk;
    var l' := Accept(l, m).state;
    forall f: nat | f > LastFrame(l'.peerFrame, id)
      ensures Key(id, f) in l'.msgBuf <==> CameEarly(fs + [m.frame], f)
    {
      AcceptBuffers(l, m, id, f);
      EarlyStep(fs, m.frame, f);
    }
  }

  /** An arrival from the peer itself. */
  lemma CopiedOwn(before: Accepted, m: Message, id: Str, fs: seq<U64>)
    requires Proper(m) && m.fromUUID == id && BufferOk(before.state)
    requires LastFrame(before.state.peerFrame, id) <= MAX_FRAME
    requires Copied(before, id, fs)
    ensures var r := Accept(before.state, m);
            Copied(Accepted(r.state, before.handed + r.handed), id, fs + [m.frame])
  {
    hide Accept, Advance, FramesFrom, BufferOk, Copies, BuffersEarly;
    CopiesHanded(before, m, id, fs);
    EarlyHeld(before.state, m, id, fs);
    AcceptEffect(before.state, m, id);
    AdvanceStep(fs, m.frame);
  }

  lemma {:induction false} AllCopied(msgs: seq<Message>, id: Str)
    requires |id| == 36 && forall m :: m in msgs ==> Proper(m)
    ensures Copied(AcceptAll(msgs), id, FramesFrom(msgs, id))
  {
    if msgs == [] {
      assert Copies([], 0) == [];
    } else {
      var front, m := msgs[..|msgs| - 1], msgs[|msgs| - 1];
      assert m in msgs;
      AllCopied(front, id);
      HandedInOrder(front, m.fromUUID);
      hide Copied, BufferOk, Staircase, Accept;
      if m.fromUUID == id {
        CopiedOwn(AcceptAll(front), m, id, FramesFrom(front, id));
      } else {
        CopiedOther(AcceptAll(front), m, id, FramesFrom(front, id));
        assert FramesFrom(front, id) + [] == FramesFrom(front, id);
      }
    }
  }

  /**
   The frames handed up from a peer, one by one: 1 up to the counter, a frame twice exactly when
   a copy of it came in before its predecessors had arrived in order.
   */
  lemma HandedExactly(msgs: seq<Message>, id: Str)
    requires |id| == 36 && forall m :: m in msgs ==> Proper(m)
    ensures FramesFrom(AcceptAll(msgs).handed, id)
         == Copies(FramesFrom(msgs, id), LastFrame(AcceptAll(msgs).state.peerFrame, id))
  {
    AllCopied(msgs, id);
  }

  lemma {:induction false} CopiesOnce(fs: seq<U64>, n: nat)
    ensures |Copies(fs, n)| >= n
    ensures |Copies(fs, n)| == n <==> forall f :: 1 <= f <= n ==> !CameEarly(fs, f)
    ensures |Copies(fs, n)| == n ==> Copies(fs, n) == UpTo(n)
  {
    hide CameEarly;
    if n == 0 {
    } else {
      CopiesOnce(fs, n - 1);
    }
  }

  /** Every frame is handed up once and only once exactly when none that was handed up ever came early. */
  lemma HandedOnceIff(msgs: seq<Message>, id: Str)
    requires |id| == 36 && forall m :: m in msgs ==> Proper(m)
    ensures var n := LastFrame(AcceptAll(msgs).state.peerFrame, id);
            (forall f :: 1 <= f <= n ==> !CameEarly(FramesFrom(msgs, id), f))
            <==> FramesFrom(AcceptAll(msgs).handed, id) == UpTo(n)
  {
    HandedExactly(msgs, id);
    CopiesOnce(FramesFrom(msgs, id), LastFrame(AcceptAll(msgs).state.peerFrame, id));
  }

  lemma SwappedPairCounter(a: Message, b: Message)
    requires a.fromUUID == b.fromUUID && |a.fromUUID| == 36 && a.frame == 1 && b.frame == 2
    ensures LastFrame(AcceptAll([b, a]).state.peerFrame, a.fromUUID) == 1
  {
    assert [b, a][..1] == [b] && [b][..0] == [];
    assert AcceptAll([b, a][..1]) == Accept(Listener(map[], map[]), b) by {
      assert AcceptAll([]) == Accepted(Listener(map[], map[]), []);
    }
    hide Key;
  }

  /** A frame whose turn it is goes up together with its buffered copy. */
  lemma BothCopies(l: Listener, m: Message, waiting: Message)
    requires m.frame == Inc64(LastFrame(l.peerFrame, m.fromUUID))
    requires Key(m.fromUUID, m.frame) in l.msgBuf && l.msgBuf[Key(m.fromUUID, m.frame)] == waiting
    ensures Accept(l, m).handed == [m, waiting]
  {
    hide Key;
  }

  lemma FramesThree(a: Message, b: Message, c: Message)
    requires a.fromUUID == b.fromUUID == c.fromUUID
    ensures FramesFrom([a, b, c], a.fromUUID) == [a.frame, b.frame, c.frame]
  {
    FramesOne(a, a.fromUUID);
    FramesTwo(b, c, a.fromUUID);
    hide FramesFrom;
    assert [a, b, c] == [a] + [b, c];
    FramesConcat([a], [b, c], a.fromUUID);
  }

  /** The last arrival of a run. */
  lemma LastArrival(msgs: seq<Message>, m: Message)
    ensures var before := AcceptAll(msgs);
            AcceptAll(msgs + [m]).handed == before.handed + Accept(before.state, m).handed
  {
    assert (msgs + [m])[..|msgs|] == msgs;
    hide Accept;
  }

  /** Arrivals 2, 1, 2: both copies of frame 2 are handed up. */
  lemma SecondCopyHandedUp(a: Message, b: Message, b': Message)
    requires a.fromUUID == b.fromUUID == b'.fromUUID && |a.fromUUID| == 36
    requires a.frame == 1 && b.frame == b'.frame == 2
    ensures AcceptAll([b, a, b']).handed == [a, b', b]
    ensures FramesFrom(AcceptAll([b, a, b']).handed, a.fromUUID) == [1, 2, 2]
  {
    hide Key, FramesFrom, Accept, AcceptAll;
    SwappedPairStalls(a, b);
    SwappedPairCounter(a, b);
    BothCopies(AcceptAll([b, a]).state, b', b);
    LastArrival([b, a], b');
    assert [b, a] + [b'] == [b, a, b'];
    FramesThree(a, b', b);
  }

  // ---------------------------------------------------------------------
  // Which copies are handed up
  // ---------------------------------------------------------------------

  /** Does frame `f` of `id` occur, and which copy came last? */
  function LastCopy(msgs: seq<Message>, id: Str, f: nat): Option<Message> {
    if msgs == [] then None
    else
      var m := msgs[|msgs| - 1];
      if m.fromUUID == id && m.frame == f then Some(m) else LastCopy(msgs[..|msgs| - 1], id, f)
  }

  lemma LastCopyStep(front: seq<Message>, m: Message, id: Str, f: nat)
    ensures LastCopy(front + [m], id, f) == if m.fromUUID == id && m.frame == f then Some(m) else LastCopy(front, id, f)
  {
    assert (front + [m])[..|front|] == front;
  }

  /** Beyond the counter of its peer, the copy of a frame that waits is the one that came last. */
  ghost predicate HoldsLast(l: Listener, msgs: seq<Message>) {
    forall id, f: nat :: |id| == 36 && f > LastFrame(l.peerFrame, id) && Key(id, f) in l.msgBuf ==>
      LastCopy(msgs, id, f) == Some(l.msgBuf[Key(id, f)])
  }

  /** One arrival replaces the waiting copy of its own frame and of no other. */
  lemma HoldsLastStep(l: Listener, msgs: seq<Message>, m: Message)
    requires HoldsLast(l, msgs) && Proper(m) && LastFrame(l.peerFrame, m.fromUUID) <= MAX_FRAME
    ensures HoldsLast(Accept(l, m).state, msgs + [m])
  {
    var l' := Accept(l, m).state;
    hide Key;
    forall id, f: nat | |id| == 36 && f > LastFrame(l'.peerFrame, id) && Key(id, f) in l'.msgBuf
      ensures LastCopy(msgs + [m], id, f) == Some(l'.msgBuf[Key(id, f)])
    {
      KeyInjective(id, f, m.fromUUID, m.frame);
      LastCopyStep(msgs, m, id, f);
      hide LastCopy;
    }
  }

  lemma {:induction false} HeldIsLast(msgs: seq<Message>)
    requires forall m :: m in msgs ==> Proper(m)
    ensures HoldsLast(AcceptAll(msgs).state, msgs)
  {
    if msgs == [] {
    } else {
      var front, m := msgs[..|msgs| - 1], msgs[|msgs| - 1];
      assert m in msgs && msgs == front + [m];
      HeldIsLast(front);
      HandedInOrder(front, m.fromUUID);
      hide HoldsLast, Accept, Staircase, BufferOk;
      HoldsLastStep(AcceptAll(front).state, front, m);
    }
  }

  /** What waits in the buffer for a frame ahead is the copy that came last. */
  lemma WaitingCopyIsLast(msgs: seq<Message>, id: Str, f: nat)
    requires |id| == 36 && forall m :: m in msgs ==> Proper(m)
    requires f > LastFrame(AcceptAll(msgs).state.peerFrame, id) && Key(id, f) in AcceptAll(msgs).state.msgBuf
    ensures LastCopy(msgs, id, f) == Some(AcceptAll(msgs).state.msgBuf[Key(id, f)])
  {
    HeldIsLast(msgs);
  }

  /**
   What an arrival releases, from the arrivals before it alone: itself if it is its peer's next
   frame, followed by the last of the copies that came before it, if any came.
   */
  function Released(before: seq<Message>, m: Message): seq<Message> {
    if m.frame != Advance(FramesFrom(before, m.fromUUID)) + 1 then []
    else
      match LastCopy(before, m.fromUUID, m.frame)
      case Some(copy) => [m, copy]
      case None => [m]
  }

  function AllReleased(msgs: seq<Message>): seq<Message> {
    if msgs == [] then []
    else AllReleased(msgs[..|msgs| - 1]) + Released(msgs[..|msgs| - 1], msgs[|msgs| - 1])
  }

  /** Before its turn every copy of a frame came early. */
  lemma {:induction false} CopyIsEarly(msgs: seq<Message>, id: Str, f: nat)
    requires f > Advance(FramesFrom(msgs, id))
    ensures LastCopy(msgs, id, f).Some? <==> CameEarly(FramesFrom(msgs, id), f)
  {
    if msgs == [] {
    } else {
      var front, m := msgs[..|msgs| - 1], msgs[|msgs| - 1];
      var fs := FramesFrom(front, id);
      hide Advance, CameEarly;
      if m.fromUUID == id {
        AdvanceStep(fs, m.frame);
        EarlyStep(fs, m.frame, f);
      } else {
        assert fs + [] == fs;
      }
      CopyIsEarly(front, id, f);
    }
  }

  /** What is handed up, given what waits for the frame. */
  lemma AcceptHands(l: Listener, m: Message, waiting: Option<Message>)
    requires LastFrame(l.peerFrame, m.fromUUID) <= MAX_FRAME
    requires m.frame == LastFrame(l.peerFrame, m.fromUUID) + 1 ==>
               waiting == if Key(m.fromUUID, m.frame) in l.msgBuf then Some(l.msgBuf[Key(m.fromUUID, m.frame)])
                          else None
    ensures Accept(l, m).handed ==
      if m.frame != LastFrame(l.peerFrame, m.fromUUID) + 1 then []
      else
        match waiting
        case Some(copy) => [m, copy]
        case None => [m]
  {
    hide Key;
  }

  /** What waits for the next frame of a peer is the last copy that came, if one came. */
  lemma WaitingForNext(before: seq<Message>, id: Str)
    requires |id| == 36 && forall x :: x in before ==> Proper(x)
    ensures var l, f := AcceptAll(before).state, LastFrame(AcceptAll(before).state.peerFrame, id) + 1;
            LastCopy(before, id, f) == if Key(id, f) in l.msgBuf then Some(l.msgBuf[Key(id, f)]) else None
  {
    var f := LastFrame(AcceptAll(before).state.peerFrame, id) + 1;
    AllCopied(before, id);
    assert BuffersEarly(AcceptAll(before).state, id, FramesFrom(before, id));
    CopyIsEarly(before, id, f);
    if Key(id, f) in AcceptAll(before).state.msgBuf {
      WaitingCopyIsLast(before, id, f);
    }
    hide AcceptAll, Key, Advance, CameEarly, FramesFrom, LastCopy, Copies;
  }

  lemma ReleasedStep(before: seq<Message>, m: Message)
    requires Proper(m) && forall x :: x in before ==> Proper(x)
    ensures Accept(AcceptAll(before).state, m).handed == Released(before, m)
  {
    hide AcceptAll, Key, Advance, CameEarly, FramesFrom, LastCopy, Copies, Staircase, Accept, BufferOk;
    CounterAdvances(before, m.fromUUID);
    HandedInOrder(before, m.fromUUID);
    WaitingForNext(before, m.fromUUID);
    AcceptHands(AcceptAll(before).state, m, LastCopy(before, m.fromUUID, m.frame));
  }

  /**
   The whole output of the listener, over all peers, from the arrivals alone: every frame in its
   turn, and behind it the last of its early copies.
   */
  lemma {:induction false} HandedMessages(msgs: seq<Message>)
    requires forall m :: m in msgs ==> Proper(m)
    ensures AcceptAll(msgs).handed == AllReleased(msgs)
  {
    if msgs == [] {
    } else {
      var front, m := msgs[..|msgs| - 1], msgs[|msgs| - 1];
      assert m in msgs;
      HandedMessages(front);
      ReleasedStep(front, m);
      hide Accept, Released;
    }
  }

  lemma EarlyReplaces(l: Listener, m: Message)
    requires m.frame > LastFrame(l.peerFrame, m.fromUUID) + 1
    ensures var r := Accept(l, m);
            && r.handed == [] && LastFrame(r.state.peerFrame, m.fromUUID) == LastFrame(l.peerFrame, m.fromUUID)
            && r.state.msgBuf == l.msgBuf[Key(m.fromUUID, m.frame) := m]
  {
    hide Key;
  }

  lemma NextAlone(l: Listener, m: Message)
    requires m.frame == Inc64(LastFrame(l.peerFrame, m.fromUUID)) && Key(m.fromUUID, m.frame) !in l.msgBuf
    ensures var r := Accept(l, m);
            r.handed == [m] && LastFrame(r.state.peerFrame, m.fromUUID) == m.frame && r.state.msgBuf == l.msgBuf
  {
    hide Key;
  }

  lemma FoldOne(msgs: seq<Message>, m: Message)
    ensures var before := AcceptAll(msgs);
            var r := Accept(before.state, m);
            AcceptAll(msgs + [m]) == Accepted(r.state, before.handed + r.handed)
  {
    assert (msgs + [m])[..|msgs|] == msgs;
    hide Accept;
  }

  lemma FoldFour(a: Message, b: Message, c: Message, d: Message)
    ensures var l0 := Listener(map[], map[]);
            var r1 := Accept(l0, a);
            var r2 := Accept(r1.state, b);
            var r3 := Accept(r2.state, c);
            var r4 := Accept(r3.state, d);
            AcceptAll([a, b, c, d]).handed == r1.handed + r2.handed + r3.handed + r4.handed
  {
    assert [a, b, c, d] == [a, b, c] + [d] && [a, b, c] == [a, b] + [c] && [a, b] == [a] + [b] && [a] == [] + [a];
    FoldOne([a, b, c], d);
    FoldOne([a, b], c);
    FoldOne([a], b);
    FoldOne([], a);
    assert AcceptAll([]) == Accepted(Listener(map[], map[]), []);
    hide *;
  }

  /** Two early copies: only the later one is handed up behind the frame. */
  lemma LatestCopyHandedUp(a: Message, b: Message, b': Message, b'': Message)
    requires a.fromUUID == b.fromUUID == b'.fromUUID == b''.fromUUID && |a.fromUUID| == 36
    requires a.frame == 1 && b.frame == b'.frame == b''.frame == 2
    ensures AcceptAll([b, b', a, b'']).handed == [a, b'', b']
  {
    var l0 := AcceptAll([]).state;
    assert l0 == Listener(map[], map[]);
    var l1, l2 := Accept(l0, b).state, Accept(Accept(l0, b).state, b').state;
    EarlyReplaces(l0, b);
    EarlyReplaces(l1, b');
    KeyInjective(a.fromUUID, 1, a.fromUUID, 2);
    NextAlone(l2, a);
    BothCopies(Accept(l2, a).state, b'', b');
    FoldFour(b, b', a, b'');
  }

  /** What one arrival hands up from a peer lies above that peer's counter. */
  lemma SilentStep(l: Listener, m: Message, id: Str)
    requires BufferOk(l) && Proper(m) && LastFrame(l.peerFrame, m.fromUUID) <= MAX_FRAME
    ensures forall f :: f in FramesFrom(Accept(l, m).handed, id) ==> f > LastFrame(l.peerFrame, id)
    ensures LastFrame(l.peerFrame, id) <= LastFrame(Accept(l, m).state.peerFrame, id)
  {
    hide FramesFrom, Accept, BufferOk;
    AcceptEffect(l, m, id);
  }

  lemma AboveJoined(a: seq<Message>, b: seq<Message>, id: Str, n: nat)
    requires forall f :: f in FramesFrom(a, id) ==> f > n
    requires forall f :: f in FramesFrom(b, id) ==> f > n
    ensures forall f :: f in FramesFrom(a + b, id) ==> f > n
  {
    FramesConcat(a, b, id);
    hide FramesFrom;
  }

  /** Once a peer's counter has passed a number, nothing that still arrives under it is handed up. */
  lemma {:induction false} OldNumbersSilent(msgs: seq<Message>, more: seq<Message>, id: Str)
    returns (extra: seq<Message>)
    requires forall m :: m in msgs + more ==> Proper(m)
    ensures AcceptAll(msgs + more).handed == AcceptAll(msgs).handed + extra
    ensures LastFrame(AcceptAll(msgs).state.peerFrame, id) <= LastFrame(AcceptAll(msgs + more).state.peerFrame, id)
    ensures forall f :: f in FramesFrom(extra, id) ==> f > LastFrame(AcceptAll(msgs).state.peerFrame, id)
    decreases |more|
  {
    if more == [] {
      extra := [];
      assert msgs + more == msgs;
      assert AcceptAll(msgs).handed + [] == AcceptAll(msgs).handed;
    } else {
      hide AcceptAll, Accept, BufferOk, Staircase, FramesFrom, LastFrame, Proper;
      var front, m := more[..|more| - 1], more[|more| - 1];
      assert msgs + more == (msgs + front) + [m] && m in msgs + more;
      assert forall x :: x in msgs + front ==> x in msgs + more;
      var rest := OldNumbersSilent(msgs, front, id);
      var l := AcceptAll(msgs + front).state;
      FoldOne(msgs + front, m);
      HandedInOrder(msgs + front, m.fromUUID);
      SilentStep(l, m, id);
      extra := rest + Accept(l, m).handed;
      AboveJoined(rest, Accept(l, m).handed, id, LastFrame(AcceptAll(msgs).state.peerFrame, id));
      Assoc(AcceptAll(msgs).handed, rest, Accept(l, m).handed);
    }
  }
}
