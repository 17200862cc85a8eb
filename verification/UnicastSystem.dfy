// Any number of hosts running the unicast of server/unicast/unicast.go over a network that
// loses, repeats and reorders datagrams, with sends, retries, acks and purges interleaved.
module UnicastSystem {
  import opened Bytes
  import opened FrameKeys
  import opened UnicastFraming
  import opened ReliableUnicast
  import opened UnicastListener

  /** `received` and `handed` record the data frames the listener took in and what it handed up. */
  datatype Host = Host(sender: Sender, listener: Listener, received: seq<Message>, handed: seq<Message>)

  /** `sent` records the payloads from one id to another, `purged` the pairs given up at least once. */
  datatype System = System(
    hosts: map<Str, Host>,
    net: set<Message>,
    sent: map<(Str, Str), seq<Str>>,
    purged: set<(Str, Str)>,
    sends: nat)

  function NewHost(): Host {
    Host(Sender(map[], map[], map[]), Listener(map[], map[]), [], [])
  }

  function Init(ids: set<Str>): System {
    System(map id | id in ids :: NewHost(), {}, map[], {}, 0)
  }

  function Log(s: System, a: Str, b: Str): seq<Str> {
    if (a, b) in s.sent then s.sent[(a, b)] else []
  }

  // ---------------------------------------------------------------------
  // Steps
  // ---------------------------------------------------------------------

  datatype Action =
    | Send(at: Str, ip: Str, to: Str, data: Str)
    | Resend(msg: Message)
    | Receive(at: Str, msg: Message, ip: Str)
    | Purge(at: Str, to: Str)

  /** Any host may get any datagram ever sent, any number of times; retries stop after the last try. */
  predicate Enabled(s: System, a: Action) {
    match a
    case Send(at, ip, to, data) => at in s.hosts && |to| == 36 && |data| < TWO_64
    case Resend(msg) => msg in s.net && msg.response == 0 && msg.tries < LAST_TRY
    case Receive(at, msg, ip) => at in s.hosts && msg in s.net
    case Purge(at, to) => at in s.hosts && |to| == 36
  }

  function AfterAcks(s: Sender, keys: seq<Str>): Sender {
    if keys == [] then s else AfterAck(s, keys[0])
  }

  function HostAfter(at: Str, h: Host, seen: Message): Host {
    var r := Handle(at, h.listener, seen);
    Host(AfterAcks(h.sender, r.acked),
         r.accepted.state,
         if r.acks == [] then h.received else h.received + [seen],
         h.handed + r.accepted.handed)
  }

  function Step(s: System, a: Action): System
    requires Enabled(s, a)
  {
    match a
    case Send(at, ip, to, data) =>
      var h := s.hosts[at];
      System(s.hosts[at := h.(sender := AfterRegister(h.sender, at, ip, to, data))],
             s.net + {DataFrame(at, NextFrame(h.sender, to), ip, to, data)},
             s.sent[(at, to) := Log(s, at, to) + [data]], s.purged, s.sends + 1)
    case Resend(msg) =>
      s.(net := s.net + {msg.(tries := msg.tries + 1)})
    case Receive(at, msg, ip) =>
      var seen := Opened(Clip(Encoded(msg)), ip);
      s.(hosts := s.hosts[at := HostAfter(at, s.hosts[at], seen)],
         net := s.net + set m | m in Handle(at, s.hosts[at].listener, seen).acks)
    case Purge(at, to) =>
      var h := s.hosts[at];
      s.(hosts := s.hosts[at := h.(sender := AfterPurge(h.sender, to))], purged := s.purged + {(at, to)})
  }

  predicate Runnable(s: System, actions: seq<Action>)
    decreases |actions|
  {
    actions != [] ==> Enabled(s, actions[0]) && Runnable(Step(s, actions[0]), actions[1..])
  }

  function Exec(s: System, actions: seq<Action>): System
    requires Runnable(s, actions)
    decreases |actions|
  {
    if actions == [] then s else Exec(Step(s, actions[0]), actions[1..])
  }

  // ---------------------------------------------------------------------
  // Invariant
  // ---------------------------------------------------------------------

  /** A data frame `n` from `a` is among the frames taken in. */
  ghost predicate Got(received: seq<Message>, a: Str, n: nat) {
    exists r :: r in received && r.fromUUID == a && r.frame == n
  }

  /** Without a purge, frame `n` from `a` to `b` carries the n-th payload. */
  ghost predicate Carries(s: System, a: Str, b: Str, n: nat, payload: Str, seen: bool) {
    (a, b) !in s.purged ==>
      1 <= n <= |Log(s, a, b)| && payload == if seen then Seen(Log(s, a, b)[n - 1]) else Log(s, a, b)[n - 1]
  }

  ghost predicate NetOk(s: System, m: Message) {
    && |m.fromUUID| == 36 && |m.toUUID| == 36
    && if m.response == 1 then
         m.message == [] && m.fromUUID in s.hosts && Got(s.hosts[m.fromUUID].received, m.toUUID, m.frame)
       else
         && m.response == 0 && m.frame <= s.sends && |m.message| < TWO_64
         && Carries(s, m.fromUUID, m.toUUID, m.frame, m.message, false)
  }

  ghost predicate ReceivedOk(s: System, b: Str, r: Message) {
    && |r.fromUUID| == 36 && r.toUUID == b && r.frame <= s.sends
    && Carries(s, r.fromUUID, b, r.frame, r.message, true)
  }

  /**
   One sender towards one peer. Without a purge the counter is the number of sends, and an
   ack entry that is gone was earned by a reception.
   */
  ghost predicate PairOk(sender: Sender, a: Str, b: Str, log: seq<Str>, purged: bool, sends: nat,
                         received: seq<Message>)
  {
    && LastFrame(sender.peerFrame, b) <= sends
    && (!purged ==>
      && LastFrame(sender.peerFrame, b) == |log|
      && forall n :: 1 <= n <= |log| && Key(b, n) !in sender.ackFrame ==> Got(received, a, n))
  }

  function Received(s: System, b: Str): seq<Message> {
    if b in s.hosts then s.hosts[b].received else []
  }

  ghost predicate SenderOk(s: System, a: Str, b: Str)
    requires a in s.hosts
  {
    PairOk(s.hosts[a].sender, a, b, Log(s, a, b), (a, b) in s.purged, s.sends, Received(s, b))
  }

  ghost predicate HostOk(s: System, b: Str)
    requires b in s.hosts
  {
    && |b| == 36
    && Accepted(s.hosts[b].listener, s.hosts[b].handed) == AcceptAll(s.hosts[b].received)
    && (forall r :: r in s.hosts[b].received ==> ReceivedOk(s, b, r))
    && forall c :: |c| == 36 ==> SenderOk(s, b, c)
  }

  ghost predicate Inv(s: System) {
    && (forall m :: m in s.net ==> NetOk(s, m))
    && (forall b :: b in s.hosts ==> HostOk(s, b))
  }

  /** Logs and receptions only grow, apart from purged pairs. */
  ghost predicate Grows(s: System, s': System) {
    && s.hosts.Keys == s'.hosts.Keys && s.purged <= s'.purged && s.sends <= s'.sends
    && (forall a, b :: (a, b) !in s'.purged ==> Log(s, a, b) <= Log(s', a, b))
    && (forall b :: b in s.hosts ==> s.hosts[b].received <= s'.hosts[b].received)
  }

  lemma GotGrows(rs: seq<Message>, rs': seq<Message>, a: Str, n: nat)
    requires rs <= rs' && Got(rs, a, n)
    ensures Got(rs', a, n)
  {
    var r :| r in rs && r.fromUUID == a && r.frame == n;
    assert r in rs';
  }

  lemma NetGrows(s: System, s': System, m: Message)
    requires Grows(s, s') && NetOk(s, m)
    ensures NetOk(s', m)
  {
    if m.response == 1 {
      GotGrows(s.hosts[m.fromUUID].received, s'.hosts[m.fromUUID].received, m.toUUID, m.frame);
    }
  }

  lemma ReceivedGrows(s: System, s': System, b: Str, r: Message)
    requires Grows(s, s') && ReceivedOk(s, b, r)
    ensures ReceivedOk(s', b, r)
  {
  }

  lemma PairGrows(sender: Sender, a: Str, b: Str, log: seq<Str>, purged: bool, sends: nat, received: seq<Message>,
                  purged': bool, sends': nat, received': seq<Message>)
    requires PairOk(sender, a, b, log, purged, sends, received)
    requires (purged ==> purged') && sends <= sends' && received <= received'
    ensures PairOk(sender, a, b, log, purged', sends', received')
  {
    if !purged' {
      forall n | 1 <= n <= |log| && Key(b, n) !in sender.ackFrame
        ensures Got(received', a, n)
      {
        GotGrows(received, received', a, n);
      }
    }
  }

  lemma PairRegister(sender: Sender, a: Str, ip: Str, to: Str, data: Str,
                     b: Str, log: seq<Str>, purged: bool, sends: nat, received: seq<Message>)
    requires PairOk(sender, a, b, log, purged, sends, received) && sends < MAX_FRAME
    ensures PairOk(AfterRegister(sender, a, ip, to, data), a, b, if b == to then log + [data] else log,
                   purged, sends + 1, received)
    ensures b == to ==> NextFrame(sender, b) <= sends + 1 && (!purged ==> NextFrame(sender, b) == |log| + 1)
  {
    hide Key;
  }

  lemma PairAck(sender: Sender, c: Str, n: U64, a: Str, b: Str, log: seq<Str>, purged: bool, sends: nat,
                received: seq<Message>)
    requires PairOk(sender, a, b, log, purged, sends, received) && |c| == |b|
    requires b == c ==> Got(received, a, n)
    ensures PairOk(AfterAck(sender, Key(c, n)), a, b, log, purged, sends, received)
  {
    if !purged {
      forall k | 1 <= k <= |log| && Key(b, k) !in AfterAck(sender, Key(c, n)).ackFrame
        ensures Got(received, a, k)
      {
        KeyInjective(c, n, b, k);
      }
    }
  }

  lemma PairPurge(sender: Sender, to: Str, a: Str, b: Str, log: seq<Str>, purged: bool, sends: nat,
                  received: seq<Message>)
    requires PairOk(sender, a, b, log, purged, sends, received) && |to| == |b|
    ensures PairOk(AfterPurge(sender, to), a, b, log, purged || b == to, sends, received)
  {
    if !purged && b != to {
      forall k | 1 <= k <= |log| && Key(b, k) !in AfterPurge(sender, to).ackFrame
        ensures Got(received, a, k)
      {
        PrefixIsOwner(to, b, k);
      }
    }
  }

  lemma ReceivedPrefix(s: System, s': System, b: Str)
    requires Grows(s, s')
    ensures Received(s, b) <= Received(s', b)
  {
    assert b in s.hosts <==> b in s.hosts.Keys;
  }

  /** The receptions of a host stay in order as long as its list is not touched. */
  lemma ReceivedKept(s: System, s': System, b: Str)
    requires Grows(s, s') && b in s.hosts && HostOk(s, b)
    ensures forall r :: r in s.hosts[b].received ==> ReceivedOk(s', b, r)
  {
    hide ReceivedOk, Grows, SenderOk;
    forall r | r in s.hosts[b].received
      ensures ReceivedOk(s', b, r)
    {
      ReceivedGrows(s, s', b, r);
    }
  }

  /** A host that the step did not touch. */
  lemma HostGrows(s: System, s': System, b: Str)
    requires Grows(s, s') && b in s.hosts && HostOk(s, b) && s'.hosts.Keys == s.hosts.Keys && s'.hosts[b] == s.hosts[b]
    requires forall c :: Log(s', b, c) == Log(s, b, c)
    ensures HostOk(s', b)
  {
    ReceivedKept(s, s', b);
    hide PairOk, ReceivedOk, AcceptAll;
    forall c | |c| == 36
      ensures SenderOk(s', b, c)
    {
      assert SenderOk(s, b, c);
      ReceivedPrefix(s, s', c);
      PairGrows(s.hosts[b].sender, b, c, Log(s, b, c), (b, c) in s.purged, s.sends, Received(s, c),
                (b, c) in s'.purged, s'.sends, Received(s', c));
    }
  }

  lemma NetKept(s: System, s': System)
    requires Grows(s, s') && Inv(s)
    ensures forall m :: m in s.net ==> NetOk(s', m)
  {
    hide NetOk, Grows, HostOk;
    forall m | m in s.net
      ensures NetOk(s', m)
    {
      NetGrows(s, s', m);
    }
  }

  /** A step that touches one host keeps the invariant if that host and what is new on the network are in order. */
  lemma InvAfter(s: System, s': System, a: Str)
    requires Inv(s) && Grows(s, s') && a in s.hosts && s'.hosts.Keys == s.hosts.Keys && HostOk(s', a)
    requires forall h :: h in s.hosts && h != a ==> s'.hosts[h] == s.hosts[h]
    requires forall h, c :: h in s.hosts && h != a ==> Log(s', h, c) == Log(s, h, c)
    requires forall m :: m in s'.net ==> m in s.net || NetOk(s', m)
    ensures Inv(s')
  {
    NetKept(s, s');
    hide NetOk, HostOk, Grows;
    forall h | h in s.hosts && h != a
      ensures HostOk(s', h)
    {
      assert HostOk(s, h) && forall c :: Log(s', h, c) == Log(s, h, c);
      hide Inv, Log;
      HostGrows(s, s', h);
    }
  }

  // ---------------------------------------------------------------------
  // Sending, retrying, giving up
  // ---------------------------------------------------------------------

  lemma SendGrows(s: System, a: Str, ip: Str, b: Str, data: Str)
    requires Enabled(s, Send(a, ip, b, data))
    ensures Grows(s, Step(s, Send(a, ip, b, data)))
    ensures forall x, c :: Log(Step(s, Send(a, ip, b, data)), x, c)
                        == if x == a && c == b then Log(s, a, b) + [data] else Log(s, x, c)
  {
  }

  lemma PairOf(s: System, a: Str, b: Str)
    requires Inv(s) && a in s.hosts && |b| == 36
    ensures |a| == 36
    ensures PairOk(s.hosts[a].sender, a, b, Log(s, a, b), (a, b) in s.purged, s.sends, Received(s, b))
  {
    hide PairOk, AcceptAll, ReceivedOk, NetOk;
    assert HostOk(s, a);
    assert SenderOk(s, a, b);
  }

  /** What a send leaves behind for one pair. */
  lemma SendEffect(s: System, a: Str, ip: Str, b: Str, data: Str, c: Str)
    requires Enabled(s, Send(a, ip, b, data))
    ensures var s' := Step(s, Send(a, ip, b, data));
            && s'.purged == s.purged && s'.sends == s.sends + 1 && a in s'.hosts
            && s'.hosts[a].sender == AfterRegister(s.hosts[a].sender, a, ip, b, data)
            && Log(s', a, c) == (if c == b then Log(s, a, c) + [data] else Log(s, a, c))
            && Received(s', c) == Received(s, c)
  {
  }

  lemma SendNet(s: System, a: Str, ip: Str, b: Str, data: Str)
    requires Inv(s) && s.sends < MAX_FRAME && Enabled(s, Send(a, ip, b, data))
    ensures NetOk(Step(s, Send(a, ip, b, data)), DataFrame(a, NextFrame(s.hosts[a].sender, b), ip, b, data))
  {
    hide Inv, PairOk, AfterRegister, NextFrame, Step, Log, Received;
    SendEffect(s, a, ip, b, data, b);
    PairOf(s, a, b);
    PairRegister(s.hosts[a].sender, a, ip, b, data, b, Log(s, a, b), (a, b) in s.purged, s.sends, Received(s, b));
  }

  lemma SendPair(s: System, a: Str, ip: Str, b: Str, data: Str, c: Str)
    requires Inv(s) && s.sends < MAX_FRAME && Enabled(s, Send(a, ip, b, data)) && |c| == 36
    ensures a in Step(s, Send(a, ip, b, data)).hosts && SenderOk(Step(s, Send(a, ip, b, data)), a, c)
  {
    hide Inv, PairOk, AfterRegister, NextFrame, Step, Log, Received;
    SendEffect(s, a, ip, b, data, c);
    PairOf(s, a, c);
    PairRegister(s.hosts[a].sender, a, ip, b, data, c, Log(s, a, c), (a, c) in s.purged, s.sends, Received(s, c));
  }

  lemma SendHost(s: System, a: Str, ip: Str, b: Str, data: Str)
    requires Inv(s) && s.sends < MAX_FRAME && Enabled(s, Send(a, ip, b, data))
    ensures HostOk(Step(s, Send(a, ip, b, data)), a)
  {
    var s' := Step(s, Send(a, ip, b, data));
    SendGrows(s, a, ip, b, data);
    HostOfStep(s, a, ip, b, data);
    assert HostOk(s, a);
    ReceivedKept(s, s', a);
    hide Inv, AcceptAll, SenderOk, ReceivedOk, AfterRegister, Grows, Step, Log, Received;
    forall c | |c| == 36
      ensures SenderOk(s', a, c)
    {
      SendPair(s, a, ip, b, data, c);
    }
  }

  lemma HostOfStep(s: System, a: Str, ip: Str, b: Str, data: Str)
    requires Enabled(s, Send(a, ip, b, data))
    ensures var s' := Step(s, Send(a, ip, b, data));
            && s'.hosts.Keys == s.hosts.Keys
            && s'.hosts[a] == s.hosts[a].(sender := AfterRegister(s.hosts[a].sender, a, ip, b, data))
            && (forall h :: h in s.hosts && h != a ==> s'.hosts[h] == s.hosts[h])
            && (forall c :: Received(s', c) == Received(s, c))
            && s'.purged == s.purged && s'.sends == s.sends + 1
            && s'.net == s.net + {DataFrame(a, NextFrame(s.hosts[a].sender, b), ip, b, data)}
  {
  }

  lemma SendKeeps(s: System, a: Str, ip: Str, b: Str, data: Str)
    requires Inv(s) && s.sends < MAX_FRAME && Enabled(s, Send(a, ip, b, data))
    ensures Inv(Step(s, Send(a, ip, b, data)))
  {
    hide Log, Step, Grows, Inv, NetOk, HostOk, AfterRegister, NextFrame, Received;
    var s' := Step(s, Send(a, ip, b, data));
    SendGrows(s, a, ip, b, data);
    SendNet(s, a, ip, b, data);
    SendHost(s, a, ip, b, data);
    HostOfStep(s, a, ip, b, data);
    InvAfter(s, s', a);
  }

  lemma ResendKeeps(s: System, m: Message)
    requires Inv(s) && Enabled(s, Resend(m))
    ensures Inv(Step(s, Resend(m)))
  {
    var s' := Step(s, Resend(m));
    assert Grows(s, s') && NetOk(s', m.(tries := m.tries + 1)) by {
      assert NetOk(s, m);
    }
    NetKept(s, s');
    hide NetOk, HostOk, Grows;
    forall h | h in s.hosts
      ensures HostOk(s', h)
    {
      HostGrows(s, s', h);
    }
  }

  lemma HostOfPurge(s: System, a: Str, b: Str)
    requires Enabled(s, Purge(a, b))
    ensures var s' := Step(s, Purge(a, b));
            && Grows(s, s') && s'.hosts.Keys == s.hosts.Keys
            && s'.hosts[a] == s.hosts[a].(sender := AfterPurge(s.hosts[a].sender, b))
            && (forall h :: h in s.hosts && h != a ==> s'.hosts[h] == s.hosts[h])
            && (forall c :: Received(s', c) == Received(s, c))
            && (forall x, c :: Log(s', x, c) == Log(s, x, c))
            && s'.purged == s.purged + {(a, b)} && s'.sends == s.sends && s'.net == s.net
  {
  }

  lemma PurgeHost(s: System, a: Str, b: Str)
    requires Inv(s) && Enabled(s, Purge(a, b))
    ensures HostOk(Step(s, Purge(a, b)), a)
  {
    var h, s' := s.hosts[a], Step(s, Purge(a, b));
    HostOfPurge(s, a, b);
    assert HostOk(s, a);
    ReceivedKept(s, s', a);
    hide Inv, AcceptAll, PairOk, AfterPurge, ReceivedOk, Grows, Step, Log, Received;
    forall c | |c| == 36
      ensures SenderOk(s', a, c)
    {
      PairOf(s, a, c);
      PairPurge(h.sender, b, a, c, Log(s, a, c), (a, c) in s.purged, s.sends, Received(s, c));
    }
  }

  lemma PurgeKeeps(s: System, a: Str, b: Str)
    requires Inv(s) && Enabled(s, Purge(a, b))
    ensures Inv(Step(s, Purge(a, b)))
  {
    var s' := Step(s, Purge(a, b));
    HostOfPurge(s, a, b);
    PurgeHost(s, a, b);
    hide Log, Step, Grows;
    InvAfter(s, s', a);
  }

  // ---------------------------------------------------------------------
  // Receiving
  // ---------------------------------------------------------------------

  /** The datagram as the listener opens it. */
  function SeenFrame(m: Message, ip: Str): Message {
    if m.response == 1 then m.(ip := ip)
    else if m.message == [] then BLANK
    else m.(ip := ip, message := Seen(m.message))
  }

  /** What a host makes of a datagram on the network. */
  lemma OpenedFrame(s: System, m: Message, ip: Str)
    requires NetOk(s, m)
    ensures Opened(Clip(Encoded(m)), ip) == SeenFrame(m, ip)
  {
    hide Decoded, Carries, Got, Seen;
    if m.response == 1 {
      DecodeEncoded(m, ip);
    } else if m.message == [] {
      DecodeEncoded(m, ip);
    } else {
      ReceiveClipped(m, ip);
    }
  }

  /** The shape of a reception: nothing, an ack, or a data frame. */
  lemma HostAfterCases(b: Str, h: Host, seen: Message)
    ensures var h', r := HostAfter(b, h, seen), Handle(b, h.listener, seen);
            if seen.toUUID != b then h' == h && r.acks == []
            else if seen.response == 1 then
              h' == h.(sender := AfterAck(h.sender, Key(seen.fromUUID, seen.frame))) && r.acks == []
            else
              && h' == Host(h.sender, Accept(h.listener, seen).state, h.received + [seen],
                            h.handed + Accept(h.listener, seen).handed)
              && r.acks == [AckFor(b, seen)]
  {
    hide Accept, AfterAck, Key;
  }

  /** Only the hosts differ between the two states, and there only host `b`. */
  ghost predicate HostChange(s: System, s': System, b: Str, h': Host) {
    && b in s.hosts && s'.hosts == s.hosts[b := h'] && s.hosts[b].received <= h'.received
    && s'.sent == s.sent && s'.purged == s.purged && s'.sends == s.sends
  }

  lemma ChangeGrows(s: System, s': System, b: Str, h': Host)
    requires HostChange(s, s', b, h')
    ensures Grows(s, s') && s'.hosts.Keys == s.hosts.Keys
    ensures forall a, c :: Log(s', a, c) == Log(s, a, c)
  {
  }

  /** A changed host is in order if its pairs were in order before its list of receptions grew. */
  lemma ChangedHost(s: System, s': System, b: Str, h': Host)
    requires Inv(s) && HostChange(s, s', b, h')
    requires Accepted(h'.listener, h'.handed) == AcceptAll(h'.received)
    requires forall r :: r in h'.received ==> r in s.hosts[b].received || ReceivedOk(s', b, r)
    requires forall c :: |c| == 36 ==>
               PairOk(h'.sender, b, c, Log(s, b, c), (b, c) in s.purged, s.sends, Received(s, c))
    ensures HostOk(s', b)
  {
    ChangeGrows(s, s', b, h');
    assert HostOk(s, b);
    ReceivedKept(s, s', b);
    hide Inv, AcceptAll, PairOk, ReceivedOk, Grows, Log;
    forall c | |c| == 36
      ensures SenderOk(s', b, c)
    {
      ReceivedPrefix(s, s', c);
      PairGrows(h'.sender, b, c, Log(s, b, c), (b, c) in s.purged, s.sends, Received(s, c),
                (b, c) in s'.purged, s'.sends, Received(s', c));
    }
  }

  lemma AckPairs(s: System, b: Str, m: Message)
    requires Inv(s) && b in s.hosts && NetOk(s, m) && m.response == 1 && m.toUUID == b
    ensures forall c :: |c| == 36 ==>
              PairOk(AfterAck(s.hosts[b].sender, Key(m.fromUUID, m.frame)), b, c, Log(s, b, c), (b, c) in s.purged,
                     s.sends, Received(s, c))
  {
    var h := s.hosts[b];
    hide Inv, PairOk, AfterAck, Key, Log;
    forall c | |c| == 36
      ensures PairOk(AfterAck(h.sender, Key(m.fromUUID, m.frame)), b, c, Log(s, b, c), (b, c) in s.purged,
                     s.sends, Received(s, c))
    {
      PairOf(s, b, c);
      PairAck(h.sender, m.fromUUID, m.frame, b, c, Log(s, b, c), (b, c) in s.purged, s.sends, Received(s, c));
    }
  }

  lemma SamePairs(s: System, b: Str)
    requires Inv(s) && b in s.hosts
    ensures forall c :: |c| == 36 ==>
              PairOk(s.hosts[b].sender, b, c, Log(s, b, c), (b, c) in s.purged, s.sends, Received(s, c))
  {
    hide Inv, PairOk, Log, Received;
    forall c | |c| == 36
      ensures PairOk(s.hosts[b].sender, b, c, Log(s, b, c), (b, c) in s.purged, s.sends, Received(s, c))
    {
      PairOf(s, b, c);
    }
  }

  /** The listener's state is the fold over what it received. */
  lemma FoldStep(h: Host, seen: Message)
    requires Accepted(h.listener, h.handed) == AcceptAll(h.received)
    ensures var r := Accept(h.listener, seen);
            Accepted(r.state, h.handed + r.handed) == AcceptAll(h.received + [seen])
  {
    assert (h.received + [seen])[..|h.received|] == h.received;
    hide Accept;
  }

  lemma DataReceived(s: System, s': System, b: Str, m: Message, ip: Str, seen: Message)
    requires NetOk(s, m) && m.response == 0 && m.toUUID == b && seen == m.(ip := ip, message := Seen(m.message))
    requires b in s.hosts && b in s'.hosts && s'.hosts[b].received == s.hosts[b].received + [seen]
    requires s'.sent == s.sent && s'.purged == s.purged && s'.sends == s.sends
    ensures ReceivedOk(s', b, seen)
    ensures |b| == 36 ==> NetOk(s', AckFor(b, seen))
  {
    assert s'.hosts[b].received[|s.hosts[b].received|] == seen;
  }

  /** A reception that takes in no data: nothing for this host, or an ack. */
  lemma SilentKeeps(s: System, s': System, b: Str, m: Message, seen: Message)
    requires Inv(s) && b in s.hosts && NetOk(s, m) && HostChange(s, s', b, HostAfter(b, s.hosts[b], seen))
    requires seen.toUUID == b ==> m.response == 1 && m.toUUID == b && seen.response == 1
                                  && seen.fromUUID == m.fromUUID && seen.frame == m.frame
    ensures HostOk(s', b)
  {
    var h' := HostAfter(b, s.hosts[b], seen);
    assert HostOk(s, b);
    HostAfterCases(b, s.hosts[b], seen);
    hide NetOk, HostAfter, Handle, AcceptAll, AfterAck, Key, SenderOk, ReceivedOk, Inv, PairOk, Log, Received;
    if seen.toUUID == b {
      AckPairs(s, b, m);
    } else {
      SamePairs(s, b);
    }
    ChangedHost(s, s', b, h');
  }

  /** A reception that takes in a data frame. */
  lemma DataKeeps(s: System, s': System, b: Str, m: Message, ip: Str, seen: Message)
    requires Inv(s) && b in s.hosts && NetOk(s, m) && HostChange(s, s', b, HostAfter(b, s.hosts[b], seen))
    requires m.response == 0 && m.toUUID == b && seen == m.(ip := ip, message := Seen(m.message))
    ensures HostOk(s', b) && NetOk(s', AckFor(b, seen))
  {
    var h, h' := s.hosts[b], HostAfter(b, s.hosts[b], seen);
    assert HostOk(s, b);
    HostAfterCases(b, h, seen);
    FoldStep(h, seen);
    hide NetOk, HostAfter, Handle, Accept, AcceptAll, SenderOk, ReceivedOk, Inv, PairOk, Log, Received, Seen;
    SamePairs(s, b);
    DataReceived(s, s', b, m, ip, seen);
    ChangedHost(s, s', b, h');
  }

  lemma HostNeverForgets(b: Str, h: Host, seen: Message)
    ensures h.received <= HostAfter(b, h, seen).received
  {
    HostAfterCases(b, h, seen);
    hide HostAfter, Handle;
  }

  lemma HostId(s: System, b: Str)
    requires Inv(s) && b in s.hosts
    ensures |b| == 36
  {
    assert HostOk(s, b);
  }

  /** Whatever the datagram, the host and its acks are in order afterwards. */
  lemma ReceiveHost(s: System, s': System, b: Str, m: Message, ip: Str)
    requires Inv(s) && b in s.hosts && NetOk(s, m)
    requires HostChange(s, s', b, HostAfter(b, s.hosts[b], SeenFrame(m, ip)))
    ensures HostOk(s', b)
    ensures forall x :: x in Handle(b, s.hosts[b].listener, SeenFrame(m, ip)).acks ==> NetOk(s', x)
  {
    var seen, h := SeenFrame(m, ip), s.hosts[b];
    HostId(s, b);
    assert m.response == 1 || m.response == 0;
    HostAfterCases(b, h, seen);
    hide HostAfter, Handle, Accept, AfterAck, Key, Seen, NetOk, HostOk, Inv, HostChange;
    if seen.toUUID != b || seen.response == 1 {
      SilentKeeps(s, s', b, m, seen);
    } else {
      DataKeeps(s, s', b, m, ip, seen);
    }
  }

  /** A reception touches one host, and what is new on the network are its acks. */
  lemma ReceiveFrame(s: System, b: Str, m: Message, ip: Str)
    requires Inv(s) && Enabled(s, Receive(b, m, ip))
    ensures NetOk(s, m)
    ensures var s' := Step(s, Receive(b, m, ip));
            && HostChange(s, s', b, HostAfter(b, s.hosts[b], SeenFrame(m, ip)))
            && forall x :: x in s'.net ==> x in s.net || x in Handle(b, s.hosts[b].listener, SeenFrame(m, ip)).acks
  {
    assert NetOk(s, m);
    OpenedFrame(s, m, ip);
    HostNeverForgets(b, s.hosts[b], SeenFrame(m, ip));
    hide Opened, Encoded, Clip, HostAfter, Handle, NetOk, HostOk, SeenFrame, Inv;
  }

  lemma ReceiveKeeps(s: System, b: Str, m: Message, ip: Str)
    requires Inv(s) && Enabled(s, Receive(b, m, ip))
    ensures Inv(Step(s, Receive(b, m, ip)))
  {
    var s' := Step(s, Receive(b, m, ip));
    ReceiveFrame(s, b, m, ip);
    hide HostAfter, Handle, Step, NetOk, HostOk, SeenFrame, Grows, Log, Inv;
    ReceiveHost(s, s', b, m, ip);
    ChangeGrows(s, s', b, HostAfter(b, s.hosts[b], SeenFrame(m, ip)));
    InvAfter(s, s', b);
  }

  // ---------------------------------------------------------------------
  // Whole runs
  // ---------------------------------------------------------------------

  lemma {:induction false} SendsGrow(s: System, actions: seq<Action>)
    requires Runnable(s, actions)
    ensures s.sends <= Exec(s, actions).sends
    decreases |actions|
  {
    if actions == [] {
    } else {
      SendsGrow(Step(s, actions[0]), actions[1..]);
    }
  }

  lemma {:induction false} ExecInv(s: System, actions: seq<Action>)
    requires Inv(s) && Runnable(s, actions) && Exec(s, actions).sends <= MAX_FRAME
    ensures Inv(Exec(s, actions))
    decreases |actions|
  {
    if actions == [] {
    } else {
      SendsGrow(Step(s, actions[0]), actions[1..]);
      StepKeeps(s, actions[0]);
      hide Inv, Step;
      ExecInv(Step(s, actions[0]), actions[1..]);
    }
  }

  lemma StepKeeps(s: System, a: Action)
    requires Inv(s) && Enabled(s, a) && Step(s, a).sends <= MAX_FRAME
    ensures Inv(Step(s, a))
  {
    match a {
      case Send(at, ip, to, data) =>
        SendEffect(s, at, ip, to, data, to);
        hide Inv, Step;
        SendKeeps(s, at, ip, to, data);
      case Resend(msg) =>
        hide Inv, Step;
        ResendKeeps(s, msg);
      case Receive(at, msg, ip) =>
        hide Inv, Step;
        ReceiveKeeps(s, at, msg, ip);
      case Purge(at, to) =>
        hide Inv, Step;
        PurgeKeeps(s, at, to);
    }
  }

  function Final(ids: set<Str>, actions: seq<Action>): System
    requires Runnable(Init(ids), actions)
  {
    Exec(Init(ids), actions)
  }

  lemma RunInv(ids: set<Str>, actions: seq<Action>)
    requires forall id :: id in ids ==> |id| == 36
    requires Runnable(Init(ids), actions) && Final(ids, actions).sends <= MAX_FRAME
    ensures Inv(Final(ids, actions))
  {
    assert Inv(Init(ids));
    ExecInv(Init(ids), actions);
  }

  /** A host whose state is the fold of proper receptions. */
  ghost predicate Folded(s: System, b: Str) {
    && b in s.hosts
    && Accepted(s.hosts[b].listener, s.hosts[b].handed) == AcceptAll(s.hosts[b].received)
    && forall r :: r in s.hosts[b].received ==> ReceivedOk(s, b, r) && Proper(r)
  }

  /** One host of a finished run: its state is the fold of what it received, and that is in order. */
  lemma HostInRun(ids: set<Str>, actions: seq<Action>, b: Str)
    requires forall id :: id in ids ==> |id| == 36
    requires Runnable(Init(ids), actions) && Final(ids, actions).sends <= MAX_FRAME && b in ids
    ensures Folded(Final(ids, actions), b)
    ensures var h := Final(ids, actions).hosts[b];
            && Accepted(h.listener, h.handed) == AcceptAll(h.received)
            && forall r :: r in h.received ==> Proper(r)
  {
    RunInv(ids, actions);
    HostsOfInit(ids, actions);
    hide Final, AcceptAll, SenderOk, Carries;
    assert HostOk(Final(ids, actions), b);
  }

  lemma {:induction false} HostsKept(s: System, actions: seq<Action>)
    requires Runnable(s, actions)
    ensures Exec(s, actions).hosts.Keys == s.hosts.Keys
    decreases |actions|
  {
    if actions == [] {
    } else {
      HostsKept(Step(s, actions[0]), actions[1..]);
    }
  }

  lemma HostsOfInit(ids: set<Str>, actions: seq<Action>)
    requires Runnable(Init(ids), actions)
    ensures Final(ids, actions).hosts.Keys == ids
  {
    HostsKept(Init(ids), actions);
  }

  lemma {:induction false} FrameOf(msgs: seq<Message>, id: Str, f: U64) returns (m: Message)
    requires f in FramesFrom(msgs, id)
    ensures m in msgs && m.fromUUID == id && m.frame == f
  {
    var last := msgs[|msgs| - 1];
    if last.fromUUID == id && last.frame == f {
      m := last;
    } else {
      m := FrameOf(msgs[..|msgs| - 1], id, f);
    }
  }

  /** What was handed up was sent under that number. */
  lemma HandedAreSent(s: System, a: Str, b: Str, m: Message)
    requires Folded(s, b) && (a, b) !in s.purged
    requires m in s.hosts[b].handed && m.fromUUID == a
    ensures 1 <= m.frame <= |Log(s, a, b)| && m.message == Seen(Log(s, a, b)[m.frame - 1])
  {
    HandedArrived(s.hosts[b].received);
    hide AcceptAll, Seen, Log;
    assert ReceivedOk(s, b, m);
  }

  /** The counter for a peer does not run ahead of what that peer sent. */
  lemma CounterSent(s: System, a: Str, b: Str, n: nat)
    requires Folded(s, b) && (a, b) !in s.purged && Staircase(FramesFrom(s.hosts[b].handed, a), n)
    ensures n <= |Log(s, a, b)|
  {
    var fs := FramesFrom(s.hosts[b].handed, a);
    hide Folded, Log, FramesFrom;
    if n > 0 {
      assert fs != [] by {
        assert Collapse([]) == [] && |UpTo(n)| == n;
      }
      var m := FrameOf(s.hosts[b].handed, a, fs[|fs| - 1]);
      HandedAreSent(s, a, b, m);
    }
  }

  /**
   What `b` handed up from `a`, frame by frame, purged or not: 1 up to the counter, a frame twice
   exactly when a copy of it came in before its predecessors had come in order.
   */
  lemma CopiesExactly(ids: set<Str>, actions: seq<Action>, a: Str, b: Str)
    requires forall id :: id in ids ==> |id| == 36
    requires Runnable(Init(ids), actions) && Final(ids, actions).sends <= MAX_FRAME && b in ids && |a| == 36
    ensures b in Final(ids, actions).hosts
    ensures var h := Final(ids, actions).hosts[b];
            FramesFrom(h.handed, a) == Copies(FramesFrom(h.received, a), LastFrame(h.listener.peerFrame, a))
  {
    HostInRun(ids, actions, b);
    hide Final, AcceptAll, Copies;
    HandedExactly(Final(ids, actions).hosts[b].received, a);
  }

  /**
   End to end, without a purge between the two: what `b` handed up from `a` is frame 1 up to its
   counter, in order and without gaps, a frame twice in a row exactly when a copy of it came early,
   each with the payload sent under its number as the read buffer shows it.
   */
  lemma EndToEnd(ids: set<Str>, actions: seq<Action>, a: Str, b: Str)
    requires forall id :: id in ids ==> |id| == 36
    requires Runnable(Init(ids), actions) && Final(ids, actions).sends <= MAX_FRAME
    requires a in ids && b in ids && (a, b) !in Final(ids, actions).purged
    ensures var s := Final(ids, actions);
            && b in s.hosts
            && var h := s.hosts[b];
               var n := LastFrame(h.listener.peerFrame, a);
            && n <= |Log(s, a, b)|
            && Staircase(FramesFrom(h.handed, a), n)
            && FramesFrom(h.handed, a) == Copies(FramesFrom(h.received, a), n)
            && forall m :: m in h.handed && m.fromUUID == a ==>
                 1 <= m.frame <= |Log(s, a, b)| && m.message == Seen(Log(s, a, b)[m.frame - 1])
  {
    HostInRun(ids, actions, b);
    CopiesExactly(ids, actions, a, b);
    var s := Final(ids, actions);
    var h := s.hosts[b];
    HandedInOrder(h.received, a);
    hide Final, AcceptAll, Seen, Folded, Staircase, FramesFrom, Log, Copies;
    CounterSent(s, a, b, LastFrame(h.listener.peerFrame, a));
    forall m | m in h.handed && m.fromUUID == a
      ensures 1 <= m.frame <= |Log(s, a, b)| && m.message == Seen(Log(s, a, b)[m.frame - 1])
    {
      HandedAreSent(s, a, b, m);
    }
  }

  /** A run hands every frame up once and only once exactly when none of them came early. */
  lemma OnceExactly(ids: set<Str>, actions: seq<Action>, a: Str, b: Str)
    requires forall id :: id in ids ==> |id| == 36
    requires Runnable(Init(ids), actions) && Final(ids, actions).sends <= MAX_FRAME && b in ids && |a| == 36
    ensures b in Final(ids, actions).hosts
    ensures var h := Final(ids, actions).hosts[b];
            var n := LastFrame(h.listener.peerFrame, a);
            (forall f :: 1 <= f <= n ==> !CameEarly(FramesFrom(h.received, a), f))
            <==> FramesFrom(h.handed, a) == UpTo(n)
  {
    HostInRun(ids, actions, b);
    hide Final, AcceptAll, CameEarly;
    HandedOnceIff(Final(ids, actions).hosts[b].received, a);
  }

  /** The payload handed up is the payload sent exactly when what does not fit the buffer is zero. */
  lemma HandedPayload(ids: set<Str>, actions: seq<Action>, a: Str, b: Str, m: Message)
    requires forall id :: id in ids ==> |id| == 36
    requires Runnable(Init(ids), actions) && Final(ids, actions).sends <= MAX_FRAME
    requires a in ids && b in ids && (a, b) !in Final(ids, actions).purged
    requires b in Final(ids, actions).hosts && m in Final(ids, actions).hosts[b].handed && m.fromUUID == a
    ensures 1 <= m.frame <= |Log(Final(ids, actions), a, b)|
    ensures var payload := Log(Final(ids, actions), a, b)[m.frame - 1];
            m.message == payload <==> forall i :: PAYLOAD_ROOM <= i < |payload| ==> payload[i] == 0
  {
    EndToEnd(ids, actions, a, b);
    hide Final, Staircase, Seen;
    PayloadIntact(Log(Final(ids, actions), a, b)[m.frame - 1]);
  }

  /**
   An ack entry that is gone although the peer was never purged means that the peer's listener
   took in that very frame. So a send that ends as acked without a purge was received.
   */
  lemma AckMeansReceived(ids: set<Str>, actions: seq<Action>, a: Str, b: Str, n: nat)
    requires forall id :: id in ids ==> |id| == 36
    requires Runnable(Init(ids), actions) && Final(ids, actions).sends <= MAX_FRAME
    requires a in ids && |b| == 36 && (a, b) !in Final(ids, actions).purged
    requires 1 <= n <= |Log(Final(ids, actions), a, b)|
    requires a in Final(ids, actions).hosts && Key(b, n) !in Final(ids, actions).hosts[a].sender.ackFrame
    ensures var s := Final(ids, actions);
            && b in s.hosts
            && exists r :: r in s.hosts[b].received && r.fromUUID == a && r.toUUID == b && r.frame == n
                           && r.message == Seen(Log(s, a, b)[n - 1])
  {
    RunInv(ids, actions);
    var s := Final(ids, actions);
    PairOf(s, a, b);
    hide Final, Seen;
    assert Got(Received(s, b), a, n);
    var r :| r in Received(s, b) && r.fromUUID == a && r.frame == n;
    assert HostOk(s, b) && ReceivedOk(s, b, r);
  }

  /** How far `b` got with `a`, in terms of the order in which frames came in. */
  lemma ProgressExactly(ids: set<Str>, actions: seq<Action>, a: Str, b: Str, k: nat)
    requires forall id :: id in ids ==> |id| == 36
    requires Runnable(Init(ids), actions) && Final(ids, actions).sends <= MAX_FRAME && b in ids
    ensures var s := Final(ids, actions);
            && b in s.hosts
            && (LastFrame(s.hosts[b].listener.peerFrame, a) >= k
                <==> Subsequence(UpTo(k), FramesFrom(s.hosts[b].received, a)))
  {
    HostInRun(ids, actions, b);
    hide Final, AcceptAll, Subsequence;
    HandedUpExactly(Final(ids, actions).hosts[b].received, a, k);
  }

  /** Everything `b` handed up, from all its peers, follows from what it received and in which order. */
  lemma OutputOfRun(ids: set<Str>, actions: seq<Action>, b: Str)
    requires forall id :: id in ids ==> |id| == 36
    requires Runnable(Init(ids), actions) && Final(ids, actions).sends <= MAX_FRAME && b in ids
    ensures b in Final(ids, actions).hosts
    ensures Final(ids, actions).hosts[b].handed == AllReleased(Final(ids, actions).hosts[b].received)
  {
    HostInRun(ids, actions, b);
    hide Final, AcceptAll, AllReleased;
    HandedMessages(Final(ids, actions).hosts[b].received);
  }

  // ---------------------------------------------------------------------
  // Numbers, buffers and purges
  // ---------------------------------------------------------------------

  function SenderAfter(sender: Sender, a: Action, at: Str): Sender {
    match a
    case Send(x, ip, to, data) => if x == at then AfterRegister(sender, at, ip, to, data) else sender
    case Purge(x, to) => if x == at then AfterPurge(sender, to) else sender
    case _ => sender
  }

  /** What one step does to a sender, acks apart. */
  lemma SenderOfStep(s: System, a: Action, at: Str)
    requires Enabled(s, a) && at in s.hosts
    ensures at in Step(s, a).hosts
    ensures var after, want := Step(s, a).hosts[at].sender, SenderAfter(s.hosts[at].sender, a, at);
            after.peerFrame == want.peerFrame && after.msgBuf == want.msgBuf
  {
    hide AfterRegister, AfterPurge, Opened, Clip, Encoded, Accept;
    if a.Receive? && a.at == at {
      var seen := Opened(Clip(Encoded(a.msg)), a.ip);
      HostAfterCases(at, s.hosts[at], seen);
      hide HostAfter, Handle;
    }
  }

  /** How often `a` sent to `b` since it last gave `b` up, when it was `n` times before. */
  function SentSince(n: nat, actions: seq<Action>, a: Str, b: Str): nat
    decreases |actions|
  {
    if actions == [] then n
    else
      var x := actions[0];
      var next := if x.Send? && x.at == a && x.to == b then n + 1
                  else if x.Purge? && x.at == a && x.to == b then 0
                  else n;
      SentSince(next, actions[1..], a, b)
  }

  lemma CounterStep(sender: Sender, x: Action, a: Str, b: Str, n: nat)
    requires LastFrame(sender.peerFrame, b) == n < MAX_FRAME
    ensures LastFrame(SenderAfter(sender, x, a).peerFrame, b) == SentSince(n, [x], a, b)
  {
    hide Key, Owned;
    assert [x][1..] == [];
  }

  lemma SinceStep(n: nat, actions: seq<Action>, a: Str, b: Str)
    requires actions != []
    ensures SentSince(n, actions, a, b) == SentSince(SentSince(n, [actions[0]], a, b), actions[1..], a, b)
    ensures SentSince(n, [actions[0]], a, b) <= n + 1
  {
    assert [actions[0]][1..] == [];
  }

  lemma SendsStep(s: System, a: Action)
    requires Enabled(s, a)
    ensures Step(s, a).sends == if a.Send? then s.sends + 1 else s.sends
  {
    hide AfterRegister, AfterPurge, HostAfter, Handle;
  }

  lemma {:induction false} CounterIsSentSince(s: System, actions: seq<Action>, a: Str, b: Str, n: nat)
    requires Runnable(s, actions) && a in s.hosts && Exec(s, actions).sends < MAX_FRAME
    requires LastFrame(s.hosts[a].sender.peerFrame, b) == n <= s.sends
    ensures a in Exec(s, actions).hosts
    ensures LastFrame(Exec(s, actions).hosts[a].sender.peerFrame, b) == SentSince(n, actions, a, b)
    decreases |actions|
  {
    hide Step, SenderAfter, LastFrame;
    if actions == [] {
    } else {
      var x, next := actions[0], Step(s, actions[0]);
      SendsGrow(next, actions[1..]);
      SendsStep(s, x);
      SenderOfStep(s, x, a);
      CounterStep(s.hosts[a].sender, x, a, b, n);
      SinceStep(n, actions, a, b);
      SinceBounded(n, x, a, b);
      hide SentSince;
      CounterIsSentSince(next, actions[1..], a, b, SentSince(n, [x], a, b));
    }
  }

  lemma SinceBounded(n: nat, x: Action, a: Str, b: Str)
    ensures SentSince(n, [x], a, b) <= if x.Send? then n + 1 else n
  {
    assert [x][1..] == [];
  }

  /** In every run, the number of the next send from `a` to `b` is one more than those since `a` last gave `b` up. */
  lemma NumberOfSend(ids: set<Str>, actions: seq<Action>, a: Str, b: Str)
    requires Runnable(Init(ids), actions) && a in ids && Final(ids, actions).sends < MAX_FRAME
    ensures a in Final(ids, actions).hosts
    ensures NextFrame(Final(ids, actions).hosts[a].sender, b) == SentSince(0, actions, a, b) + 1
  {
    CounterIsSentSince(Init(ids), actions, a, b, 0);
    RoomForNext(ids, actions, a, b);
    hide Exec, SentSince, Runnable;
  }

  lemma {:induction false} SinceAtMostSends(s: System, actions: seq<Action>, a: Str, b: Str, n: nat)
    requires Runnable(s, actions) && n <= s.sends
    ensures SentSince(n, actions, a, b) <= Exec(s, actions).sends
    decreases |actions|
  {
    hide Step;
    if actions == [] {
    } else {
      SendsStep(s, actions[0]);
      SinceStep(n, actions, a, b);
      SinceBounded(n, actions[0], a, b);
      hide SentSince;
      SinceAtMostSends(Step(s, actions[0]), actions[1..], a, b, SentSince(n, [actions[0]], a, b));
    }
  }

  lemma RoomForNext(ids: set<Str>, actions: seq<Action>, a: Str, b: Str)
    requires Runnable(Init(ids), actions)
    ensures SentSince(0, actions, a, b) <= Final(ids, actions).sends
  {
    SinceAtMostSends(Init(ids), actions, a, b, 0);
  }

  // What a sender keeps

  lemma LogOfStep(s: System, x: Action, a: Str, b: Str)
    requires Enabled(s, x)
    ensures Log(Step(s, x), a, b)
         == if x.Send? && x.at == a && x.to == b then Log(s, a, b) + [x.data] else Log(s, a, b)
    ensures (a, b) in Step(s, x).purged <==> (a, b) in s.purged || x == Purge(a, b)
  {
    hide AfterRegister, AfterPurge, HostAfter, Handle;
  }

  /** Every payload of `log` is buffered under its number, as it was first sent. */
  ghost predicate Kept(msgBuf: map<Str, Message>, a: Str, b: Str, log: seq<Str>) {
    forall i :: 0 <= i < |log| ==> KeptOne(msgBuf, a, b, i + 1, log[i])
  }

  predicate KeptOne(msgBuf: map<Str, Message>, a: Str, b: Str, n: nat, payload: Str) {
    && Key(b, n) in msgBuf
    && var m := msgBuf[Key(b, n)];
    && m.response == 0 && m.tries == 0 && m.frame == n && m.fromUUID == a && m.toUUID == b && m.message == payload
  }

  lemma KeptRegister(sender: Sender, a: Str, ip: Str, to: Str, data: Str, b: Str, log: seq<Str>)
    requires Kept(sender.msgBuf, a, b, log) && |to| == |b|
    requires to == b ==> LastFrame(sender.peerFrame, b) == |log| < MAX_FRAME
    ensures Kept(AfterRegister(sender, a, ip, to, data).msgBuf, a, b, if to == b then log + [data] else log)
  {
    hide Key;
    var next, more := AfterRegister(sender, a, ip, to, data).msgBuf, if to == b then log + [data] else log;
    forall i | 0 <= i < |more|
      ensures KeptOne(next, a, b, i + 1, more[i])
    {
      KeyInjective(b, i + 1, to, NextFrame(sender, to));
      if i < |log| {
        assert KeptOne(sender.msgBuf, a, b, i + 1, log[i]);
      }
    }
  }

  lemma KeptPurge(sender: Sender, a: Str, to: Str, b: Str, log: seq<Str>)
    requires Kept(sender.msgBuf, a, b, log) && |to| == |b| && to != b
    ensures Kept(AfterPurge(sender, to).msgBuf, a, b, log)
  {
    hide Key;
    forall i | 0 <= i < |log|
      ensures KeptOne(AfterPurge(sender, to).msgBuf, a, b, i + 1, log[i])
    {
      assert KeptOne(sender.msgBuf, a, b, i + 1, log[i]);
      PrefixIsOwner(to, b, i + 1);
    }
  }

  lemma KeptStep(s: System, x: Action, a: Str, b: Str)
    requires Inv(s) && Enabled(s, x) && Step(s, x).sends <= MAX_FRAME && a in s.hosts && |b| == 36
    requires (a, b) !in Step(s, x).purged && Kept(s.hosts[a].sender.msgBuf, a, b, Log(s, a, b))
    ensures a in Step(s, x).hosts && Kept(Step(s, x).hosts[a].sender.msgBuf, a, b, Log(Step(s, x), a, b))
  {
    SenderOfStep(s, x, a);
    LogOfStep(s, x, a, b);
    SendsStep(s, x);
    PairOf(s, a, b);
    hide Inv, Step, Kept, Log, AfterRegister, AfterPurge;
    if x.Send? && x.at == a {
      KeptRegister(s.hosts[a].sender, a, x.ip, x.to, x.data, b, Log(s, a, b));
    } else if x.Purge? && x.at == a {
      KeptPurge(s.hosts[a].sender, a, x.to, b, Log(s, a, b));
    }
  }

  lemma {:induction false} KeptAlong(s: System, actions: seq<Action>, a: Str, b: Str)
    requires Inv(s) && Runnable(s, actions) && Exec(s, actions).sends <= MAX_FRAME && a in s.hosts && |b| == 36
    requires (a, b) !in Exec(s, actions).purged && Kept(s.hosts[a].sender.msgBuf, a, b, Log(s, a, b))
    ensures a in Exec(s, actions).hosts
    ensures Kept(Exec(s, actions).hosts[a].sender.msgBuf, a, b, Log(Exec(s, actions), a, b))
    decreases |actions|
  {
    hide Inv, Step, Kept, Log;
    if actions == [] {
    } else {
      var next := Step(s, actions[0]);
      SendsGrow(next, actions[1..]);
      if (a, b) in next.purged {
        PurgedStays(next, actions[1..], a, b);
      }
      StepKeeps(s, actions[0]);
      KeptStep(s, actions[0], a, b);
      KeptAlong(next, actions[1..], a, b);
    }
  }

  lemma {:induction false} PurgedStays(s: System, actions: seq<Action>, a: Str, b: Str)
    requires Runnable(s, actions) && (a, b) in s.purged
    ensures (a, b) in Exec(s, actions).purged
    decreases |actions|
  {
    hide Step;
    if actions == [] {
    } else {
      LogOfStep(s, actions[0], a, b);
      PurgedStays(Step(s, actions[0]), actions[1..], a, b);
    }
  }

  /** Unless it gave `b` up, `a` still buffers everything it ever sent there, acked or not. */
  lemma KeepsEverything(ids: set<Str>, actions: seq<Action>, a: Str, b: Str)
    requires forall id :: id in ids ==> |id| == 36
    requires Runnable(Init(ids), actions) && Final(ids, actions).sends <= MAX_FRAME
    requires a in ids && |b| == 36 && (a, b) !in Final(ids, actions).purged
    ensures a in Final(ids, actions).hosts
    ensures Kept(Final(ids, actions).hosts[a].sender.msgBuf, a, b, Log(Final(ids, actions), a, b))
  {
    assert Inv(Init(ids));
    assert Log(Init(ids), a, b) == [];
    KeptAlong(Init(ids), actions, a, b);
  }

  // What a listener no longer hears

  lemma ReceivedStep(s: System, x: Action, b: Str)
    requires Enabled(s, x) && b in s.hosts
    ensures b in Step(s, x).hosts && s.hosts[b].received <= Step(s, x).hosts[b].received
  {
    hide AfterRegister, AfterPurge, Opened, Clip, Encoded;
    if x.Receive? && x.at == b {
      HostNeverForgets(b, s.hosts[b], Opened(Clip(Encoded(x.msg)), x.ip));
    }
    hide HostAfter, Handle;
  }

  lemma {:induction false} ReceivedAlong(s: System, actions: seq<Action>, b: Str)
    requires Runnable(s, actions) && b in s.hosts
    ensures b in Exec(s, actions).hosts && s.hosts[b].received <= Exec(s, actions).hosts[b].received
    decreases |actions|
  {
    hide Step;
    if actions == [] {
    } else {
      ReceivedStep(s, actions[0], b);
      ReceivedAlong(Step(s, actions[0]), actions[1..], b);
    }
  }

  lemma FoldedHost(s: System, b: Str)
    requires Inv(s) && b in s.hosts && s.sends <= MAX_FRAME
    ensures Folded(s, b)
  {
    hide AcceptAll, SenderOk, Carries;
    assert HostOk(s, b);
  }

  /**
   However a run goes on, purges included, `b` hands up nothing more from `a` under a number its
   counter has passed: what `a` sends after giving `b` up is lost until its new numbers get there.
   */
  lemma PassedNumbersAreLost(ids: set<Str>, actions: seq<Action>, more: seq<Action>, a: Str, b: Str)
    returns (extra: seq<Message>)
    requires forall id :: id in ids ==> |id| == 36
    requires Runnable(Init(ids), actions) && Runnable(Final(ids, actions), more) && b in ids
    requires Exec(Final(ids, actions), more).sends <= MAX_FRAME
    ensures b in Final(ids, actions).hosts && b in Exec(Final(ids, actions), more).hosts
    ensures Exec(Final(ids, actions), more).hosts[b].handed == Final(ids, actions).hosts[b].handed + extra
    ensures forall f :: f in FramesFrom(extra, a) ==> f > LastFrame(Final(ids, actions).hosts[b].listener.peerFrame, a)
  {
    hide Inv, FramesFrom, AcceptAll;
    var s := Final(ids, actions);
    SendsGrow(s, more);
    RunInv(ids, actions);
    HostsOfInit(ids, actions);
    ExecInv(s, more);
    var s' := Exec(s, more);
    ReceivedAlong(s, more, b);
    FoldedHost(s, b);
    FoldedHost(s', b);
    hide Exec, Final, Runnable;
    var before, after := s.hosts[b].received, s'.hosts[b].received;
    assert after == before + after[|before|..];
    extra := OldNumbersSilent(before, after[|before|..], a);
  }
}
