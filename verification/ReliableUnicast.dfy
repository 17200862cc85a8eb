// server/unicast/unicast.go: the listener and the sender of a node.
module ReliableUnicast {
  import opened Bytes
  import opened FrameKeys
  import opened UnicastFraming

  // =====================================================================
  // Listener
  // =====================================================================

  datatype Listener = Listener(peerFrame: map<Str, U64>, msgBuf: map<Str, Message>)

  function LastFrame(peerFrame: map<Str, U64>, id: Str): U64 {
    if id in peerFrame then peerFrame[id] else 0
  }

  /** The state after a data frame and the messages handed up for it, in order. */
  datatype Accepted = Accepted(state: Listener, handed: seq<Message>)

  /**
   A frame ahead of its turn is buffered, one behind is discarded. The frame whose turn it is
   is handed up; the drain that follows looks for the same frame number, so what it can find
   is a buffered copy of that very frame.
   */
  function Accept(l: Listener, msg: Message): Accepted {
    var last := LastFrame(l.peerFrame, msg.fromUUID);
    var known := l.peerFrame[msg.fromUUID := last];
    var key := Key(msg.fromUUID, msg.frame);
    if msg.frame > Inc64(last) then Accepted(Listener(known, l.msgBuf[key := msg]), [])
    else if msg.frame < Inc64(last) then Accepted(Listener(known, l.msgBuf), [])
    else
      var next := known[msg.fromUUID := Inc64(last)];
      if key in l.msgBuf then Accepted(Listener(next, l.msgBuf - {key}), [msg, l.msgBuf[key]])
      else Accepted(Listener(next, l.msgBuf), [msg])
  }

  /** The ack for a data frame, sent whether or not the frame is accepted. */
  function AckFor(uuid: Str, msg: Message): Message {
    Message(1, msg.frame, msg.tries, uuid, msg.fromUUID, msg.ip, [])
  }

  /** What one datagram does: the frame logic's result, keys acked to us, acks to send. */
  datatype Handled = Handled(accepted: Accepted, acked: seq<Str>, acks: seq<Message>)

  function Handle(uuid: Str, l: Listener, msg: Message): Handled {
    if msg.toUUID != uuid then Handled(Accepted(l, []), [], [])
    else if msg.response == 1 then Handled(Accepted(l, []), [Key(msg.fromUUID, msg.frame)], [])
    else Handled(Accept(l, msg), [], [AckFor(uuid, msg)])
  }

  /** A datagram that does not decode leaves a blank message behind. */
  function Opened(data: Str, ip: Str): Message {
    match Decoded(data, ip)
    case Ok(msg) => msg
    case Err => BLANK
  }

  class ReliableListener {
    const uuid: Str
    var peerFrame: map<Str, U64>
    var msgBuf: map<Str, Message>
    // Channels: to the application, to the ack listener for acks received, for acks to send.
    var msgChan: seq<Message>
    var sAckChan: seq<Str>
    var lAckChan: seq<Message>

    function State(): Listener
      reads this
    {
      Listener(peerFrame, msgBuf)
    }

    constructor (uuid: Str)
      ensures this.uuid == uuid && State() == Listener(map[], map[])
      ensures msgChan == [] && sAckChan == [] && lAckChan == []
    {
      this.uuid := uuid;
      peerFrame, msgBuf := map[], map[];
      msgChan, sAckChan, lAckChan := [], [], [];
    }

    /** One turn of the receive loop. */
    method OnDatagram(data: Str, ip: Str)
      modifies this
      ensures var h := Handle(uuid, old(State()), Opened(Clip(data), ip));
              && State() == h.accepted.state
              && msgChan == old(msgChan) + h.accepted.handed
              && sAckChan == old(sAckChan) + h.acked
              && lAckChan == old(lAckChan) + h.acks
    {
      var decoded := Decode(Clip(data), ip);
      var msg := if decoded.Ok? then decoded.value else BLANK;
      if msg.toUUID != uuid {
        return;
      }
      if msg.response == 1 {
        sAckChan := sAckChan + [Key(msg.fromUUID, msg.frame)];
        return;
      }
      lAckChan := lAckChan + [Message(1, msg.frame, msg.tries, uuid, msg.fromUUID, msg.ip, [])];
      OnFrame(msg);
    }

    /** The locked part: frame numbers, buffer and hand-over. */
    method OnFrame(msg: Message)
      modifies `peerFrame, `msgBuf, `msgChan
      ensures var r := Accept(old(State()), msg);
              State() == r.state && msgChan == old(msgChan) + r.handed
    {
      hide Key;
      var msgIndex := Key(msg.fromUUID, msg.frame);
      var lastAckFrame := if msg.fromUUID in peerFrame then peerFrame[msg.fromUUID] else 0;
      if msg.fromUUID !in peerFrame {
        peerFrame := peerFrame[msg.fromUUID := 0];
      }
      if msg.frame > Inc64(lastAckFrame) {
        msgBuf := msgBuf[msgIndex := msg];
        return;
      }
      if msg.frame < Inc64(lastAckFrame) {
        return;
      }
      peerFrame := peerFrame[msg.fromUUID := Inc64(peerFrame[msg.fromUUID])];
      msgChan := msgChan + [msg];
      ghost var pf, buf, chan := peerFrame, msgBuf, msgChan;
      if |msgBuf| > 0 {
        while true
          invariant peerFrame == pf
          invariant
            || (msgBuf == buf && msgChan == chan)
            || (msgIndex in buf && msgBuf == buf - {msgIndex} && msgChan == chan + [buf[msgIndex]])
          invariant msgIndex == Key(msg.fromUUID, pf[msg.fromUUID])
          decreases |msgBuf|
        {
          msgIndex := Key(msg.fromUUID, peerFrame[msg.fromUUID]);
          if msgIndex !in msgBuf {
            break;
          }
          var m := msgBuf[msgIndex];
          msgBuf := msgBuf - {msgIndex};
          msgChan := msgChan + [m];
        }
      }
    }
  }

  // =====================================================================
  // Sender
  // =====================================================================

  datatype Sender = Sender(peerFrame: map<Str, U64>, msgBuf: map<Str, Message>, ackFrame: map<Str, bool>)

  /** The frame that the next send to `id` takes. */
  function NextFrame(s: Sender, id: Str): U64 { Inc64(LastFrame(s.peerFrame, id)) }

  function DataFrame(uuid: Str, frame: U64, ip: Str, id: Str, data: Str): Message {
    Message(0, frame, 0, uuid, id, ip, data)
  }

  function AfterRegister(s: Sender, uuid: Str, ip: Str, id: Str, data: Str): Sender {
    var frame := NextFrame(s, id);
    var key := Key(id, frame);
    Sender(s.peerFrame[id := frame], s.msgBuf[key := DataFrame(uuid, frame, ip, id, data)], s.ackFrame[key := false])
  }

  function AfterAck(s: Sender, key: Str): Sender { s.(ackFrame := s.ackFrame - {key}) }

  /** The ack entries that a purge of `id` finds: all keys that start with it. */
  function Owned(ackFrame: map<Str, bool>, id: Str): set<Str> {
    set key | key in ackFrame && id <= key
  }

  function AfterPurge(s: Sender, id: Str): Sender {
    var gone := Owned(s.ackFrame, id);
    Sender(s.peerFrame - {id}, s.msgBuf - gone, s.ackFrame - gone)
  }

  /** An ack removes its own entry and no other, when ids have one length. */
  lemma AckClearsOnlyItsFrame(s: Sender, id: Str, frame: nat, id': Str, frame': nat)
    requires |id| == |id'| && Key(id', frame') in s.ackFrame
    ensures Key(id', frame') !in AfterAck(s, Key(id, frame)).ackFrame <==> id == id' && frame == frame'
  {
    KeyInjective(id, frame, id', frame');
  }

  /** A purge removes every entry of the dead peer and none of any other, when ids have one length. */
  lemma PurgeRemovesExactlyDead(s: Sender, id: Str, id': Str, frame: nat)
    requires |id| == |id'| && Key(id', frame) in s.ackFrame
    ensures Key(id', frame) !in AfterPurge(s, id).ackFrame <==> id == id'
    ensures id != id' ==> AfterPurge(s, id).ackFrame[Key(id', frame)] == s.ackFrame[Key(id', frame)]
    ensures id != id' ==> LastFrame(AfterPurge(s, id).peerFrame, id') == LastFrame(s.peerFrame, id')
  {
    PrefixIsOwner(id, id', frame);
  }

  /** After a purge the peer's numbers start over at 1. */
  lemma PurgeRestarts(s: Sender, id: Str)
    ensures NextFrame(AfterPurge(s, id), id) == 1
  {
  }

  /** A purge frees the buffered message of an entry that it clears; what was acked before stays for good. */
  lemma PurgeKeepsAcked(s: Sender, id: Str, id': Str, frame: nat)
    requires |id| == |id'| && Key(id', frame) in s.msgBuf
    ensures Key(id', frame) in AfterPurge(s, id).msgBuf <==> id != id' || Key(id, frame) !in s.ackFrame
    ensures Key(id', frame) in AfterPurge(s, id).msgBuf ==>
              AfterPurge(s, id).msgBuf[Key(id', frame)] == s.msgBuf[Key(id', frame)]
  {
    PrefixIsOwner(id, id', frame);
    hide Key;
  }

  /**
   The ack of a data frame goes back to the address the frame came from, under its Tries, and at
   the sender it clears the entry of that very frame.
   */
  lemma AckComesBack(m: Message, ip: Str, ip': Str, lb: Listener, la: Listener)
    requires m.response == 0 && |m.fromUUID| == |m.toUUID| == 36 && 0 < |m.message| < TWO_64
    ensures var acks := Handle(m.toUUID, lb, Opened(Clip(Encoded(m)), ip)).acks;
            && |acks| == 1 && acks[0].ip == ip && acks[0].tries == m.tries
            && Handle(m.fromUUID, la, Opened(Clip(Encoded(acks[0])), ip'))
               == Handled(Accepted(la, []), [Key(m.toUUID, m.frame)], [])
  {
    ReceiveClipped(m, ip);
    hide Decoded, Key, Encoded, Accept, Seen;
    var ack := AckFor(m.toUUID, m.(ip := ip, message := Seen(m.message)));
    assert Handle(m.toUUID, lb, Opened(Clip(Encoded(m)), ip)).acks == [ack];
    DecodeEncoded(ack, ip');
    PayloadLayout(ack);
  }

  // =====================================================================
  // Retransmission
  // =====================================================================

  const LAST_TRY := 20

  // What becomes of a send: the ack entry was gone, the peer was given up, or decoding
  // the own datagram failed and the process panicked.
  datatype Outcome = Acked | GivenUp | Panicked

  /**
   How the retry loop ends from try `n` on and how many datagrams it has put out, given which
   writes succeed and at which checks the ack entry is gone.
   */
  function Attempts(n: nat, payload: Str, writes: nat -> bool, gone: nat -> bool): (Outcome, nat)
    requires n <= LAST_TRY
    decreases LAST_TRY - n
  {
    if !writes(n) then (GivenUp, n)
    else if gone(n) then (Acked, n + 1)
    else if payload == [] then (Panicked, n + 1)
    else if n == LAST_TRY then (GivenUp, n + 1)
    else Attempts(n + 1, payload, writes, gone)
  }

  /**
   At most 21 datagrams go out. An acked send stops at the first check that finds the entry gone;
   a send is given up after a failed write or the 21st unanswered try; only an empty payload panics.
   */
  lemma {:induction false} AttemptsEnd(n: nat, payload: Str, writes: nat -> bool, gone: nat -> bool)
    requires n <= LAST_TRY
    ensures var (outcome, count) := Attempts(n, payload, writes, gone);
            && n <= count <= 21
            && (forall k :: n <= k < count - 1 ==> writes(k) && !gone(k))
            && match outcome
               case Acked => n < count && writes(count - 1) && gone(count - 1)
               case GivenUp => if count <= 20 then !writes(count) else writes(20) && !gone(20)
               case Panicked => count == n + 1
    ensures Attempts(n, payload, writes, gone).0 == Panicked <==> payload == [] && writes(n) && !gone(n)
    decreases LAST_TRY - n
  {
    if writes(n) && !gone(n) && payload != [] && n < LAST_TRY {
      AttemptsEnd(n + 1, payload, writes, gone);
    }
  }

  /** Decoding one's own data frame fails exactly for an empty payload. */
  lemma EmptyPanics(m: Message, ip: Str)
    requires m.response == 0 && |m.message| < TWO_64
    ensures Decoded(Encoded(m), ip).Err? <==> m.message == []
  {
    hide Encoded, Decoded;
    DecodeEncoded(m, ip);
  }

  /** Decoding, counting up and encoding again turns one try's datagram into the next one's. */
  lemma NextTry(m: Message, ip: Str, n: nat)
    requires m.response == 0 && |m.message| < TWO_64 && n <= LAST_TRY
    ensures var d := Decoded(Encoded(m.(tries := n)), ip);
            && (d.Err? <==> m.message == [])
            && (d.Ok? ==> d.value.tries == n && Encoded(d.value.(tries := n + 1)) == Encoded(m.(tries := n + 1)))
  {
    hide Encoded, Decoded;
    var m' := m.(tries := n);
    EmptyPanics(m', ip);
    if m.message != [] {
      Reencoded(m', ip, n + 1);
    }
  }

  /**
   The loop of send, with the outcome of writes and ack checks supplied from outside.
   Every datagram is the first one with another Tries byte.
   */
  method RetryLoop(encoded: Str, ip: Str, writes: nat -> bool, gone: nat -> bool, ghost m: Message)
    returns (outcome: Outcome, wire: seq<Str>)
    requires m.response == 0 && m.tries == 0 && |m.message| < TWO_64 && encoded == Encoded(m)
    ensures (outcome, |wire|) == Attempts(0, m.message, writes, gone)
    ensures |wire| <= 21
    ensures forall n :: 0 <= n < |wire| ==> wire[n] == encoded[TRIES_AT := n]
  {
    hide Encoded, Decoded;
    assert m == m.(tries := 0);
    var encodedData := encoded;
    wire := [];
    TriesByte(m, 0);
    while true
      invariant |wire| <= LAST_TRY
      invariant encodedData == Encoded(m.(tries := |wire|))
      invariant Attempts(0, m.message, writes, gone) == Attempts(|wire|, m.message, writes, gone)
      invariant forall n :: 0 <= n < |wire| ==> wire[n] == encoded[TRIES_AT := n]
      decreases LAST_TRY - |wire|
    {
      var n := |wire|;
      if !writes(n) {
        return GivenUp, wire;
      }
      TriesByte(m, n);
      wire := wire + [encodedData];
      if gone(n) {
        return Acked, wire;
      }
      NextTry(m, ip, n);
      var decodedData := Decode(encodedData, ip);
      if decodedData.Err? {
        return Panicked, wire;
      }
      if decodedData.value.tries == LAST_TRY {
        return GivenUp, wire;
      }
      encodedData := Encode(decodedData.value.(tries := decodedData.value.tries + 1));
    }
  }

  // =====================================================================
  // The sender's object
  // =====================================================================

  class ReliableSender {
    const uuid: Str
    var peerFrame: map<Str, U64>
    var msgBuf: map<Str, Message>
    var ackFrame: map<Str, bool>

    function State(): Sender
      reads this
    {
      Sender(peerFrame, msgBuf, ackFrame)
    }

    constructor (uuid: Str)
      ensures this.uuid == uuid && State() == Sender(map[], map[], map[])
    {
      this.uuid := uuid;
      peerFrame, msgBuf, ackFrame := map[], map[], map[];
    }

    /** The first locked part of send: number the message and await its ack. */
    method Register(ip: Str, id: Str, data: Str) returns (msgIndex: Str, encodedData: Str)
      modifies this
      ensures State() == AfterRegister(old(State()), uuid, ip, id, data)
      ensures msgIndex == Key(id, NextFrame(old(State()), id))
      ensures encodedData == Encoded(DataFrame(uuid, NextFrame(old(State()), id), ip, id, data))
    {
      if id !in peerFrame {
        peerFrame := peerFrame[id := 0];
      }
      peerFrame := peerFrame[id := Inc64(peerFrame[id])];
      var currFrame := peerFrame[id];
      msgIndex := Key(id, currFrame);
      msgBuf := msgBuf[msgIndex := Message(0, currFrame, 0, uuid, id, ip, data)];
      encodedData := Encode(msgBuf[msgIndex]);
      ackFrame := ackFrame[msgIndex := false];
    }

    method OnAck(key: Str)
      modifies this
      ensures State() == AfterAck(old(State()), key)
    {
      ackFrame := ackFrame - {key};
    }

    method HandleDeadNode(id: Str)
      modifies this
      ensures State() == AfterPurge(old(State()), id)
    {
      peerFrame := peerFrame - {id};
      var left := ackFrame.Keys;
      ghost var gone: set<Str> := {};
      while left != {}
        invariant peerFrame == old(peerFrame) - {id}
        invariant left <= old(ackFrame).Keys
        invariant gone == set key | key in old(ackFrame) && key !in left && id <= key
        invariant ackFrame == old(ackFrame) - gone && msgBuf == old(msgBuf) - gone
      {
        var msgIndex :| msgIndex in left;
        left := left - {msgIndex};
        if id <= msgIndex {
          ackFrame := ackFrame - {msgIndex};
          msgBuf := msgBuf - {msgIndex};
          gone := gone + {msgIndex};
        }
      }
      assert gone == Owned(old(ackFrame), id);
    }

    /**
     A whole send, with no other operation of this sender in between but the ack that makes the
     entry go. The datagrams on the wire carry Tries 0, 1, ... in byte 9.
     */
    method Send(ip: Str, id: Str, data: Str, writes: nat -> bool, gone: nat -> bool)
      returns (outcome: Outcome, wire: seq<Str>)
      requires |data| < TWO_64
      modifies this
      ensures var frame := NextFrame(old(State()), id);
              var after := AfterRegister(old(State()), uuid, ip, id, data);
              && (outcome, |wire|) == Attempts(0, data, writes, gone) && |wire| <= 21
              && (forall n :: 0 <= n < |wire| ==> wire[n] == Encoded(DataFrame(uuid, frame, ip, id, data).(tries := n)))
              && (forall n :: 0 <= n < |wire| ==> |wire[n]| > 9 && wire[n][9] == n)
              && State() == match outcome
                            case Acked => AfterAck(after, Key(id, frame))
                            case GivenUp => AfterPurge(after, id)
                            case Panicked => after
    {
      hide Key, Encoded, Attempts, Owned;
      ghost var m := DataFrame(uuid, NextFrame(State(), id), ip, id, data);
      var msgIndex, encodedData := Register(ip, id, data);
      outcome, wire := RetryLoop(encodedData, ip, writes, gone, m);
      forall n | 0 <= n < |wire|
        ensures wire[n] == Encoded(m.(tries := n)) && |wire[n]| > 9 && wire[n][9] == n
      {
        TriesByte(m, n);
        HeaderLayout(m.(tries := n));
      }
      match outcome {
        case Acked => OnAck(msgIndex);
        case GivenUp => HandleDeadNode(id);
        case Panicked =>
      }
    }
  }
}
