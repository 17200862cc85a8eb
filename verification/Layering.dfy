// An application message inside a unicast frame: sizes, and the way through both decoders.
module Layering {
  import opened Bytes
  import MessageCodec
  import UnicastFraming

  // ---------------------------------------------------------------------
  // Sizes
  // ---------------------------------------------------------------------

  /** Bytes taken by the member entries from `index` on: lengths, ids, ips and clocks. */
  function MembersSize(m: MessageCodec.Message, index: nat): nat
    requires index <= |m.peerIds| <= |m.peerIps|
    decreases |m.peerIds| - index
  {
    if index == |m.peerIds| then 0
    else 12 + |m.peerIds[index]| + |m.peerIps[index]| + MembersSize(m, index + 1)
  }

  lemma {:induction false} EntriesSize(m: MessageCodec.Message, index: nat)
    requires index <= |m.peerIds| <= |m.peerIps| && |m.peerIds| <= |m.clock|
    ensures |MessageCodec.Entries(m, index)| == MembersSize(m, index)
    decreases |m.peerIds| - index
  {
    if index == |m.peerIds| {
    } else {
      EntriesSize(m, index + 1);
    }
  }

  /** The frame in which `m` travels. */
  function Frame(m: MessageCodec.Message, frame: U64, tries: Byte, fromId: Str, toId: Str): UnicastFraming.Message
    requires MessageCodec.Encodable(m)
  {
    UnicastFraming.Message(0, frame, tries, fromId, toId, [], MessageCodec.Encoded(m))
  }

  function Datagram(m: MessageCodec.Message, frame: U64, tries: Byte, fromId: Str, toId: Str): Str
    requires MessageCodec.Encodable(m)
  {
    UnicastFraming.Encoded(Frame(m, frame, tries, fromId, toId))
  }

  lemma DatagramSize(m: MessageCodec.Message, frame: U64, tries: Byte, fromId: Str, toId: Str)
    requires MessageCodec.ListsMembers(m.kind) && MessageCodec.Encodable(m)
    ensures |Datagram(m, frame, tries, fromId, toId)| == 99 + MembersSize(m, 0)
  {
    EntriesSize(m, 0);
  }

  /** A member list of `n` entries with 36-byte ids and dotted IPv4 addresses. */
  predicate Roster(m: MessageCodec.Message, n: nat) {
    && MessageCodec.ListsMembers(m.kind) && |m.peerIds| == |m.peerIps| == |m.clock| == n
    && forall i :: 0 <= i < n ==> |m.peerIds[i]| == 36 && |m.peerIps[i]| <= 15
  }

  lemma {:induction false} RosterSize(m: MessageCodec.Message, n: nat, index: nat)
    requires Roster(m, n) && index <= n
    ensures MembersSize(m, index) <= 63 * (n - index)
    ensures (forall i :: 0 <= i < n ==> |m.peerIps[i]| == 15) ==> MembersSize(m, index) == 63 * (n - index)
    decreases n - index
  {
    if index == n {
    } else {
      RosterSize(m, n, index + 1);
    }
  }

  /** Every member list of `n` nodes fits the listener's read buffer. */
  ghost predicate AllRostersFit(n: nat) {
    forall m :: Roster(m, n) ==> 99 + MembersSize(m, 0) <= READ_BUFFER
  }

  /** Fourteen members is the most that is sure to fit. */
  lemma FourteenMembersFit(n: nat)
    ensures AllRostersFit(n) <==> n <= 14
  {
    if n <= 14 {
      forall m | Roster(m, n)
        ensures 99 + MembersSize(m, 0) <= READ_BUFFER
      {
        RosterSize(m, n, 0);
      }
    } else {
      var m := MessageCodec.Bare(MessageCodec.PEER_INFO).(
        peerIds := seq(n, _ => Zeros(36)), peerIps := seq(n, _ => Zeros(15)), clock := seq(n, _ => 0));
      assert Roster(m, n);
      RosterSize(m, n, 0);
    }
  }

  // ---------------------------------------------------------------------
  // Through both decoders
  // ---------------------------------------------------------------------

  /** What the far side makes of `m`: read buffer, frame decoder, message decoder. */
  function Received(m: MessageCodec.Message, frame: U64, tries: Byte, fromId: Str, toId: Str, ip: Str)
    : Result<MessageCodec.Message>
    requires MessageCodec.Encodable(m)
  {
    match UnicastFraming.Decoded(Clip(Datagram(m, frame, tries, fromId, toId)), ip)
    case Ok(u) => MessageCodec.Decoded(u.message)
    case Err => Err
  }

  /** A message of any type whose datagram fits the buffer comes back exactly when its encoding round-trips. */
  lemma LayeredRoundTrip(m: MessageCodec.Message, frame: U64, tries: Byte, fromId: Str, toId: Str, ip: Str)
    requires MessageCodec.Encodable(m)
    requires |Datagram(m, frame, tries, fromId, toId)| <= READ_BUFFER
    ensures Received(m, frame, tries, fromId, toId, ip) == Ok(MessageCodec.Carried(m)) <==> MessageCodec.Survives(m)
  {
    UnicastFraming.ReceiveClipped(Frame(m, frame, tries, fromId, toId), ip);
    MessageCodec.RoundTrip(m);
  }

  lemma RosterSurvives(m: MessageCodec.Message, n: nat)
    requires Roster(m, n) && n <= 14
    ensures MessageCodec.ListsMembers(m.kind) && MessageCodec.Encodable(m) && MessageCodec.Survives(m)
  {
  }

  /** A member list of at most fourteen nodes reaches a joining node unchanged. */
  lemma RosterArrives(m: MessageCodec.Message, n: nat, frame: U64, tries: Byte, fromId: Str, toId: Str, ip: Str)
    requires Roster(m, n) && n <= 14
    ensures Received(m, frame, tries, fromId, toId, ip) == Ok(MessageCodec.Carried(m))
  {
    RosterSurvives(m, n);
    hide Datagram, Received, MembersSize, Roster, MessageCodec.Encoded, MessageCodec.Carried, MessageCodec.Survives;
    RosterSize(m, n, 0);
    DatagramSize(m, frame, tries, fromId, toId);
    LayeredRoundTrip(m, frame, tries, fromId, toId, ip);
  }
}
