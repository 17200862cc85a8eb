// server/message/message.go: the application messages and their wire form.
module MessageCodec {
  import opened Bytes

  const CONNECT_TO_LEADER: Byte := 0
  const ELECTION: Byte := 1
  const ELECTION_ALIVE: Byte := 2
  const ELECTION_VICTORY: Byte := 3
  const HEARTBEAT: Byte := 4
  const APPLICATION: Byte := 5
  const DEAD_NODE: Byte := 6
  const NEW_NODE: Byte := 7
  const PEER_INFO: Byte := 8
  const MULTICAST_SESSION_CHANGE: Byte := 9
  const MULTICAST_ACK: Byte := 10

  datatype Message = Message(
    kind: Byte,
    uuid: Str,
    ip: Str,
    frame: U32,
    msg: Str,
    peerIds: seq<Str>,
    peerIps: seq<Str>,
    multicastPort: U32,
    clock: seq<U32>,
    oldLeaderID: Str)

  /** The zero value of the struct, apart from its type. */
  function Bare(kind: Byte): Message {
    Message(kind, [], [], 0, [], [], [], 0, [], [])
  }

  predicate IsSignal(kind: Byte) {
    kind == CONNECT_TO_LEADER || kind == ELECTION || kind == ELECTION_ALIVE || kind == HEARTBEAT
  }

  predicate NamesNode(kind: Byte) { kind == DEAD_NODE || kind == NEW_NODE }

  predicate ListsMembers(kind: Byte) { kind == MULTICAST_SESSION_CHANGE || kind == PEER_INFO }

  // ---------------------------------------------------------------------
  // Wire form
  // ---------------------------------------------------------------------

  /** A length-prefixed field; the length is cut to 32 bits. */
  function Block(s: Str): (r: Str)
    ensures |r| == 4 + |s|
  {
    Put32(Low32(|s|)) + s
  }

  /** Encoding indexes PeerIps and Clock by the positions of PeerIds and panics if either is shorter. */
  predicate Encodable(m: Message) {
    ListsMembers(m.kind) ==> |m.peerIds| <= |m.peerIps| && |m.peerIds| <= |m.clock|
  }

  function Entry(m: Message, index: nat): Str
    requires index < |m.peerIds| <= |m.peerIps| && |m.peerIds| <= |m.clock|
  {
    Block(m.peerIds[index]) + Block(m.peerIps[index]) + Put32(m.clock[index])
  }

  /** The member entries from position `index` on. */
  function Entries(m: Message, index: nat): Str
    requires index <= |m.peerIds| <= |m.peerIps| && |m.peerIds| <= |m.clock|
    decreases |m.peerIds| - index
  {
    if index == |m.peerIds| then [] else Entry(m, index) + Entries(m, index + 1)
  }

  function Encoded(m: Message): Str
    requires Encodable(m)
  {
    if IsSignal(m.kind) then [m.kind]
    else if m.kind == MULTICAST_ACK then [m.kind] + Put32(m.frame) + m.msg
    else if m.kind == APPLICATION then [m.kind] + Block(m.msg)
    else if NamesNode(m.kind) then [m.kind] + Block(m.uuid) + Block(m.ip)
    else if ListsMembers(m.kind) then
      [m.kind] + Put32(Low32(|m.peerIds|)) + Entries(m, 0) + Put32(m.multicastPort)
    else [m.kind]
  }

  lemma NoEntries(m: Message)
    requires |m.peerIds| <= |m.peerIps| && |m.peerIds| <= |m.clock|
    ensures Entries(m, |m.peerIds|) == []
  {
  }

  /** One turn of the member loop. */
  lemma EntryWritten(m: Message, index: nat, buf: Str)
    requires index < |m.peerIds| <= |m.peerIps| && |m.peerIds| <= |m.clock|
    ensures buf + Entries(m, index)
         == buf + Block(m.peerIds[index]) + Block(m.peerIps[index]) + Put32(m.clock[index]) + Entries(m, index + 1)
  {
    hide Block, Put32;
    var id, ip, c := Block(m.peerIds[index]), Block(m.peerIps[index]), Put32(m.clock[index]);
    Assoc(buf, Entry(m, index), Entries(m, index + 1));
    Assoc(buf, id + ip, c);
    Assoc(buf, id, ip);
  }

  method Encode(m: Message) returns (buf: Str)
    requires Encodable(m)
    ensures buf == Encoded(m)
  {
    hide Block, Put32, Entries;
    buf := [m.kind];
    if IsSignal(m.kind) {
      return;
    }
    if m.kind == MULTICAST_ACK {
      buf := buf + Put32(m.frame);
      buf := buf + m.msg;
      return;
    }
    if m.kind == APPLICATION {
      buf := buf + Block(m.msg);
      return;
    }
    if NamesNode(m.kind) {
      buf := buf + Block(m.uuid);
      buf := buf + Block(m.ip);
    }
    if m.kind == ELECTION_VICTORY {
      return;
    }
    if ListsMembers(m.kind) {
      buf := buf + Put32(Low32(|m.peerIds|));
      ghost var all := buf + Entries(m, 0);
      var index := 0;
      while index < |m.peerIds|
        invariant index <= |m.peerIds|
        invariant buf + Entries(m, index) == all
      {
        EntryWritten(m, index, buf);
        buf := buf + Block(m.peerIds[index]);
        buf := buf + Block(m.peerIps[index]);
        buf := buf + Put32(m.clock[index]);
        index := index + 1;
      }
      NoEntries(m);
      assert buf == all;
      buf := buf + Put32(m.multicastPort);
    }
  }

  // ---------------------------------------------------------------------
  // Decoding
  // ---------------------------------------------------------------------

  datatype Members = Members(ids: seq<Str>, ips: seq<Str>, clocks: seq<U32>)

  function DecodedBlock(rest: Str): (r: Parse<Str>)
    ensures r.Got? ==> |r.value| < TWO_32
  {
    var (n, r1) :- Get32(rest);
    ReadInto(r1, Zeros(n))
  }

  function DecodedMember(rest: Str): (r: Parse<(Str, Str, U32)>)
    ensures r.Got? ==> |r.value.0| < TWO_32 && |r.value.1| < TWO_32
  {
    var (id, r1) :- DecodedBlock(rest);
    var (ip, r2) :- DecodedBlock(r1);
    var (c, r3) :- Get32(r2);
    Got((id, ip, c), r3)
  }

  function DecodedMembers(rest: Str, n: nat): (r: Parse<Members>)
    ensures r.Got? ==> |r.value.ids| == |r.value.ips| == |r.value.clocks| == n
    ensures r.Got? ==> forall i :: 0 <= i < n ==> |r.value.ids[i]| < TWO_32 && |r.value.ips[i]| < TWO_32
  {
    if n == 0 then Got(Members([], [], []), rest)
    else
      var (m, r1) :- DecodedMember(rest);
      var (tail, r2) :- DecodedMembers(r1, n - 1);
      Got(Members([m.0] + tail.ids, [m.1] + tail.ips, [m.2] + tail.clocks), r2)
  }

  function Complete(r: Parse<Message>): Result<Message> {
    if r.Got? then Ok(r.value) else Err
  }

  function DecodedFields(kind: Byte, rest: Str): Parse<Message> {
    if IsSignal(kind) then Got(Bare(kind), rest)
    else if kind == MULTICAST_ACK then
      var (frame, r1) :- Get32(rest);
      Got(Bare(kind).(frame := frame), r1)
    else if kind == APPLICATION then
      var (msg, r1) :- DecodedBlock(rest);
      Got(Bare(kind).(msg := msg), r1)
    else if NamesNode(kind) then
      var (uuid, r1) :- DecodedBlock(rest);
      var (ip, r2) :- DecodedBlock(r1);
      Got(Bare(kind).(uuid := uuid, ip := ip), r2)
    else if ListsMembers(kind) then
      var (count, r1) :- Get32(rest);
      var (ms, r2) :- DecodedMembers(r1, count);
      var (port, r3) :- Get32(r2);
      Got(Bare(kind).(peerIds := ms.ids, peerIps := ms.ips, clock := ms.clocks, multicastPort := port), r3)
    else Got(Bare(kind), rest)
  }

  /** What `Decode` returns: trailing bytes are ignored. */
  function Decoded(data: Str): Result<Message> {
    if data == [] then Err else Complete(DecodedFields(data[0], data[1..]))
  }

  method DecodeBlock(reader: Reader) returns (ok: bool, s: Str)
    requires reader.Valid()
    modifies reader
    ensures reader.Valid()
    ensures ok == DecodedBlock(old(reader.Rest())).Got?
    ensures ok ==> DecodedBlock(old(reader.Rest())) == Got(s, reader.Rest())
  {
    var n: U32;
    s := [];
    ok, n := reader.ReadUint32();
    if ok {
      ok, s := reader.Read(Zeros(n));
    }
  }

  method Decode(data: Str) returns (r: Result<Message>)
    ensures r == Decoded(data)
  {
    var reader := new Reader(data);
    var ok, kind := reader.ReadByte();
    if !ok {
      return Err;
    }
    var msg := Bare(kind);
    if IsSignal(kind) {
      return Ok(msg);
    }
    if kind == MULTICAST_ACK {
      var frame;
      ok, frame := reader.ReadUint32();
      return if ok then Ok(msg.(frame := frame)) else Err;
    }
    if kind == APPLICATION {
      var body;
      ok, body := DecodeBlock(reader);
      return if ok then Ok(msg.(msg := body)) else Err;
    }
    if NamesNode(kind) {
      var id, ip;
      ok, id := DecodeBlock(reader);
      if !ok {
        return Err;
      }
      ok, ip := DecodeBlock(reader);
      if !ok {
        return Err;
      }
      msg := msg.(uuid := id, ip := ip);
    }
    if ListsMembers(kind) {
      var count;
      ok, count := reader.ReadUint32();
      if !ok {
        return Err;
      }
      var ms;
      ok, ms := DecodeMembers(reader, count);
      if !ok {
        return Err;
      }
      var port;
      ok, port := reader.ReadUint32();
      if !ok {
        return Err;
      }
      msg := msg.(peerIds := ms.ids, peerIps := ms.ips, clock := ms.clocks, multicastPort := port);
    }
    return Ok(msg);
  }

  /** The first `n` members, already filled in, in front of what is still to be read. */
  ghost function Prepend(ms: Members, n: nat, r: Parse<Members>): Parse<Members>
    requires n <= |ms.ids| && n <= |ms.ips| && n <= |ms.clocks|
  {
    if r.Short? then Short
    else Got(Members(ms.ids[..n] + r.value.ids, ms.ips[..n] + r.value.ips, ms.clocks[..n] + r.value.clocks), r.rest)
  }

  lemma PrependEnds(ms: Members, r: Parse<Members>, rest: Str)
    requires |ms.ids| == |ms.ips| == |ms.clocks|
    ensures Prepend(ms, 0, r) == r
    ensures Prepend(ms, |ms.ids|, Got(Members([], [], []), rest)) == Got(ms, rest)
  {
    if r.Got? {
      assert ms.ids[..0] + r.value.ids == r.value.ids;
      assert ms.ips[..0] + r.value.ips == r.value.ips;
      assert ms.clocks[..0] + r.value.clocks == r.value.clocks;
    }
    assert ms.ids[..|ms.ids|] + [] == ms.ids;
    assert ms.ips[..|ms.ids|] + [] == ms.ips;
    assert ms.clocks[..|ms.ids|] + [] == ms.clocks;
  }

  lemma PrependStep(ms: Members, n: nat, id: Str, ip: Str, c: U32, tail: Members, rest: Str)
    requires n < |ms.ids| == |ms.ips| == |ms.clocks|
    ensures Prepend(Members(ms.ids[n := id], ms.ips[n := ip], ms.clocks[n := c]), n + 1, Got(tail, rest))
         == Prepend(ms, n, Got(Members([id] + tail.ids, [ip] + tail.ips, [c] + tail.clocks), rest))
  {
    assert ms.ids[n := id][..n + 1] + tail.ids == ms.ids[..n] + ([id] + tail.ids);
    assert ms.ips[n := ip][..n + 1] + tail.ips == ms.ips[..n] + ([ip] + tail.ips);
    assert ms.clocks[n := c][..n + 1] + tail.clocks == ms.clocks[..n] + ([c] + tail.clocks);
  }

  /** The member loop: slices made at full length, then filled position by position. */
  method DecodeMembers(reader: Reader, count: nat) returns (ok: bool, ms: Members)
    requires reader.Valid()
    modifies reader
    ensures reader.Valid()
    ensures ok == DecodedMembers(old(reader.Rest()), count).Got?
    ensures ok ==> DecodedMembers(old(reader.Rest()), count) == Got(ms, reader.Rest())
  {
    hide Get32, ReadInto, Zeros, Prepend;
    ghost var whole := DecodedMembers(reader.Rest(), count);
    ms := Members(seq(count, _ => []), seq(count, _ => []), seq(count, _ => 0));
    ok := true;
    var index := 0;
    PrependEnds(ms, whole, []);
    while index < count
      invariant reader.Valid()
      invariant index <= count && ok
      invariant |ms.ids| == |ms.ips| == |ms.clocks| == count
      invariant DecodedMembers(reader.Rest(), count - index).Short? ==> whole.Short?
      invariant DecodedMembers(reader.Rest(), count - index).Got? ==>
                  whole == Prepend(ms, index, DecodedMembers(reader.Rest(), count - index))
    {
      var id, ip, c;
      ok, id := DecodeBlock(reader);
      if !ok {
        return;
      }
      ok, ip := DecodeBlock(reader);
      if !ok {
        return;
      }
      ok, c := reader.ReadUint32();
      if !ok {
        return;
      }
      ghost var tail := DecodedMembers(reader.Rest(), count - index - 1);
      if tail.Got? {
        PrependStep(ms, index, id, ip, c, tail.value, tail.rest);
      }
      ms := Members(ms.ids[index := id], ms.ips[index := ip], ms.clocks[index := c]);
      index := index + 1;
    }
    PrependEnds(ms, whole, reader.Rest());
  }

  // ---------------------------------------------------------------------
  // Round trip
  // ---------------------------------------------------------------------

  /** The fields that a message of this type carries over the wire. */
  function Carried(m: Message): Message {
    if m.kind == MULTICAST_ACK then Bare(m.kind).(frame := m.frame)
    else if m.kind == APPLICATION then Bare(m.kind).(msg := m.msg)
    else if NamesNode(m.kind) then Bare(m.kind).(uuid := m.uuid, ip := m.ip)
    else if ListsMembers(m.kind) then
      Bare(m.kind).(peerIds := m.peerIds, peerIps := m.peerIps, clock := m.clock, multicastPort := m.multicastPort)
    else Bare(m.kind)
  }

  /** What a caller has to respect for the message to survive encoding. */
  predicate Survives(m: Message) {
    && (m.kind == APPLICATION ==> 0 < |m.msg| < TWO_32)
    && (NamesNode(m.kind) ==> |m.uuid| < TWO_32 && 0 < |m.ip| < TWO_32)
    && (ListsMembers(m.kind) ==>
      && |m.peerIds| == |m.peerIps| == |m.clock| < TWO_32
      && forall i :: 0 <= i < |m.peerIds| ==> |m.peerIds[i]| < TWO_32 && |m.peerIps[i]| < TWO_32)
  }

  lemma BlockRoundTrip(s: Str, tail: Str)
    requires |s| < TWO_32
    ensures DecodedBlock(Block(s) + tail) == if s + tail == [] then Short else Got(s, tail)
  {
    hide Put32, Get32;
    assert Block(s) + tail == Put32(Low32(|s|)) + (s + tail);
    Get32Put32(|s|, s + tail);
    if s + tail != [] {
      ReadExact(s, tail, Zeros(|s|));
    }
  }

  lemma EntryRoundTrip(m: Message, index: nat, tail: Str)
    requires ListsMembers(m.kind) && Survives(m) && index < |m.peerIds|
    ensures DecodedMember(Entry(m, index) + tail) == Got((m.peerIds[index], m.peerIps[index], m.clock[index]), tail)
  {
    hide Put32, Get32, DecodedBlock, Block;
    var afterIp := Put32(m.clock[index]) + tail;
    var afterId := Block(m.peerIps[index]) + afterIp;
    assert Entry(m, index) + tail == Block(m.peerIds[index]) + afterId;
    BlockRoundTrip(m.peerIds[index], afterId);
    BlockRoundTrip(m.peerIps[index], afterIp);
    Get32Put32(m.clock[index], tail);
  }

  lemma {:induction false} MembersRoundTrip(m: Message, index: nat, tail: Str)
    requires ListsMembers(m.kind) && Survives(m) && index <= |m.peerIds|
    ensures DecodedMembers(Entries(m, index) + tail, |m.peerIds| - index)
         == Got(Members(m.peerIds[index..], m.peerIps[index..], m.clock[index..]), tail)
    decreases |m.peerIds| - index
  {
    hide Entry, DecodedMember;
    if index == |m.peerIds| {
      assert Entries(m, index) + tail == tail;
    } else {
      var rest := Entries(m, index + 1) + tail;
      assert Entries(m, index) + tail == Entry(m, index) + rest;
      EntryRoundTrip(m, index, rest);
      MembersRoundTrip(m, index + 1, tail);
      assert m.peerIds[index..] == [m.peerIds[index]] + m.peerIds[index + 1..];
      assert m.peerIps[index..] == [m.peerIps[index]] + m.peerIps[index + 1..];
      assert m.clock[index..] == [m.clock[index]] + m.clock[index + 1..];
    }
  }

  lemma ListRoundTrip(m: Message)
    requires ListsMembers(m.kind) && Survives(m)
    ensures Decoded(Encoded(m)) == Ok(Carried(m))
  {
    hide Put32, Get32, DecodedMembers, Entries;
    var tail := Put32(m.multicastPort);
    var rest := Entries(m, 0) + tail;
    assert Encoded(m)[1..] == Put32(|m.peerIds|) + rest;
    Get32Put32(|m.peerIds|, rest);
    MembersRoundTrip(m, 0, tail);
    assert tail + [] == tail;
    Get32Put32(m.multicastPort, []);
    assert m.peerIds[0..] == m.peerIds && m.peerIps[0..] == m.peerIps && m.clock[0..] == m.clock;
  }

  lemma NamesRoundTrip(m: Message)
    requires NamesNode(m.kind) && |m.uuid| < TWO_32 && |m.ip| < TWO_32
    ensures Decoded(Encoded(m)) == if m.ip == [] then Err else Ok(Carried(m))
  {
    hide Put32, Get32, DecodedMembers, DecodedBlock, Block;
    assert Encoded(m)[1..] == Block(m.uuid) + Block(m.ip);
    BlockRoundTrip(m.uuid, Block(m.ip));
    assert Block(m.ip) + [] == Block(m.ip);
    BlockRoundTrip(m.ip, []);
  }

  /** Decoding the encoding gives back every field the type carries exactly when `Survives` holds. */
  lemma RoundTrip(m: Message)
    requires Encodable(m)
    ensures Decoded(Encoded(m)) == Ok(Carried(m)) <==> Survives(m)
  {
    hide Put32, Get32, Entries, DecodedMembers, DecodedBlock, Block;
    if m.kind == MULTICAST_ACK {
      assert Encoded(m)[1..] == Put32(m.frame) + m.msg;
      Get32Put32(m.frame, m.msg);
    } else if m.kind == APPLICATION {
      assert Encoded(m)[1..] == Block(m.msg);
      assert Block(m.msg) + [] == Block(m.msg);
      if |m.msg| < TWO_32 {
        BlockRoundTrip(m.msg, []);
      }
    } else if NamesNode(m.kind) {
      if |m.uuid| < TWO_32 && |m.ip| < TWO_32 {
        NamesRoundTrip(m);
      }
    } else if ListsMembers(m.kind) {
      if Survives(m) {
        ListRoundTrip(m);
      }
    }
  }

  // ---------------------------------------------------------------------
  // Layout
  // ---------------------------------------------------------------------

  /** A length-prefixed field at byte `at`. */
  ghost predicate BlockAt(data: Str, at: nat, s: Str) {
    && at + 4 + |s| <= |data|
    && FromBigEndian(data[at..at + 4]) == |s| && data[at + 4..at + 4 + |s|] == s
  }

  lemma PlacedAt(before: Str, part: Str, after: Str)
    ensures (before + part + after)[|before|..|before| + |part|] == part
  {
  }

  lemma BlockPlaced(before: Str, s: Str, after: Str)
    requires |s| < TWO_32
    ensures BlockAt(before + Block(s) + after, |before|, s)
  {
    LowFits(|s|);
    FromPut32(|s|);
    var n := Put32(|s|);
    assert Block(s) == n + s;
    hide Put32, Block, FromBigEndian, Low32;
    var data := before + (n + s) + after;
    assert data == before + n + (s + after);
    PlacedAt(before, n, s + after);
    assert data == (before + n) + s + after;
    PlacedAt(before + n, s, after);
  }

  lemma BlockInside(data: Str, before: Str, s: Str, after: Str, at: nat)
    requires data == before + Block(s) + after && |s| < TWO_32 && at == |before|
    ensures BlockAt(data, at, s)
  {
    BlockPlaced(before, s, after);
  }

  /** Which number stands for which type, and what follows it; lists are below. */
  lemma KindLayout(m: Message)
    requires Encodable(m)
    ensures Encoded(m) != [] && Encoded(m)[0] == m.kind
    ensures (m.kind <= 4 || m.kind > 10) ==> Encoded(m) == [m.kind]
    ensures m.kind == 10 ==> |Encoded(m)| == 5 + |m.msg| && FromBigEndian(Encoded(m)[1..5]) == m.frame
    ensures m.kind == 10 ==> Encoded(m)[5..] == m.msg
    ensures m.kind == 5 && |m.msg| < TWO_32 ==> |Encoded(m)| == 5 + |m.msg| && BlockAt(Encoded(m), 1, m.msg)
  {
    hide Put32, Block, Entries, FromBigEndian;
    if m.kind == 10 {
      FromPut32(m.frame);
      PlacedAt([m.kind], Put32(m.frame), m.msg);
    } else if m.kind == 5 && |m.msg| < TWO_32 {
      BlockPlaced([m.kind], m.msg, []);
      assert [m.kind] + Block(m.msg) + [] == Encoded(m);
    }
  }

  /** The messages without content. */
  lemma SignalBytes()
    ensures Encoded(Bare(CONNECT_TO_LEADER)) == [0] && Encoded(Bare(ELECTION)) == [1]
    ensures Encoded(Bare(ELECTION_ALIVE)) == [2] && Encoded(Bare(ELECTION_VICTORY)) == [3]
    ensures Encoded(Bare(HEARTBEAT)) == [4]
  {
  }

  /** A notice about a node: id, then address. */
  lemma NoticeLayout(m: Message)
    requires m.kind == 6 || m.kind == 7
    requires |m.uuid| < TWO_32 && |m.ip| < TWO_32
    ensures |Encoded(m)| == 9 + |m.uuid| + |m.ip|
    ensures BlockAt(Encoded(m), 1, m.uuid) && BlockAt(Encoded(m), 5 + |m.uuid|, m.ip)
  {
    BlockPlaced([m.kind], m.uuid, Block(m.ip));
    BlockPlaced([m.kind] + Block(m.uuid), m.ip, []);
    hide Block, BlockAt;
    assert Encoded(m) == [m.kind] + Block(m.uuid) + Block(m.ip);
    assert Encoded(m) + [] == Encoded(m);
  }

  /** Bytes taken by the first `n` members. */
  function SizeBefore(m: Message, n: nat): nat
    requires n <= |m.peerIds| && n <= |m.peerIps|
  {
    if n == 0 then 0 else SizeBefore(m, n - 1) + 12 + |m.peerIds[n - 1]| + |m.peerIps[n - 1]|
  }

  lemma {:induction false} EntriesSplit(m: Message, k: nat, n: nat) returns (before: Str)
    requires k <= n <= |m.peerIds| <= |m.peerIps| && |m.peerIds| <= |m.clock|
    ensures Entries(m, k) == before + Entries(m, n) && SizeBefore(m, k) + |before| == SizeBefore(m, n)
    decreases n - k
  {
    if k == n {
      before := [];
      assert Entries(m, k) == [] + Entries(m, n);
    } else {
      var rest := EntriesSplit(m, k + 1, n);
      before := Entry(m, k) + rest;
      Assoc(Entry(m, k), rest, Entries(m, n));
      hide Block, Put32;
    }
  }

  /** Where the lists begin and end. */
  lemma ListLayout(m: Message)
    requires (m.kind == 8 || m.kind == 9) && Encodable(m) && |m.peerIds| < TWO_32
    ensures |Encoded(m)| == 9 + SizeBefore(m, |m.peerIds|)
    ensures FromBigEndian(Encoded(m)[1..5]) == |m.peerIds|
    ensures FromBigEndian(Encoded(m)[5 + SizeBefore(m, |m.peerIds|)..]) == m.multicastPort
  {
    var before := EntriesSplit(m, 0, |m.peerIds|);
    assert Entries(m, 0) == before;
    LowFits(|m.peerIds|);
    assert Encoded(m) == [m.kind] + Put32(|m.peerIds|) + before + Put32(m.multicastPort);
    FromPut32(|m.peerIds|);
    FromPut32(m.multicastPort);
    hide Encoded, Put32, FromBigEndian, Entries;
    Assoc([m.kind] + Put32(|m.peerIds|), before, Put32(m.multicastPort));
    PlacedAt([m.kind], Put32(|m.peerIds|), before + Put32(m.multicastPort));
    PlacedAt([m.kind] + Put32(|m.peerIds|) + before, Put32(m.multicastPort), []);
    assert Encoded(m) + [] == Encoded(m);
  }

  lemma Around(head: Str, before: Str, entry: Str, rest: Str, port: Str)
    ensures head + (before + (entry + rest)) + port == head + before + entry + (rest + port)
  {
  }

  lemma EntriesHead(m: Message, k: nat)
    requires Encodable(m) && ListsMembers(m.kind) && k < |m.peerIds|
    ensures Entries(m, k) == Entry(m, k) + Entries(m, k + 1)
  {
    hide Entry;
  }

  lemma AroundMember(m: Message, k: nat) returns (before: Str, after: Str)
    requires Encodable(m) && ListsMembers(m.kind) && k < |m.peerIds|
    ensures |before| == 5 + SizeBefore(m, k) && Encoded(m) == before + Entry(m, k) + after
  {
    var members := EntriesSplit(m, 0, k);
    EntriesHead(m, k);
    var head, port := [m.kind] + Put32(Low32(|m.peerIds|)), Put32(m.multicastPort);
    assert Encoded(m) == head + Entries(m, 0) + port;
    hide *;
    before, after := head + members, Entries(m, k + 1) + port;
    Around(head, members, Entry(m, k), Entries(m, k + 1), port);
  }

  lemma Inside(before: Str, id: Str, ip: Str, c: Str, after: Str)
    ensures before + (id + ip + c) + after == before + id + (ip + c + after)
    ensures before + (id + ip + c) + after == before + id + ip + (c + after)
    ensures before + (id + ip + c) + after == before + id + ip + c + after
  {
  }

  lemma EntryParts(m: Message, k: nat)
    requires Encodable(m) && ListsMembers(m.kind) && k < |m.peerIds|
    ensures Entry(m, k) == Block(m.peerIds[k]) + Block(m.peerIps[k]) + Put32(m.clock[k])
  {
    hide Block, Put32;
  }

  lemma NumberPlaced(data: Str, before: Str, v: U32, after: Str)
    requires data == before + Put32(v) + after
    ensures |before| + 4 <= |data| && FromBigEndian(data[|before|..|before| + 4]) == v
  {
    FromPut32(v);
    hide *;
    PlacedAt(before, Put32(v), after);
  }

  lemma IdParts(m: Message, k: nat) returns (before: Str, after: Str)
    requires Encodable(m) && ListsMembers(m.kind) && k < |m.peerIds|
    ensures |before| == 5 + SizeBefore(m, k) && Encoded(m) == before + Block(m.peerIds[k]) + after
  {
    var front, back := AroundMember(m, k);
    EntryParts(m, k);
    hide *;
    before, after := front, Block(m.peerIps[k]) + Put32(m.clock[k]) + back;
    Inside(front, Block(m.peerIds[k]), Block(m.peerIps[k]), Put32(m.clock[k]), back);
  }

  lemma IpParts(m: Message, k: nat) returns (before: Str, after: Str)
    requires Encodable(m) && ListsMembers(m.kind) && k < |m.peerIds|
    ensures |before| == 9 + SizeBefore(m, k) + |m.peerIds[k]| && Encoded(m) == before + Block(m.peerIps[k]) + after
  {
    var front, back := AroundMember(m, k);
    EntryParts(m, k);
    hide *;
    before, after := front + Block(m.peerIds[k]), Put32(m.clock[k]) + back;
    Inside(front, Block(m.peerIds[k]), Block(m.peerIps[k]), Put32(m.clock[k]), back);
  }

  lemma ClockParts(m: Message, k: nat) returns (before: Str, after: Str)
    requires Encodable(m) && ListsMembers(m.kind) && k < |m.peerIds|
    ensures |before| == 13 + SizeBefore(m, k) + |m.peerIds[k]| + |m.peerIps[k]|
    ensures Encoded(m) == before + Put32(m.clock[k]) + after
  {
    var front, back := AroundMember(m, k);
    EntryParts(m, k);
    hide *;
    before, after := front + Block(m.peerIds[k]) + Block(m.peerIps[k]), back;
    Inside(front, Block(m.peerIds[k]), Block(m.peerIps[k]), Put32(m.clock[k]), back);
  }

  lemma MemberClockLayout(m: Message, k: nat)
    requires Encodable(m) && ListsMembers(m.kind) && k < |m.peerIds|
    ensures var at := 13 + SizeBefore(m, k) + |m.peerIds[k]| + |m.peerIps[k]|;
            at + 4 <= |Encoded(m)| && FromBigEndian(Encoded(m)[at..at + 4]) == m.clock[k]
  {
    var before, after := ClockParts(m, k);
    hide *;
    NumberPlaced(Encoded(m), before, m.clock[k], after);
  }

  lemma MemberIdLayout(m: Message, k: nat)
    requires Encodable(m) && ListsMembers(m.kind) && k < |m.peerIds| <= |m.peerIps| && |m.peerIds[k]| < TWO_32
    ensures BlockAt(Encoded(m), 5 + SizeBefore(m, k), m.peerIds[k])
  {
    hide *;
    var before, after := IdParts(m, k);
    BlockInside(Encoded(m), before, m.peerIds[k], after, 5 + SizeBefore(m, k));
  }

  lemma MemberIpLayout(m: Message, k: nat)
    requires Encodable(m) && ListsMembers(m.kind) && k < |m.peerIds| <= |m.peerIps| && |m.peerIps[k]| < TWO_32
    ensures BlockAt(Encoded(m), 9 + SizeBefore(m, k) + |m.peerIds[k]|, m.peerIps[k])
  {
    hide *;
    var before, after := IpParts(m, k);
    BlockInside(Encoded(m), before, m.peerIps[k], after, 9 + SizeBefore(m, k) + |m.peerIds[k]|);
  }

  /** Where the k-th member lies: id, address, clock. */
  lemma MemberLayout(m: Message, k: nat)
    requires (m.kind == 8 || m.kind == 9) && Encodable(m) && k < |m.peerIds|
    requires |m.peerIds[k]| < TWO_32 && |m.peerIps[k]| < TWO_32
    ensures BlockAt(Encoded(m), 5 + SizeBefore(m, k), m.peerIds[k])
    ensures BlockAt(Encoded(m), 9 + SizeBefore(m, k) + |m.peerIds[k]|, m.peerIps[k])
    ensures var at := 13 + SizeBefore(m, k) + |m.peerIds[k]| + |m.peerIps[k]|;
            at + 4 <= |Encoded(m)| && FromBigEndian(Encoded(m)[at..at + 4]) == m.clock[k]
  {
    assert ListsMembers(m.kind);
    hide *;
    MemberIdLayout(m, k);
    MemberIpLayout(m, k);
    MemberClockLayout(m, k);
  }

  // ---------------------------------------------------------------------
  // Any bytes
  // ---------------------------------------------------------------------

  /** What is read as a length-prefixed field from any bytes. */
  lemma BlockRead(rest: Str)
    ensures DecodedBlock(rest) ==
      if |rest| <= 4 then Short
      else Got(Sized(rest[4..], Value32(rest[..4])), Drop(rest[4..], Value32(rest[..4])))
  {
    if |rest| >= 4 {
      ReadSized(rest[4..], Value32(rest[..4]));
    }
    hide Value32, ReadInto, Sized, Drop;
  }

  /** What comes out of any bytes of the types without a list. */
  lemma DecodedLayout(data: Str)
    requires data != []
    ensures (data[0] <= 4 || data[0] > 10) ==> Decoded(data) == Ok(Bare(data[0]))
    ensures data[0] == 10 ==>
      Decoded(data) == if |data| < 5 then Err else Ok(Bare(10).(frame := Value32(data[1..5])))
    ensures data[0] == 5 ==>
      Decoded(data) == if |data| <= 5 then Err else Ok(Bare(5).(msg := Sized(data[5..], Value32(data[1..5]))))
  {
    BlockRead(data[1..]);
    if |data| >= 5 {
      assert data[1..][..4] == data[1..5] && data[1..][4..] == data[5..];
    }
    hide Value32, DecodedBlock, DecodedMembers, Sized, Drop;
  }

  /** And of a notice: an id and an address, each cut or filled with zeros to its announced length. */
  lemma DecodedNotice(data: Str)
    requires data != [] && (data[0] == 6 || data[0] == 7)
    ensures |data| <= 5 ==> Decoded(data) == Err
    ensures |data| > 5 ==>
      var n := Value32(data[1..5]);
      var rest := Drop(data[5..], n);
      Decoded(data) ==
      if |rest| <= 4 then Err
      else Ok(Bare(data[0]).(uuid := Sized(data[5..], n), ip := Sized(rest[4..], Value32(rest[..4]))))
  {
    BlockRead(data[1..]);
    if |data| > 5 {
      assert data[1..][..4] == data[1..5] && data[1..][4..] == data[5..];
      BlockRead(Drop(data[5..], Value32(data[1..5])));
    }
    hide Value32, DecodedBlock, DecodedMembers, Sized, Drop;
  }

  /** Bytes behind a list message are ignored. */
  lemma ListIgnoresTail(m: Message, tail: Str)
    requires ListsMembers(m.kind) && Survives(m)
    ensures Decoded(Encoded(m) + tail) == Ok(Carried(m))
  {
    hide Put32, Get32, DecodedMembers, Entries;
    LowFits(|m.peerIds|);
    var port := Put32(m.multicastPort) + tail;
    var rest := Entries(m, 0) + port;
    assert (Encoded(m) + tail)[1..] == Put32(|m.peerIds|) + rest;
    Get32Put32(|m.peerIds|, rest);
    MembersRoundTrip(m, 0, port);
    Get32Put32(m.multicastPort, tail);
    assert m.peerIds[0..] == m.peerIds && m.peerIps[0..] == m.peerIps && m.clock[0..] == m.clock;
  }
}
