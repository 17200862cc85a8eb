// server/multicast/multicast.go, encodeMulticastMessage and decodeMulticastMessage.
module MulticastFraming {
  import opened Bytes

  type Clock = map<Str, U32>

  datatype Message = Message(frame: U32, ip: Str, uuid: Str, vectorClock: Clock, message: Str)

  /** An order in which ranging over the map may visit its keys. */
  ghost predicate Enumerates(order: seq<Str>, c: Clock) {
    && |order| == |c|
    && forall id :: id in order <==> id in c
  }

  function Entries(c: Clock, order: seq<Str>): Str
    requires forall id :: id in order ==> id in c
  {
    if order == [] then [] else Put32(c[order[0]]) + Fix36(order[0]) + Entries(c, order[1..])
  }

  function Head(m: Message, order: seq<Str>): Str
    requires forall id :: id in order ==> id in m.vectorClock
  {
    Put32(m.frame) + Fix36(m.uuid) + Put32(Low32(|m.vectorClock|)) + Entries(m.vectorClock, order)
  }

  function Encoded(m: Message, order: seq<Str>): Str
    requires forall id :: id in order ==> id in m.vectorClock
  {
    Head(m, order) + (Put64(Low64(|m.message|)) + m.message)
  }

  lemma {:induction false} EntriesAppend(c: Clock, order: seq<Str>, id: Str)
    requires id in c && forall k :: k in order ==> k in c
    ensures Entries(c, order + [id]) == Entries(c, order) + (Put32(c[id]) + Fix36(id))
  {
    hide Put32, Fix36;
    if order == [] {
    } else {
      assert (order + [id])[1..] == order[1..] + [id];
      EntriesAppend(c, order[1..], id);
    }
  }

  /** An encoding of `m`, its clock in one order or another. */
  ghost predicate IsEncoding(buf: Str, m: Message) {
    exists order :: Enumerates(order, m.vectorClock) && buf == Encoded(m, order)
  }

  /** The clock is written in whatever order the map iteration takes. */
  method Encode(m: Message) returns (buf: Str)
    ensures IsEncoding(buf, m)
  {
    hide Put32, Put64, Fix36;
    buf := Put32(m.frame);
    buf := buf + Fix36(m.uuid);
    buf := buf + Put32(Low32(|m.vectorClock|));
    ghost var order: seq<Str> := [];
    ghost var head := buf;
    var left := m.vectorClock.Keys;
    while left != {}
      invariant left <= m.vectorClock.Keys
      invariant |order| + |left| == |m.vectorClock|
      invariant forall id :: id in order <==> id in m.vectorClock && id !in left
      invariant buf == head + Entries(m.vectorClock, order)
    {
      var id :| id in left;
      EntriesAppend(m.vectorClock, order, id);
      buf := buf + Put32(m.vectorClock[id]);
      buf := buf + Fix36(id);
      left, order := left - {id}, order + [id];
    }
    buf := buf + Put64(Low64(|m.message|));
    buf := buf + m.message;
    assert Enumerates(order, m.vectorClock) && buf == Encoded(m, order);
  }

  /** Everything before the body. */
  predicate HeaderSurvives(m: Message) {
    && |m.uuid| == 36
    && |m.vectorClock| < TWO_32
    && forall id :: id in m.vectorClock ==> |id| == 36
  }

  predicate Survives(m: Message) {
    HeaderSurvives(m) && 0 < |m.message| < TWO_64
  }

  // ---------------------------------------------------------------------
  // Decoding
  // ---------------------------------------------------------------------

  /** `n` clock entries; the 36-byte buffer is reused from entry to entry. */
  function DecodedClock(rest: Str, n: nat, buf: Str, acc: Clock): Parse<Clock>
    decreases n
  {
    if n == 0 then Got(acc, rest)
    else
      var (clock, r1) :- Get32(rest);
      var (id, r2) :- ReadInto(r1, buf);
      DecodedClock(r2, n - 1, id, acc[id := clock])
  }

  /** Frame, sender and clock; the body is still to come. */
  function DecodedHead(data: Str, ip: Str): Parse<Message> {
    var (frame, r1) :- Get32(data);
    var (uuid, r2) :- ReadInto(r1, Zeros(36));
    var (n, r3) :- Get32(r2);
    var (clock, r4) :- DecodedClock(r3, n, uuid, map[]);
    Got(Message(frame, ip, uuid, clock, []), r4)
  }

  function Decoded(data: Str, ip: Str): Result<Message> {
    var head := DecodedHead(data, ip);
    if head.Short? then Err
    else
      var body := DecodedBody(head.rest);
      if body.Short? then Err else Ok(head.value.(message := body.value))
  }

  /** The clock loop; `buf` is the 36-byte buffer that already holds the sender's id. */
  method DecodeClock(reader: Reader, n: nat, buf: Str) returns (ok: bool, clock: Clock)
    requires reader.Valid()
    modifies reader
    ensures reader.Valid()
    ensures ok == DecodedClock(old(reader.Rest()), n, buf, map[]).Got?
    ensures ok ==> DecodedClock(old(reader.Rest()), n, buf, map[]) == Got(clock, reader.Rest())
  {
    hide Get32, ReadInto;
    var uuidBytes := buf;
    ok, clock := true, map[];
    for i := 0 to n
      invariant reader.Valid() && ok
      invariant DecodedClock(old(reader.Rest()), n, buf, map[]) == DecodedClock(reader.Rest(), n - i, uuidBytes, clock)
    {
      var entry;
      ok, entry := reader.ReadUint32();
      if !ok {
        return;
      }
      ok, uuidBytes := reader.Read(uuidBytes);
      if !ok {
        return;
      }
      clock := clock[uuidBytes := entry];
    }
  }

  method DecodeHead(reader: Reader, ip: Str) returns (ok: bool, msg: Message)
    requires reader.Valid()
    modifies reader
    ensures reader.Valid()
    ensures ok == DecodedHead(old(reader.Rest()), ip).Got?
    ensures ok ==> DecodedHead(old(reader.Rest()), ip) == Got(msg, reader.Rest())
  {
    hide Get32, ReadInto, Zeros, DecodedClock;
    var frame, uuidBytes, n, clock;
    msg := Message(0, [], [], map[], []);
    ok, frame := reader.ReadUint32();
    if !ok {
      return;
    }
    ok, uuidBytes := reader.Read(Zeros(36));
    if !ok {
      return;
    }
    ok, n := reader.ReadUint32();
    if !ok {
      return;
    }
    ok, clock := DecodeClock(reader, n, uuidBytes);
    if !ok {
      return;
    }
    msg := Message(frame, ip, uuidBytes, clock, []);
  }

  method Decode(data: Str, ip: Str) returns (r: Result<Message>)
    ensures r == Decoded(data, ip)
  {
    hide DecodedHead, DecodedBody;
    var reader := new Reader(data);
    var ok, msg := DecodeHead(reader, ip);
    if !ok {
      return Err;
    }
    var strBytes;
    ok, strBytes := reader.ReadBody();
    if !ok {
      return Err;
    }
    return Ok(msg.(message := strBytes));
  }

  // ---------------------------------------------------------------------
  // Round trip
  // ---------------------------------------------------------------------

  /** The entries of `c` for the ids in `order`. */
  ghost function Restrict(c: Clock, order: seq<Str>): Clock
    requires forall id :: id in order ==> id in c
  {
    map id | id in order :: c[id]
  }

  lemma RestrictNone(c: Clock, acc: Clock)
    ensures acc + Restrict(c, []) == acc
  {
    assert Restrict(c, []) == map[];
  }

  lemma RestrictStep(c: Clock, order: seq<Str>, acc: Clock)
    requires order != [] && forall id :: id in order ==> id in c
    ensures acc[order[0] := c[order[0]]] + Restrict(c, order[1..]) == acc + Restrict(c, order)
  {
    assert order == [order[0]] + order[1..];
  }

  lemma {:induction false} EntriesRoundTrip(c: Clock, order: seq<Str>, tail: Str, buf: Str, acc: Clock)
    requires |buf| == 36
    requires forall id :: id in order ==> id in c && |id| == 36
    ensures DecodedClock(Entries(c, order) + tail, |order|, buf, acc) == Got(acc + Restrict(c, order), tail)
    decreases |order|
  {
    hide Put32, Get32, ReadInto, Restrict, Fix36;
    if order == [] {
      assert Entries(c, order) + tail == tail;
      RestrictNone(c, acc);
    } else {
      var id, rest := order[0], Entries(c, order[1..]) + tail;
      assert Entries(c, order) + tail == Put32(c[id]) + (id + rest);
      Get32Put32(c[id], id + rest);
      ReadExact(id, rest, buf);
      EntriesRoundTrip(c, order[1..], tail, id, acc[id := c[id]]);
      RestrictStep(c, order, acc);
    }
  }

  lemma RestrictAll(c: Clock, order: seq<Str>)
    requires Enumerates(order, c)
    ensures map[] + Restrict(c, order) == c
  {
  }

  lemma HeadRoundTrip(m: Message, order: seq<Str>, tail: Str, ip: Str)
    requires HeaderSurvives(m) && Enumerates(order, m.vectorClock)
    ensures DecodedHead(Head(m, order) + tail, ip) == Got(m.(ip := ip, message := []), tail)
  {
    hide Put32, Get32, ReadInto, Zeros, Fix36, DecodedClock, Entries, Restrict;
    var r3 := Entries(m.vectorClock, order) + tail;
    var r2 := Put32(|m.vectorClock|) + r3;
    var r1 := m.uuid + r2;
    Assoc4(Put32(m.frame), m.uuid, Put32(|m.vectorClock|), Entries(m.vectorClock, order), tail);
    assert Head(m, order) + tail == Put32(m.frame) + r1;
    Get32Put32(m.frame, r1);
    ReadExact(m.uuid, r2, Zeros(36));
    Get32Put32(|m.vectorClock|, r3);
    EntriesRoundTrip(m.vectorClock, order, tail, m.uuid, map[]);
    RestrictAll(m.vectorClock, order);
  }

  lemma IpIsNoHeader(m: Message, ip: Str)
    ensures HeaderSurvives(m) <==> HeaderSurvives(m.(ip := ip))
  {
  }

  lemma DecodeEncoded(m: Message, order: seq<Str>, ip: Str)
    requires HeaderSurvives(m) && |m.message| < TWO_64 && Enumerates(order, m.vectorClock)
    ensures Decoded(Encoded(m, order), ip) == if m.message == [] then Err else Ok(m.(ip := ip))
  {
    hide Put32, Put64, Get32, Get64, ReadInto, Zeros, Fix36, Entries, DecodedClock, Head, DecodedHead, DecodedBody;
    HeadRoundTrip(m, order, Put64(|m.message|) + m.message, ip);
    BodyRoundTrip(m.message);
  }

  lemma {:induction false} DecodedClockShape(rest: Str, n: nat, buf: Str, acc: Clock)
    ensures var r := DecodedClock(rest, n, buf, acc);
            r.Got? ==> |r.value| <= |acc| + n && forall id :: id in r.value ==> id in acc || |id| == |buf|
    decreases n
  {
    if n > 0 && Get32(rest).Got? {
      var entry := Get32(rest);
      var id := ReadInto(entry.rest, buf);
      if id.Got? {
        DecodedClockShape(id.rest, n - 1, id.value, acc[id.value := entry.value]);
      }
    }
  }

  /** Whatever the datagram, what comes out has 36-byte ids and a clock that the count could announce. */
  lemma DecodedSurvives(data: Str, ip: Str)
    requires Decoded(data, ip).Ok?
    ensures HeaderSurvives(Decoded(data, ip).value) && |Decoded(data, ip).value.message| < TWO_64
  {
    hide Get32, ReadInto, DecodedClock, DecodedBody;
    var frame := Get32(data);
    var uuid := ReadInto(frame.rest, Zeros(36));
    var n := Get32(uuid.rest);
    DecodedClockShape(n.rest, n.value, uuid.value, map[]);
  }

  /** Whatever order the clock was written in, the message comes back exactly when `Survives` holds. */
  lemma RoundTrip(m: Message, order: seq<Str>, ip: Str)
    requires Enumerates(order, m.vectorClock)
    ensures Decoded(Encoded(m, order), ip) == Ok(m.(ip := ip)) <==> Survives(m)
  {
    hide Encoded, Entries, Decoded, HeaderSurvives;
    if HeaderSurvives(m) && |m.message| < TWO_64 {
      DecodeEncoded(m, order, ip);
    } else if Decoded(Encoded(m, order), ip).Ok? {
      DecodedSurvives(Encoded(m, order), ip);
      IpIsNoHeader(m, ip);
    }
  }

  // ---------------------------------------------------------------------
  // The 1024-byte read buffer
  // ---------------------------------------------------------------------

  /** A datagram is 52 bytes, 40 for each clock entry, and the body. */
  lemma {:induction false} EntriesSize(c: Clock, order: seq<Str>)
    requires forall id :: id in order ==> id in c
    ensures |Entries(c, order)| == 40 * |order|
  {
    hide Put32, Fix36;
    if order == [] {
    } else {
      EntriesSize(c, order[1..]);
    }
  }

  lemma DatagramSize(m: Message, order: seq<Str>)
    requires Enumerates(order, m.vectorClock)
    ensures |Head(m, order)| == 44 + 40 * |m.vectorClock|
    ensures |Encoded(m, order)| == 52 + 40 * |m.vectorClock| + |m.message|
  {
    EntriesSize(m.vectorClock, order);
    hide Put32, Put64, Fix36, Entries;
  }

  /** Reading the clock uses up 40 bytes for each entry or everything there is. */
  lemma {:induction false} DecodedClockRest(rest: Str, n: nat, buf: Str, acc: Clock)
    requires |buf| == 36
    ensures var r := DecodedClock(rest, n, buf, acc);
            r.Got? ==> r.rest == [] || |r.rest| + 40 * n == |rest|
    decreases n
  {
    if n > 0 && Get32(rest).Got? {
      var entry := Get32(rest);
      var id := ReadInto(entry.rest, buf);
      if id.Got? {
        DecodedClockRest(id.rest, n - 1, id.value, acc[id.value := entry.value]);
      }
    }
  }

  // More clock entries than this do not fit the buffer together with the length of the body.
  const MAX_NODES := 24

  /** Body bytes that fit behind the head and the length. */
  function BodyRoom(m: Message): int { READ_BUFFER - 52 - 40 * |m.vectorClock| }

  lemma ClipsTo(data: Str, a: Str, b: Str, c: Str, k: nat)
    requires data == a + (b + c) && |a| + |b| + k == READ_BUFFER && k < |c|
    ensures Clip(data) == a + (b + c[..k])
  {
    assert (a + (b + c))[..READ_BUFFER] == a + (b + c[..k]);
  }

  lemma EncodedForm(m: Message, order: seq<Str>)
    requires Enumerates(order, m.vectorClock) && |m.message| < TWO_64
    ensures Encoded(m, order) == Head(m, order) + (Put64(|m.message|) + m.message)
  {
    assert Low64(|m.message|) == |m.message|;
    hide Put64, Head;
  }

  /** What is left of a datagram whose body does not fit. */
  lemma ClippedForm(m: Message, order: seq<Str>)
    requires Enumerates(order, m.vectorClock) && 0 <= BodyRoom(m) < |m.message| < TWO_64
    ensures Clip(Encoded(m, order)) == Head(m, order) + (Put64(|m.message|) + m.message[..BodyRoom(m)])
  {
    DatagramSize(m, order);
    EncodedForm(m, order);
    assert |Head(m, order)| + |Put64(|m.message|)| + BodyRoom(m) == READ_BUFFER;
    hide *;
    ClipsTo(Encoded(m, order), Head(m, order), Put64(|m.message|), m.message, BodyRoom(m));
  }

  /** With up to 24 nodes a clipped datagram still decodes, its body cut. */
  lemma ClippedDecodes(m: Message, order: seq<Str>, ip: Str)
    requires HeaderSurvives(m) && 0 < |m.message| < TWO_64 && Enumerates(order, m.vectorClock)
    requires |m.vectorClock| <= MAX_NODES
    ensures Decoded(Clip(Encoded(m, order)), ip) == Ok(m.(ip := ip, message := Cut(m.message, BodyRoom(m))))
  {
    hide Put64, Head, DecodedHead, DecodedBody, HeaderSurvives, Encoded, Enumerates;
    if |m.message| <= BodyRoom(m) {
      DatagramSize(m, order);
      DecodeEncoded(m, order, ip);
    } else {
      ClippedForm(m, order);
      HeadRoundTrip(m, order, Put64(|m.message|) + m.message[..BodyRoom(m)], ip);
      ClippedBody(m.message, BodyRoom(m));
    }
  }

  /** What the fixed fields in front of the clock of any datagram read as. */
  lemma ClippedHead(m: Message, order: seq<Str>, data: Str)
    requires |m.vectorClock| < TWO_32 && Enumerates(order, m.vectorClock)
    requires 44 <= |data| && data <= Head(m, order)
    ensures var r := DecodedHead(data, []);
            r.Got? ==> r.rest == [] || |r.rest| + 44 + 40 * |m.vectorClock| == |data|
  {
    hide Entries, DecodedClock, Put32, Get32, Fix36, ReadInto;
    var fixed := Put32(m.frame) + Fix36(m.uuid) + Put32(|m.vectorClock|);
    assert |fixed| == 44 && data[..44] == fixed;
    var r3 := data[44..];
    assert data == Put32(m.frame) + (Fix36(m.uuid) + (Put32(|m.vectorClock|) + r3));
    Get32Put32(m.frame, Fix36(m.uuid) + (Put32(|m.vectorClock|) + r3));
    ReadExact(Fix36(m.uuid), Put32(|m.vectorClock|) + r3, Zeros(36));
    Get32Put32(|m.vectorClock|, r3);
    DecodedClockRest(r3, |m.vectorClock|, Fix36(m.uuid), map[]);
  }

  lemma TooManyNodes(m: Message, order: seq<Str>, ip: Str)
    requires HeaderSurvives(m) && Enumerates(order, m.vectorClock)
    requires |m.vectorClock| > MAX_NODES
    ensures Decoded(Clip(Encoded(m, order)), ip) == Err
  {
    DatagramSize(m, order);
    var data := Clip(Encoded(m, order));
    hide Head, Get32, ReadInto, DecodedClock, Put64;
    assert data <= Head(m, order);
    ClippedHead(m, order, data);
    IpPassesThrough(data, ip);
    assert DecodedHead(data, ip).Got? ==> DecodedHead(data, ip).rest == [];
  }

  lemma IpPassesThrough(data: Str, ip: Str)
    ensures var r, r' := DecodedHead(data, ip), DecodedHead(data, []);
            r.Got? ==> r'.Got? && r.rest == r'.rest
  {
    hide Get32, ReadInto, DecodedClock;
  }

  /** What was sent can be read at the other end exactly up to 24 nodes. */
  lemma DecodesUpTo24Nodes(m: Message, order: seq<Str>, ip: Str)
    requires HeaderSurvives(m) && 0 < |m.message| < TWO_64 && Enumerates(order, m.vectorClock)
    ensures Decoded(Clip(Encoded(m, order)), ip).Ok? <==> |m.vectorClock| <= 24
  {
    if |m.vectorClock| <= MAX_NODES {
      ClippedDecodes(m, order, ip);
    } else {
      TooManyNodes(m, order, ip);
    }
  }

  /** A message comes through the read buffer unchanged exactly when the body bytes that were cut off are zero. */
  lemma ReceivedUnchanged(m: Message, order: seq<Str>, ip: Str)
    requires HeaderSurvives(m) && 0 < |m.message| < TWO_64 && Enumerates(order, m.vectorClock)
    ensures Decoded(Clip(Encoded(m, order)), ip) == Ok(m.(ip := ip))
       <==> |m.vectorClock| <= MAX_NODES && forall i :: BodyRoom(m) <= i < |m.message| ==> m.message[i] == 0
  {
    hide Decoded, Encoded, Enumerates, HeaderSurvives, Cut;
    if |m.vectorClock| <= MAX_NODES {
      ClippedDecodes(m, order, ip);
      CutIntact(m.message, BodyRoom(m));
    } else {
      TooManyNodes(m, order, ip);
    }
  }

  // ---------------------------------------------------------------------
  // Layout
  // ---------------------------------------------------------------------

  lemma ThreeParts(a: Str, b: Str, c: Str, tail: Str)
    requires |a| == 4 && |b| == 36 && |c| == 4
    ensures var s := a + b + c + tail;
            |s| >= 44 && s[..4] == a && s[4..40] == b && s[40..44] == c && s[44..] == tail
  {
  }

  lemma TwoParts(a: Str, b: Str)
    ensures (a + b)[..|a|] == a && (a + b)[|a|..] == b
  {
  }

  lemma SliceAfter(a: Str, b: Str, i: nat, j: nat)
    requires i <= j <= |b|
    ensures (a + b)[|a| + i..|a| + j] == b[i..j]
  {
  }

  lemma EncodedParts(m: Message, order: seq<Str>)
    requires Enumerates(order, m.vectorClock) && |m.vectorClock| < TWO_32 && |m.message| < TWO_64
    ensures Encoded(m, order) == Put32(m.frame) + Fix36(m.uuid) + Put32(|m.vectorClock|)
                               + (Entries(m.vectorClock, order) + (Put64(|m.message|) + m.message))
  {
    LowFits(|m.vectorClock|);
    EncodedForm(m, order);
    hide Put32, Put64, Fix36, Entries, Encoded, Low32, Enumerates;
    Assoc(Put32(m.frame) + Fix36(m.uuid) + Put32(|m.vectorClock|), Entries(m.vectorClock, order),
          Put64(|m.message|) + m.message);
  }

  /** Where frame, sender and number of entries lie. */
  lemma HeadLayout(m: Message, order: seq<Str>)
    requires Enumerates(order, m.vectorClock) && |m.vectorClock| < TWO_32 && |m.message| < TWO_64
    ensures |Encoded(m, order)| >= 44
    ensures FromBigEndian(Encoded(m, order)[..4]) == m.frame
    ensures Encoded(m, order)[4..40] == Fix36(m.uuid)
    ensures FromBigEndian(Encoded(m, order)[40..44]) == |m.vectorClock|
    ensures Encoded(m, order)[44..] == Entries(m.vectorClock, order) + (Put64(|m.message|) + m.message)
  {
    EncodedParts(m, order);
    hide Put32, Put64, Fix36, Entries, Encoded, Enumerates, FromBigEndian;
    FromPut32(m.frame);
    FromPut32(|m.vectorClock|);
    ThreeParts(Put32(m.frame), Fix36(m.uuid), Put32(|m.vectorClock|),
               Entries(m.vectorClock, order) + (Put64(|m.message|) + m.message));
  }

  lemma EntriesHead(c: Clock, order: seq<Str>)
    requires order != [] && forall id :: id in order ==> id in c
    ensures Entries(c, order) == Put32(c[order[0]]) + Fix36(order[0]) + Entries(c, order[1..])
  {
    hide Put32, Fix36;
  }

  lemma FirstEntry(clock: Str, id: Str, rest: Str)
    requires |clock| == 4 && |id| == 36
    ensures (clock + id + rest)[0..4] == clock && (clock + id + rest)[4..40] == id
  {
  }

  /** Within the entries, the k-th one takes bytes 40k to 40k + 40: the clock, then the id. */
  lemma {:induction false} EntryAt(c: Clock, order: seq<Str>, k: nat)
    requires k < |order| && forall id :: id in order ==> id in c
    ensures |Entries(c, order)| == 40 * |order|
    ensures Entries(c, order)[40 * k..40 * k + 4] == Put32(c[order[k]])
    ensures Entries(c, order)[40 * k + 4..40 * k + 40] == Fix36(order[k])
  {
    EntriesSize(c, order);
    EntriesHead(c, order);
    var clock, id, rest := Put32(c[order[0]]), Fix36(order[0]), Entries(c, order[1..]);
    hide *;
    if k == 0 {
      FirstEntry(clock, id, rest);
    } else {
      EntryAt(c, order[1..], k - 1);
      var j := 40 * (k - 1);
      SliceAfter(clock + id, rest, j, j + 4);
      SliceAfter(clock + id, rest, j + 4, j + 40);
    }
  }

  /** Where the k-th entry lies. */
  lemma EntryLayout(m: Message, order: seq<Str>, k: nat)
    requires Enumerates(order, m.vectorClock) && |m.vectorClock| < TWO_32 && |m.message| < TWO_64
    requires k < |order|
    ensures |Encoded(m, order)| >= 84 + 40 * k
    ensures FromBigEndian(Encoded(m, order)[44 + 40 * k..48 + 40 * k]) == m.vectorClock[order[k]]
    ensures Encoded(m, order)[48 + 40 * k..84 + 40 * k] == Fix36(order[k])
  {
    HeadLayout(m, order);
    EntryAt(m.vectorClock, order, k);
    FromPut32(m.vectorClock[order[k]]);
    var entries, body, e := Entries(m.vectorClock, order), Put64(|m.message|) + m.message, Encoded(m, order);
    hide *;
    assert 40 * k + 40 <= |entries|;
    SlicePlace(e, entries, body, 40 * k, 40 * k + 4);
    SlicePlace(e, entries, body, 40 * k + 4, 40 * k + 40);
  }

  lemma SlicePlace(e: Str, entries: Str, body: Str, a: nat, b: nat)
    requires |e| >= 44 && e[44..] == entries + body && a <= b <= |entries|
    ensures 44 + b <= |e| && e[44 + a..44 + b] == entries[a..b]
  {
    assert |e[44..]| == |e| - 44;
    SliceOf(e, 44, a, b);
    assert (entries + body)[a..b] == entries[a..b];
  }

  lemma BodyAfter(e: Str, entries: Str, n: Str, body: Str)
    requires |e| >= 44 && e[44..] == entries + (n + body) && |n| == 8
    ensures var at := 44 + |entries|;
            |e| == at + 8 + |body| && e[at..at + 8] == n && e[at + 8..] == body
  {
    assert |e[44..]| == |e| - 44;
    SliceOf(e, 44, |entries|, |entries| + 8);
    SliceAfter(entries, n + body, 0, 8);
    TwoParts(n, body);
    Assoc(entries, n, body);
    TwoParts(entries + n, body);
    assert (n + body)[0..8] == n;
  }

  /** Where length and body lie. */
  lemma BodyLayout(m: Message, order: seq<Str>)
    requires Enumerates(order, m.vectorClock) && |m.vectorClock| < TWO_32 && |m.message| < TWO_64
    ensures var at := 44 + 40 * |m.vectorClock|;
            && |Encoded(m, order)| == at + 8 + |m.message|
            && FromBigEndian(Encoded(m, order)[at..at + 8]) == |m.message| && Encoded(m, order)[at + 8..] == m.message
  {
    HeadLayout(m, order);
    EntriesSize(m.vectorClock, order);
    DatagramSize(m, order);
    FromPut64(|m.message|);
    var entries, n, e := Entries(m.vectorClock, order), Put64(|m.message|), Encoded(m, order);
    assert |entries| == 40 * |m.vectorClock|;
    hide *;
    BodyAfter(e, entries, n, m.message);
  }

  /** The clock that `n` entries from byte 44 on stand for; of two entries for an id the later one counts. */
  function ClockOf(data: Str, n: nat): Clock
    requires 44 + 40 * n <= |data|
  {
    if n == 0 then map[]
    else ClockOf(data, n - 1)[data[8 + 40 * n..44 + 40 * n] := Value32(data[4 + 40 * n..8 + 40 * n])]
  }

  /** One turn of the clock loop over any datagram. */
  lemma EntryRead(data: Str, at: nat, buf: Str)
    requires at + 40 <= |data| && |buf| == 36
    ensures Get32(data[at..]) == Got(Value32(data[at..at + 4]), data[at + 4..])
    ensures ReadInto(data[at + 4..], buf) == Got(data[at + 4..at + 40], data[at + 40..])
  {
    SliceOf(data, at, 0, 4);
    SliceOf(data, at + 4, 0, 36);
    hide Value32;
    assert data[at..][..4] == data[at..][0..4] && data[at + 4..][..36] == data[at + 4..][0..36];
  }

  lemma DecodedClockStep(rest: Str, n: nat, buf: Str, acc: Clock, c: U32, r1: Str, id: Str, r2: Str)
    requires n > 0 && Get32(rest) == Got(c, r1) && ReadInto(r1, buf) == Got(id, r2)
    ensures DecodedClock(rest, n, buf, acc) == DecodedClock(r2, n - 1, id, acc[id := c])
  {
    hide Get32, ReadInto;
  }

  lemma ClockOfStep(data: Str, k: nat)
    requires 84 + 40 * k <= |data|
    ensures ClockOf(data, k + 1)
         == ClockOf(data, k)[data[48 + 40 * k..84 + 40 * k] := Value32(data[44 + 40 * k..48 + 40 * k])]
  {
    hide Value32;
  }

  lemma ClockReadStep(data: Str, k: nat, n: nat, buf: Str)
    requires k < n && 44 + 40 * n <= |data| && |buf| == 36
    ensures |data[48 + 40 * k..84 + 40 * k]| == 36
    ensures DecodedClock(data[44 + 40 * k..], n - k, buf, ClockOf(data, k))
         == DecodedClock(data[84 + 40 * k..], n - k - 1, data[48 + 40 * k..84 + 40 * k], ClockOf(data, k + 1))
  {
    ClockOfStep(data, k);
    hide *;
    var at := 44 + 40 * k;
    EntryRead(data, at, buf);
    DecodedClockStep(data[at..], n - k, buf, ClockOf(data, k), Value32(data[at..at + 4]), data[at + 4..],
                     data[at + 4..at + 40], data[at + 40..]);
  }

  lemma {:induction false} ClockRead(data: Str, k: nat, n: nat, buf: Str)
    requires k <= n && 44 + 40 * n <= |data| && |buf| == 36
    ensures DecodedClock(data[44 + 40 * k..], n - k, buf, ClockOf(data, k))
         == Got(ClockOf(data, n), data[44 + 40 * n..])
    decreases n - k
  {
    if k == n {
      hide ClockOf;
    } else {
      hide *;
      ClockReadStep(data, k, n, buf);
      ClockRead(data, k + 1, n, data[48 + 40 * k..84 + 40 * k]);
      assert 44 + 40 * (k + 1) == 84 + 40 * k;
    }
  }

  lemma HeadRead(data: Str, ip: Str)
    requires |data| >= 44
    ensures DecodedHead(data, ip) ==
      match DecodedClock(data[44..], Value32(data[40..44]), data[4..40], map[])
      case Short => Short
      case Got(clock, rest) => Got(Message(Value32(data[..4]), ip, data[4..40], clock, []), rest)
  {
    hide Value32, DecodedClock;
    var r1, r2 := data[4..], data[40..];
    assert r1[..36] == data[4..40] && r1[36..] == r2;
    assert r2[..4] == data[40..44] && r2[4..] == data[44..];
  }

  /** Clock and body decide what comes out. */
  lemma DecodedByClock(data: Str, ip: Str)
    requires |data| >= 44
    ensures var clock := DecodedClock(data[44..], Value32(data[40..44]), data[4..40], map[]);
            Decoded(data, ip) ==
            if clock.Short? || DecodedBody(clock.rest).Short? then Err
            else Ok(Message(Value32(data[..4]), ip, data[4..40], clock.value, DecodedBody(clock.rest).value))
  {
    HeadRead(data, ip);
    hide Value32, DecodedClock, DecodedHead, DecodedBody;
  }

  lemma ClockComplete(data: Str, n: nat)
    requires 44 <= |data|
    ensures var clock := DecodedClock(data[44..], n, data[4..40], map[]);
            if |data| <= 52 + 40 * n then clock.Got? ==> |clock.rest| <= 8
            else clock == Got(ClockOf(data, n), data[44 + 40 * n..])
  {
    DecodedClockRest(data[44..], n, data[4..40], map[]);
    if |data| > 52 + 40 * n {
      ClockRead(data, 0, n, data[4..40]);
    }
  }

  lemma BodyAt(data: Str, at: nat)
    requires at + 8 < |data|
    ensures DecodedBody(data[at..]).Got?
    ensures DecodedBody(data[at..]).value == Sized(data[at + 8..], Value64(data[at..at + 8]))
  {
    BodyRead(data[at..]);
    SliceOf(data, at, 0, 8);
    hide DecodedBody, Sized;
    assert data[at..][..8] == data[at..][0..8];
  }

  /** What comes out of any datagram, whoever wrote it. */
  lemma DecodedLayout(data: Str, ip: Str)
    requires |data| >= 44
    ensures var n := Value32(data[40..44]);
            Decoded(data, ip) ==
            if |data| <= 52 + 40 * n then Err
            else Ok(Message(Value32(data[..4]), ip, data[4..40], ClockOf(data, n),
                            Sized(data[52 + 40 * n..], Value64(data[44 + 40 * n..52 + 40 * n]))))
  {
    hide *;
    var n: nat := Value32(data[40..44]);
    DecodedByClock(data, ip);
    ClockComplete(data, n);
    if |data| <= 52 + 40 * n {
      var clock := DecodedClock(data[44..], n, data[4..40], map[]);
      if clock.Got? {
        BodyRead(clock.rest);
      }
    } else {
      BodyAt(data, 44 + 40 * n);
    }
  }

  /** Shorter datagrams do not decode. */
  lemma DecodedShort(data: Str, ip: Str)
    requires |data| < 44
    ensures Decoded(data, ip) == Err
  {
    hide Value32, DecodedClock, Zeros;
  }
}
