// server/unicast/unicast.go, encodeUnicastMessage and decodeUnicastMessage.
module UnicastFraming {
  import opened Bytes

  datatype Message = Message(
    response: Byte,
    frame: U64,
    tries: Byte,
    fromUUID: Str,
    toUUID: Str,
    ip: Str,
    message: Str)

  const BLANK := Message(0, 0, 0, [], [], [], [])

  const HEADER := 82

  function Header(m: Message): (h: Str)
    ensures |h| == HEADER
  {
    [m.response] + Put64(m.frame) + [m.tries] + Fix36(m.fromUUID) + Fix36(m.toUUID)
  }

  function Encoded(m: Message): Str {
    if m.response == 1 then Header(m)
    else Header(m) + Put64(Low64(|m.message|)) + m.message
  }

  method Encode(m: Message) returns (buf: Str)
    ensures buf == Encoded(m)
  {
    buf := [m.response];
    buf := buf + Put64(m.frame);
    buf := buf + [m.tries];
    buf := buf + Fix36(m.fromUUID);
    buf := buf + Fix36(m.toUUID);
    if m.response == 1 {
      return;
    }
    buf := buf + Put64(Low64(|m.message|));
    buf := buf + m.message;
  }

  /** The fixed part. Both ids are read into one buffer, so a short second read keeps bytes of the first. */
  function DecodedHeader(data: Str, ip: Str): Parse<Message> {
    var (response, r1) :- Get8(data);
    var (frame, r2) :- Get64(r1);
    var (tries, r3) :- Get8(r2);
    var (fromId, r4) :- ReadInto(r3, Zeros(36));
    var (toId, r5) :- ReadInto(r4, fromId);
    Got(Message(response, frame, tries, fromId, toId, ip, []), r5)
  }

  /** What decoding returns; a message that is no response always comes back with response 0. */
  function Decoded(data: Str, ip: Str): Result<Message> {
    var h := DecodedHeader(data, ip);
    if h.Short? then Err
    else if h.value.response == 1 then Ok(h.value)
    else
      var b := DecodedBody(h.rest);
      if b.Short? then Err else Ok(h.value.(response := 0, message := b.value))
  }

  method Decode(data: Str, ip: Str) returns (r: Result<Message>)
    ensures r == Decoded(data, ip)
  {
    hide Get64, ReadInto, Zeros, DecodedBody;
    var reader := new Reader(data);
    var ok, response := reader.ReadByte();
    if !ok {
      return Err;
    }
    var frame, tries, uuidBytes, strBytes;
    ok, frame := reader.ReadUint64();
    if !ok {
      return Err;
    }
    ok, tries := reader.ReadByte();
    if !ok {
      return Err;
    }
    ok, uuidBytes := reader.Read(Zeros(36));
    if !ok {
      return Err;
    }
    var fromId := uuidBytes;
    ok, uuidBytes := reader.Read(uuidBytes);
    if !ok {
      return Err;
    }
    var msg := Message(response, frame, tries, fromId, uuidBytes, ip, []);
    if response == 1 {
      return Ok(msg);
    }
    ok, strBytes := reader.ReadBody();
    if !ok {
      return Err;
    }
    return Ok(msg.(response := 0, message := strBytes));
  }

  // ---------------------------------------------------------------------
  // Layout
  // ---------------------------------------------------------------------

  lemma PartsOf(a: Str, b: Str, c: Str, d: Str, e: Str, tail: Str)
    requires |a| == 1 && |b| == 8 && |c| == 1 && |d| == 36 && |e| == 36
    ensures var s := a + b + c + d + e + tail;
            && s[..1] == a && s[1..9] == b && s[9..10] == c && s[10..46] == d && s[46..82] == e && s[82..] == tail
  {
  }

  function Tail(m: Message): Str {
    if m.response == 1 then [] else Put64(Low64(|m.message|)) + m.message
  }

  lemma HeaderAndTail(m: Message)
    ensures Encoded(m) == [m.response] + Put64(m.frame) + [m.tries] + Fix36(m.fromUUID) + Fix36(m.toUUID) + Tail(m)
  {
    hide Put64, Fix36;
    assert Header(m) + [] == Header(m);
  }

  /** Where each field of the header lies. */
  lemma HeaderLayout(m: Message)
    ensures |Encoded(m)| >= 82 && Encoded(m)[0] == m.response && Encoded(m)[9] == m.tries
    ensures FromBigEndian(Encoded(m)[1..9]) == m.frame
    ensures Encoded(m)[10..46] == Fix36(m.fromUUID) && Encoded(m)[46..82] == Fix36(m.toUUID)
    ensures Encoded(m)[82..] == Tail(m)
  {
    HeaderAndTail(m);
    FromPut64(m.frame);
    hide *;
    PartsOf([m.response], Put64(m.frame), [m.tries], Fix36(m.fromUUID), Fix36(m.toUUID), Tail(m));
    assert Encoded(m)[..1][0] == m.response && Encoded(m)[9..10][0] == m.tries;
  }

  lemma TailCases(m: Message)
    requires |m.message| < TWO_64
    ensures Tail(m) == if m.response == 1 then [] else Put64(|m.message|) + m.message
  {
    LowFits(|m.message|);
    hide Low64, Put64;
  }

  lemma TailOf(s: Str, n: Str, body: Str)
    requires |s| >= 82 && |n| == 8
    ensures s[82..] == n + body ==> |s| == 90 + |body| && s[82..90] == n && s[90..] == body
  {
    if s[82..] == n + body {
      assert s[82..][..8] == s[82..90] && s[82..][8..] == s[90..];
    }
  }

  /** An ack ends after the ids; a data frame goes on with length and payload. */
  lemma PayloadLayout(m: Message)
    requires |m.message| < TWO_64
    ensures m.response == 1 ==> |Encoded(m)| == 82
    ensures m.response != 1 ==> |Encoded(m)| == 90 + |m.message|
    ensures m.response != 1 ==> FromBigEndian(Encoded(m)[82..90]) == |m.message| && Encoded(m)[90..] == m.message
  {
    TailCases(m);
    hide *;
    HeaderLayout(m);
    FromPut64(|m.message|);
    TailOf(Encoded(m), Put64(|m.message|), m.message);
  }

  /** What is read of the header of any datagram that is long enough, whoever wrote it. */
  lemma HeaderRead(data: Str, ip: Str)
    requires |data| >= 82
    ensures DecodedHeader(data, ip)
         == Got(Message(data[0], Value64(data[1..9]), data[9], data[10..46], data[46..82], ip, []), data[82..])
  {
    Widths();
    var r1, r2, r3, r4 := data[1..], data[9..], data[10..], data[46..];
    assert r1[..8] == data[1..9] && r1[8..] == r2;
    assert r2[0] == data[9] && r2[1..] == r3;
    assert r3[..36] == data[10..46] && r3[36..] == r4;
    assert r4[..36] == data[46..82] && r4[36..] == data[82..];
    hide Value64;
  }

  lemma ShortHeader(data: Str, ip: Str)
    requires 46 < |data| < 82
    ensures DecodedHeader(data, ip)
         == Got(Message(data[0], Value64(data[1..9]), data[9], data[10..46],
                        data[46..] + data[|data| - 36..46], ip, []), [])
  {
    Widths();
    var r1, r2, r3, r4 := data[1..], data[9..], data[10..], data[46..];
    assert r1[..8] == data[1..9] && r1[8..] == r2;
    assert r2[0] == data[9] && r2[1..] == r3;
    assert r3[..36] == data[10..46] && r3[36..] == r4;
    assert r4 + data[10..46][|r4|..] == r4 + data[|data| - 36..46];
    hide FromBigEndian;
  }

  lemma NoHeader(data: Str, ip: Str)
    requires |data| <= 46
    ensures DecodedHeader(data, ip).Short?
  {
    hide FromBigEndian, Zeros;
  }

  /** What comes out of any datagram with a whole header. */
  lemma DecodedLayout(data: Str, ip: Str)
    requires |data| >= 82
    ensures Decoded(data, ip) ==
      if data[0] == 1 then
        Ok(Message(1, Value64(data[1..9]), data[9], data[10..46], data[46..82], ip, []))
      else if |data| <= 90 then Err
      else
        Ok(Message(0, Value64(data[1..9]), data[9], data[10..46], data[46..82], ip,
                   Sized(data[90..], FromBigEndian(data[82..90]))))
  {
    HeaderRead(data, ip);
    hide DecodedHeader;
    if data[0] != 1 {
      BodyRead(data[82..]);
      if |data| > 90 {
        assert data[82..][..8] == data[82..90] && data[82..][8..] == data[90..];
      }
    }
  }

  /** Of a datagram cut short in the header only an ack survives, and only with a byte of the second id. */
  lemma DecodedShort(data: Str, ip: Str)
    requires |data| < 82
    ensures Decoded(data, ip).Ok? <==> |data| > 46 && data[0] == 1
    ensures |data| > 46 && data[0] == 1 ==>
      Decoded(data, ip)
      == Ok(Message(1, Value64(data[1..9]), data[9], data[10..46], data[46..] + data[|data| - 36..46], ip, []))
  {
    if |data| > 46 {
      ShortHeader(data, ip);
      hide DecodedHeader, DecodedBody;
      BodyRead([]);
    } else {
      NoHeader(data, ip);
    }
  }

  // ---------------------------------------------------------------------
  // Round trip
  // ---------------------------------------------------------------------

  lemma HeaderRoundTrip(m: Message, tail: Str, ip: Str)
    ensures DecodedHeader(Header(m) + tail, ip)
         == Got(m.(fromUUID := Fix36(m.fromUUID), toUUID := Fix36(m.toUUID), ip := ip, message := []), tail)
  {
    hide Put64, Get64, ReadInto, Zeros, Fix36;
    var f, t := Fix36(m.fromUUID), Fix36(m.toUUID);
    var r4 := t + tail;
    var r3 := f + r4;
    var r2 := [m.tries] + r3;
    var r1 := Put64(m.frame) + r2;
    assert Header(m) + tail == [m.response] + r1;
    Get64Put64(m.frame, r2);
    ReadExact(f, r4, Zeros(36));
    ReadExact(t, tail, f);
    assert r2[1..] == r3;
  }

  /** Decoding any encoding, ids of any length: the ids come back padded or cut to 36 bytes. */
  lemma DecodeEncoded(m: Message, ip: Str)
    requires |m.message| < TWO_64
    ensures Decoded(Encoded(m), ip) ==
      var d := m.(fromUUID := Fix36(m.fromUUID), toUUID := Fix36(m.toUUID), ip := ip);
      if m.response == 1 then Ok(d.(message := []))
      else if m.message == [] then Err
      else Ok(d.(response := 0))
  {
    hide Put64, Get64, DecodedHeader, DecodedBody, Header, Fix36;
    if m.response == 1 {
      assert Encoded(m) == Header(m) + [];
      HeaderRoundTrip(m, [], ip);
    } else {
      var tail := Put64(|m.message|) + m.message;
      assert Encoded(m) == Header(m) + tail;
      HeaderRoundTrip(m, tail, ip);
      BodyRoundTrip(m.message);
    }
  }

  /** What the frame carries: an ack has no payload. */
  function Carried(m: Message): Message {
    if m.response == 1 then m.(message := []) else m
  }

  predicate Survives(m: Message) {
    && |m.fromUUID| == 36 && |m.toUUID| == 36
    && (m.response == 1 || (m.response == 0 && 0 < |m.message| < TWO_64))
  }

  /** Decoding the encoding gives the frame back exactly when `Survives` holds. */
  lemma RoundTrip(m: Message, ip: Str)
    ensures Decoded(Encoded(m), ip) == Ok(Carried(m).(ip := ip)) <==> Survives(m)
  {
    if m.response == 1 {
      DecodeEncoded(m.(message := []), ip);
      assert Encoded(m) == Encoded(m.(message := []));
    } else if |m.message| < TWO_64 {
      DecodeEncoded(m, ip);
    }
  }

  // ---------------------------------------------------------------------
  // The 1024-byte read buffer
  // ---------------------------------------------------------------------

  // Payload bytes that fit behind the header and the length.
  const PAYLOAD_ROOM := 934

  /** The payload as the listener sees it. */
  function Seen(payload: Str): (p: Str)
    ensures |p| == |payload|
  {
    Cut(payload, PAYLOAD_ROOM)
  }

  /** What the listener makes of any data frame, however long. */
  lemma ReceiveClipped(m: Message, ip: Str)
    requires m.response == 0 && 0 < |m.message| < TWO_64
    ensures Decoded(Clip(Encoded(m)), ip) ==
      Ok(m.(fromUUID := Fix36(m.fromUUID), toUUID := Fix36(m.toUUID), ip := ip, message := Seen(m.message)))
  {
    hide Put64, Get64, DecodedHeader, DecodedBody, Header, Fix36;
    if |m.message| <= PAYLOAD_ROOM {
      DecodeEncoded(m, ip);
    } else {
      var tail := Put64(|m.message|) + m.message[..PAYLOAD_ROOM];
      assert Clip(Encoded(m)) == Header(m) + tail;
      HeaderRoundTrip(m, tail, ip);
      ClippedBody(m.message, PAYLOAD_ROOM);
    }
  }

  /** A payload arrives unchanged exactly when every byte beyond the room in the buffer is zero. */
  lemma PayloadIntact(payload: Str)
    ensures Seen(payload) == payload <==> forall i :: 934 <= i < |payload| ==> payload[i] == 0
  {
    CutIntact(payload, PAYLOAD_ROOM);
  }

  // ---------------------------------------------------------------------
  // Retransmission: decode, bump Tries, encode again
  // ---------------------------------------------------------------------

  // Offset of the Tries byte.
  const TRIES_AT := 9

  /** Only the Tries byte of the datagram depends on `tries`. */
  lemma TriesByte(m: Message, t: Byte)
    ensures |Encoded(m)| > TRIES_AT
    ensures Encoded(m.(tries := t)) == Encoded(m)[TRIES_AT := t]
  {
    hide Put64, Fix36;
    var a, b := Header(m), Header(m.(tries := t));
    var pre := [m.response] + Put64(m.frame);
    var post := Fix36(m.fromUUID) + Fix36(m.toUUID);
    assert a == pre + [m.tries] + post && b == pre + [t] + post;
    assert b == a[TRIES_AT := t];
  }

  /** Encoding what was decoded gives the same datagram again, whatever the ids. */
  lemma Reencoded(m: Message, ip: Str, t: Byte)
    requires m.response == 0 && 0 < |m.message| < TWO_64
    ensures Decoded(Encoded(m), ip).Ok?
    ensures Decoded(Encoded(m), ip).value.tries == m.tries
    ensures Encoded(Decoded(Encoded(m), ip).value.(tries := t)) == Encoded(m.(tries := t))
  {
    hide Put64, Zeros, Decoded;
    DecodeEncoded(m, ip);
  }
}
