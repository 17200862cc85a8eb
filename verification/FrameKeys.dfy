// server/unicast/unicast.go: the string keys `id ++ decimal(frame)` of the buffers and ack tables.
module FrameKeys {
  import opened Bytes

  const ZERO: Byte := 48

  /** The decimal digits of `n`, as "%d" prints them. */
  function Decimal(n: nat): (s: Str)
    ensures s != []
  {
    if n < 10 then [ZERO + n] else Decimal(n / 10) + [ZERO + n % 10]
  }

  function Value(s: Str): int {
    if s == [] then 0
    else
      var last: int := s[|s| - 1];
      10 * Value(s[..|s| - 1]) + last - 48
  }

  lemma {:induction false} ValueOfDecimal(n: nat)
    ensures Value(Decimal(n)) == n
  {
    var s := Decimal(n);
    if n >= 10 {
      ValueOfDecimal(n / 10);
      assert s[..|s| - 1] == Decimal(n / 10);
    } else {
      assert s[..0] == [];
    }
  }

  function Key(id: Str, frame: nat): Str { id + Decimal(frame) }

  /** For ids of one length the key tells the peer and the frame. */
  lemma KeyInjective(id: Str, frame: nat, id': Str, frame': nat)
    requires |id| == |id'|
    ensures Key(id, frame) == Key(id', frame') <==> id == id' && frame == frame'
  {
    if Key(id, frame) == Key(id', frame') {
      assert id == Key(id, frame)[..|id|] == Key(id', frame')[..|id|] == id';
      assert Decimal(frame) == Key(id, frame)[|id|..] == Key(id', frame')[|id|..] == Decimal(frame');
      ValueOfDecimal(frame);
      ValueOfDecimal(frame');
    }
  }

  /** For ids of one length a key starts with an id exactly when it belongs to it. */
  lemma PrefixIsOwner(id: Str, id': Str, frame: nat)
    requires |id| == |id'|
    ensures id <= Key(id', frame) <==> id == id'
  {
    if id <= Key(id', frame) {
      assert id == Key(id', frame)[..|id|] == id';
    }
  }

  /** Without a fixed length, two peers can share a key. */
  lemma KeysCollide()
    ensures Key([ZERO + 1], 23) == Key([ZERO + 1, ZERO + 2], 3)
  {
    assert Decimal(23) == Decimal(2) + [ZERO + 3];
  }
}
