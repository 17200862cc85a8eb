// Go strings and byte slices, fixed-width integers, big-endian fields and the
// byte reader that the three codecs share.
module Bytes {

  type Byte = x: int | 0 <= x < 0x100
  type U32 = x: int | 0 <= x < 0x1_0000_0000
  type U64 = x: int | 0 <= x < 0x1_0000_0000_0000_0000

  const TWO_32: int := 0x1_0000_0000
  const TWO_64: int := 0x1_0000_0000_0000_0000

  // A Go string is a sequence of bytes.
  type Str = seq<Byte>

  datatype Option<+T> = None | Some(value: T)
  datatype Result<+T> = Ok(value: T) | Err

  /** `++` on a uint32. */
  function Inc32(x: U32): U32 { (x + 1) % TWO_32 }

  lemma IncWraps(n: nat)
    ensures Inc32(n % TWO_32) == (n + 1) % TWO_32
  {
  }

  lemma WrapsAt(n: nat)
    ensures n % TWO_32 == n <==> n < TWO_32
  {
  }

  /** `++` on a uint64. */
  function Inc64(x: U64): U64 { (x + 1) % TWO_64 }

  /** uint32(n): conversion keeps the low 32 bits. */
  function Low32(n: nat): U32 { n % TWO_32 }

  /** uint64(n). */
  function Low64(n: nat): U64 { n % TWO_64 }

  lemma LowFits(n: nat)
    ensures n < TWO_64 ==> Low64(n) == n
    ensures n < TWO_32 ==> Low32(n) == n
  {
  }

  lemma Assoc<T>(a: seq<T>, b: seq<T>, c: seq<T>)
    ensures (a + b) + c == a + (b + c)
  {
  }

  lemma Assoc4<T>(a: seq<T>, b: seq<T>, c: seq<T>, d: seq<T>, e: seq<T>)
    ensures a + b + c + d + e == a + (b + (c + (d + e)))
  {
    Assoc(a + b + c, d, e);
    Assoc(a + b, c, d + e);
    Assoc(a, b, c + (d + e));
  }

  function Zeros(n: nat): (z: Str)
    ensures |z| == n
  {
    seq(n, _ => 0)
  }

  // ---------------------------------------------------------------------
  // Big-endian integers
  // ---------------------------------------------------------------------

  function Pow256(n: nat): (p: nat)
    ensures p >= 1
  {
    if n == 0 then 1 else 256 * Pow256(n - 1)
  }

  function BigEndian(v: nat, n: nat): (s: Str)
    ensures |s| == n
  {
    if n == 0 then [] else BigEndian(v / 256, n - 1) + [v % 256]
  }

  function FromBigEndian(s: Str): (v: nat)
    ensures v < Pow256(|s|)
  {
    if s == [] then 0
    else
      var last: int := s[|s| - 1];
      256 * FromBigEndian(s[..|s| - 1]) + last
  }

  lemma LastDigit(v: nat, p: nat)
    requires v < 256 * p
    ensures v / 256 < p && v == 256 * (v / 256) + v % 256
  {
  }

  lemma FromBigEndianAppend(s: Str, b: Byte, v: nat)
    requires FromBigEndian(s) == v
    ensures FromBigEndian(s + [b]) == 256 * v + b
  {
    assert (s + [b])[..|s|] == s;
  }

  lemma {:induction false} FromBigEndianInverts(v: nat, n: nat)
    requires v < Pow256(n)
    ensures FromBigEndian(BigEndian(v, n)) == v
  {
    if n == 0 {
    } else {
      LastDigit(v, Pow256(n - 1));
      FromBigEndianInverts(v / 256, n - 1);
      assert BigEndian(v, n) == BigEndian(v / 256, n - 1) + [v % 256];
      hide FromBigEndian, Pow256, BigEndian;
      FromBigEndianAppend(BigEndian(v / 256, n - 1), v % 256, v / 256);
    }
  }

  lemma {:induction false} TimesMonotone(d: nat, a: nat, b: nat)
    requires a <= b
    ensures d * a <= d * b
    decreases b
  {
    if a == b {
    } else {
      TimesMonotone(d, a, b - 1);
      assert d * b == d * (b - 1) + d;
    }
  }

  lemma QuotientOf(v: nat, d: nat, q: nat, r: nat)
    requires d > 0 && v == d * q + r && r < d
    ensures v / d == q
  {
    var x, m := v / d, v % d;
    assert v == d * x + m && d * (q + 1) == d * q + d && d * (x + 1) == d * x + d;
    if x > q {
      TimesMonotone(d, q + 1, x);
    } else if x < q {
      TimesMonotone(d, x + 1, q);
    }
  }

  lemma DivideTwice(v: nat, p: nat)
    requires p > 0
    ensures v / 256 / p == v / (256 * p)
  {
    var q, r := v / 256, v % 256;
    var a, b := q / p, q % p;
    QuotientOf(v, 256 * p, a, 256 * b + r);
  }

  /** The most significant byte comes first: byte `k` is the digit for 256 to the power n - 1 - k. */
  lemma {:induction false} BigEndianDigit(v: nat, n: nat, k: nat)
    requires k < n
    ensures BigEndian(v, n)[k] == v / Pow256(n - 1 - k) % 256
  {
    if k == n - 1 {
      assert Pow256(0) == 1;
    } else {
      BigEndianDigit(v / 256, n - 1, k);
      DivideTwice(v, Pow256(n - 2 - k));
    }
  }

  /** Writing what was read gives the same bytes. */
  lemma {:induction false} BigEndianInverts(s: Str)
    ensures BigEndian(FromBigEndian(s), |s|) == s
  {
    if s == [] {
    } else {
      var front, last: int := s[..|s| - 1], s[|s| - 1];
      BigEndianInverts(front);
      assert FromBigEndian(s) / 256 == FromBigEndian(front) && FromBigEndian(s) % 256 == last;
      assert s == front + [s[|s| - 1]];
    }
  }

  lemma Widths()
    ensures Pow256(4) == TWO_32 && Pow256(8) == TWO_64
  {
    assert Pow256(4) == 256 * Pow256(3) == 256 * 256 * Pow256(2);
    assert Pow256(8) == 256 * Pow256(7) == 256 * 256 * Pow256(6);
  }

  function Put32(v: U32): (s: Str)
    ensures |s| == 4
  {
    BigEndian(v, 4)
  }

  function Put64(v: U64): (s: Str)
    ensures |s| == 8
  {
    BigEndian(v, 8)
  }

  lemma FromPut32(v: U32)
    ensures FromBigEndian(Put32(v)) == v
  {
    Widths();
    FromBigEndianInverts(v, 4);
  }

  lemma FromPut64(v: U64)
    ensures FromBigEndian(Put64(v)) == v
  {
    Widths();
    FromBigEndianInverts(v, 8);
  }

  function Value32(s: Str): U32
    requires |s| == 4
  {
    Widths();
    FromBigEndian(s)
  }

  function Value64(s: Str): U64
    requires |s| == 8
  {
    Widths();
    FromBigEndian(s)
  }

  // ---------------------------------------------------------------------
  // Reading: every reader returns the value and the bytes that are left
  // ---------------------------------------------------------------------

  datatype Parse<+T> = Got(value: T, rest: Str) | Short {
    predicate IsFailure() { Short? }

    function PropagateFailure<U>(): Parse<U>
      requires Short?
    {
      Short
    }

    function Extract(): (T, Str)
      requires Got?
    {
      (value, rest)
    }
  }

  function Get8(rest: Str): Parse<Byte> {
    if |rest| < 1 then Short else Got(rest[0], rest[1..])
  }

  function Get32(rest: Str): Parse<U32> {
    if |rest| < 4 then Short else Got(Value32(rest[..4]), rest[4..])
  }

  function Get64(rest: Str): Parse<U64> {
    if |rest| < 8 then Short else Got(Value64(rest[..8]), rest[8..])
  }

  /**
   `bytes.Reader.Read(buf)`. At the end of the data it reports EOF, even for an
   empty buffer; a short read is not an error and leaves the tail of `buf` as
   it was.
   */
  function ReadInto(rest: Str, buf: Str): (r: Parse<Str>)
    ensures r.Short? <==> rest == []
    ensures r.Got? ==> |r.value| == |buf|
  {
    if rest == [] then Short
    else if |buf| <= |rest| then Got(rest[..|buf|], rest[|buf|..])
    else Got(rest + buf[|rest|..], [])
  }

  lemma Get32Put32(v: U32, tail: Str)
    ensures Get32(Put32(v) + tail) == Got(v, tail)
  {
    Widths();
    FromBigEndianInverts(v, 4);
    assert (Put32(v) + tail)[..4] == Put32(v);
    assert (Put32(v) + tail)[4..] == tail;
  }

  lemma Get64Put64(v: U64, tail: Str)
    ensures Get64(Put64(v) + tail) == Got(v, tail)
  {
    Widths();
    FromBigEndianInverts(v, 8);
    assert (Put64(v) + tail)[..8] == Put64(v);
    assert (Put64(v) + tail)[8..] == tail;
  }

  lemma ReadExact(x: Str, tail: Str, buf: Str)
    requires |x| == |buf|
    requires x + tail != []
    ensures ReadInto(x + tail, buf) == Got(x, tail)
  {
    assert (x + tail)[..|buf|] == x;
    assert (x + tail)[|buf|..] == tail;
  }

  /** Reading from data that stops short of the buffer keeps the buffer's tail. */
  lemma ReadClipped(x: Str, buf: Str)
    requires 0 < |x| <= |buf|
    ensures ReadInto(x, buf) == Got(x + buf[|x|..], [])
  {
    if |x| == |buf| {
      assert x[..|buf|] == x + buf[|x|..];
    }
  }

  /** The first `n` bytes of what is there, zeros for what is not. */
  function Sized(s: Str, n: nat): (r: Str)
    ensures |r| == n
    ensures forall i :: 0 <= i < n ==> r[i] == if i < |s| then s[i] else 0
  {
    if n <= |s| then s[..n] else s + Zeros(n - |s|)
  }

  function Drop(s: Str, n: nat): Str {
    if n <= |s| then s[n..] else []
  }

  lemma ReadSized(rest: Str, n: nat)
    ensures ReadInto(rest, Zeros(n)) == if rest == [] then Short else Got(Sized(rest, n), Drop(rest, n))
  {
    assert n > |rest| ==> Zeros(n)[|rest|..] == Zeros(n - |rest|);
  }

  /** A field behind its 64-bit length. */
  function DecodedBody(rest: Str): (r: Parse<Str>)
    ensures r.Got? ==> |r.value| < TWO_64
  {
    var (n, r1) :- Get64(rest);
    ReadInto(r1, Zeros(n))
  }

  /** What is read as a body from any bytes. */
  lemma BodyRead(rest: Str)
    ensures |rest| <= 8 ==> DecodedBody(rest).Short?
    ensures |rest| > 8 ==> DecodedBody(rest).Got?
    ensures |rest| > 8 ==> DecodedBody(rest).value == Sized(rest[8..], FromBigEndian(rest[..8]))
  {
    if |rest| >= 8 {
      ReadSized(rest[8..], FromBigEndian(rest[..8]));
    }
  }

  lemma BodyRoundTrip(s: Str)
    requires |s| < TWO_64
    ensures DecodedBody(Put64(|s|) + s) == if s == [] then Short else Got(s, [])
  {
    hide Put64, Get64;
    Get64Put64(|s|, s);
    if s != [] {
      assert s + [] == s;
      ReadExact(s, [], Zeros(|s|));
    }
  }

  // ---------------------------------------------------------------------
  // Read buffers
  // ---------------------------------------------------------------------

  // The unicast and the multicast listener read every datagram into a buffer of this size.
  const READ_BUFFER := 1024

  /** ReadFrom drops what does not fit the buffer. */
  function Clip(data: Str): Str {
    if |data| <= READ_BUFFER then data else data[..READ_BUFFER]
  }

  /** At most 1024 bytes arrive, and those are the first ones. */
  lemma ClipIsPrefix(data: Str)
    ensures Clip(data) <= data && |Clip(data)| == if |data| < 1024 then |data| else 1024
  {
  }

  /** Cutting a slice out of a slice. */
  lemma SliceOf(s: Str, low: nat, a: nat, b: nat)
    requires a <= b && low + b <= |s|
    ensures s[low..][a..b] == s[low + a..low + b] && s[low..][b..] == s[low + b..]
  {
  }

  /** A field of which only the first `room` bytes were there: the others read as zero. */
  function Cut(s: Str, room: nat): (c: Str)
    ensures |c| == |s|
  {
    if |s| <= room then s else s[..room] + Zeros(|s| - room)
  }

  /** Cutting does no harm exactly when every byte beyond the room is zero. */
  lemma CutIntact(s: Str, room: nat)
    ensures Cut(s, room) == s <==> forall i :: room <= i < |s| ==> s[i] == 0
  {
    if |s| > room && forall i :: room <= i < |s| ==> s[i] == 0 {
      assert s == s[..room] + s[room..];
      assert s[room..] == Zeros(|s| - room);
    } else if |s| > room {
      forall i | room <= i < |s|
        ensures Cut(s, room)[i] == 0
      {
      }
    }
  }

  lemma ClippedBody(s: Str, room: nat)
    requires 0 < room < |s| < TWO_64
    ensures DecodedBody(Put64(|s|) + s[..room]) == Got(Cut(s, room), [])
  {
    hide Put64, Get64;
    Get64Put64(|s|, s[..room]);
    ReadClipped(s[..room], Zeros(|s|));
    assert Zeros(|s|)[room..] == Zeros(|s| - room);
  }

  // ---------------------------------------------------------------------
  // Fixed-width ids
  // ---------------------------------------------------------------------

  /** Ids are written in exactly 36 bytes: longer ones are cut, shorter ones padded with zeros. */
  function Fix36(s: Str): (r: Str)
    ensures |r| == 36
    ensures |s| == 36 ==> r == s
  {
    if |s| > 36 then s[..36] else s + Zeros(36 - |s|)
  }

  /** Byte by byte: the id, then zeros. */
  lemma Fix36Bytes(s: Str, i: nat)
    requires i < 36
    ensures Fix36(s)[i] == if i < |s| then s[i] else 0
  {
  }

  // ---------------------------------------------------------------------
  // bytes.Reader
  // ---------------------------------------------------------------------

  class Reader {
    const data: Str
    var pos: nat

    constructor (data: Str)
      ensures this.data == data && pos == 0
      ensures Valid() && Rest() == data
    {
      this.data := data;
      pos := 0;
    }

    ghost predicate Valid()
      reads this
    {
      pos <= |data|
    }

    function Rest(): Str
      requires pos <= |data|
      reads this
    {
      data[pos..]
    }

    method ReadByte() returns (ok: bool, v: Byte)
      requires Valid()
      modifies this
      ensures Valid()
      ensures ok == Get8(old(Rest())).Got?
      ensures ok ==> Get8(old(Rest())) == Got(v, Rest())
    {
      ok, v := pos < |data|, 0;
      if ok {
        v := data[pos];
        pos := pos + 1;
      }
    }

    method ReadUint32() returns (ok: bool, v: U32)
      requires Valid()
      modifies this
      ensures Valid()
      ensures ok == Get32(old(Rest())).Got?
      ensures ok ==> Get32(old(Rest())) == Got(v, Rest())
    {
      ok, v := pos + 4 <= |data|, 0;
      if ok {
        v := Value32(data[pos..pos + 4]);
        assert data[pos..pos + 4] == Rest()[..4];
        pos := pos + 4;
      } else {
        pos := |data|;
      }
    }

    method ReadUint64() returns (ok: bool, v: U64)
      requires Valid()
      modifies this
      ensures Valid()
      ensures ok == Get64(old(Rest())).Got?
      ensures ok ==> Get64(old(Rest())) == Got(v, Rest())
    {
      ok, v := pos + 8 <= |data|, 0;
      if ok {
        v := Value64(data[pos..pos + 8]);
        assert data[pos..pos + 8] == Rest()[..8];
        pos := pos + 8;
      } else {
        pos := |data|;
      }
    }

    method Read(buf: Str) returns (ok: bool, filled: Str)
      requires Valid()
      modifies this
      ensures Valid()
      ensures ok == ReadInto(old(Rest()), buf).Got?
      ensures ok ==> ReadInto(old(Rest()), buf) == Got(filled, Rest())
    {
      ok, filled := pos < |data|, buf;
      if ok {
        var n := if |buf| <= |data| - pos then |buf| else |data| - pos;
        ghost var rest := Rest();
        filled := data[pos..pos + n] + buf[n..];
        pos := pos + n;
        assert data[pos - n..pos] == rest[..n] && Rest() == rest[n..];
        assert n == |buf| ==> filled == rest[..n];
        assert n < |buf| ==> rest[..n] == rest && Rest() == [];
      }
    }

    /** The 64-bit length and that many bytes. */
    method ReadBody() returns (ok: bool, s: Str)
      requires Valid()
      modifies this
      ensures Valid()
      ensures ok == DecodedBody(old(Rest())).Got?
      ensures ok ==> DecodedBody(old(Rest())) == Got(s, Rest())
    {
      hide Get64, ReadInto, Zeros;
      var n;
      s := [];
      ok, n := ReadUint64();
      if ok {
        ok, s := Read(Zeros(n));
      }
    }
  }
}
