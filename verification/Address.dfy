/** The SOCKS5-style address codec: one byte of type, the address, and a big-endian port. */
module Address {
  import opened Bytes
  import opened Utf8

  type Name = s: bytes | ValidUtf8(s) witness []
  type Octets = s: bytes | |s| == 4 witness [0, 0, 0, 0]
  type Segments = s: seq<u16> | |s| == 8 witness [0, 0, 0, 0, 0, 0, 0, 0]

  /** An IPv6 socket address also carries a flow label and a scope, which the codec does not transmit. */
  datatype Address =
    | V4(octets: Octets, port: u16)
    | V6(segments: Segments, port: u16, flow: nat, scope: nat)
    | Domain(name: Name, port: u16)

  const IPV4: byte := 1
  const DOMAIN_NAME: byte := 3
  const IPV6: byte := 4

  const DUMMY := V4([0, 0, 0, 0], 0)

  function SerializedLen(a: Address): nat {
    match a
    case V4(_, _) => 1 + 4 + 2
    case V6(_, _, _, _) => 1 + 8 * 2 + 2
    case Domain(name, _) => 1 + 1 + |name| + 2
  }

  function SegmentBytes(s: seq<u16>): (r: bytes)
    ensures |r| == 2 * |s|
  {
    if s == [] then [] else BigEndian16(s[0]) + SegmentBytes(s[1..])
  }

  function ReadSegments(n: nat, w: bytes): (r: seq<u16>)
    requires |w| >= 2 * n
    ensures |r| == n
  {
    if n == 0 then [] else [FromBigEndian16(w)] + ReadSegments(n - 1, w[2..])
  }

  /** The bytes of an address; the length of a domain name is truncated to one byte. */
  function Serialize(a: Address): (r: bytes)
    ensures |r| == SerializedLen(a)
  {
    match a
    case V4(octets, port) => [IPV4] + octets + BigEndian16(port)
    case V6(segments, port, _, _) => [IPV6] + SegmentBytes(segments) + BigEndian16(port)
    case Domain(name, port) => [DOMAIN_NAME, |name| % 256] + name + BigEndian16(port)
  }

  datatype ParseResult = Parsed(address: Address, used: nat) | Malformed(why: Fault)

  /**
   What the cursor reader makes of a buffer. It does not check that a domain name is followed by its port, so a buffer that
   ends there aborts the original program.
   */
  function Parse(w: bytes): ParseResult {
    if |w| < 2 then Malformed(TooShort)
    else if w[0] == IPV4 then
      if |w| < 7 then Malformed(TooShort) else Parsed(V4(w[1..5], FromBigEndian16(w[5..])), 7)
    else if w[0] == DOMAIN_NAME then
      var end := 2 + w[1] as int;
      if |w| < end then Malformed(TooShort)
      else if |w| < end + 2 then Malformed(Panic)
      else if !ValidUtf8(w[2..end]) then Malformed(BadEncoding)
      else Parsed(Domain(w[2..end], FromBigEndian16(w[end..])), end + 2)
    else if w[0] == IPV6 then
      if |w| < 19 then Malformed(TooShort)
      else Parsed(V6(ReadSegments(8, w[1..]), FromBigEndian16(w[17..]), 0, 0), 19)
    else Malformed(BadAddressType)
  }

  /** The addresses the codec can carry. */
  predicate Representable(a: Address) {
    match a
    case V4(_, _) => true
    case V6(_, _, flow, scope) => flow == 0 && scope == 0
    case Domain(name, _) => |name| <= 255
  }

  lemma {:induction false} SegmentsInOrder(s: seq<u16>, i: nat)
    requires i < |s|
    ensures SegmentBytes(s)[2 * i] == s[i] / 256 && SegmentBytes(s)[2 * i + 1] == s[i] % 256
  {
    if i > 0 {
      SegmentsInOrder(s[1..], i - 1);
      assert SegmentBytes(s)[2..] == SegmentBytes(s[1..]);
    }
  }

  lemma {:induction false} ReadSegmentsInOrder(n: nat, w: bytes, i: nat)
    requires |w| >= 2 * n && i < n
    ensures ReadSegments(n, w)[i] == w[2 * i] as int * 256 + w[2 * i + 1] as int
  {
    if i > 0 {
      ReadSegmentsInOrder(n - 1, w[2..], i - 1);
    }
  }

  /**
   The bytes on the wire: type 1 and four octets, type 4 and eight segments, or type 3, a length and a name; then the port. All
   numbers have their high byte first.
   */
  lemma WireBytes(a: Address)
    ensures match a
            case V4(o, port) => Serialize(a) == [1, o[0], o[1], o[2], o[3], port / 256, port % 256]
            case V6(g, port, _, _) =>
              && |Serialize(a)| == 19 && Serialize(a)[0] == 4
              && (forall i :: 0 <= i < 8 ==>
                    Serialize(a)[1 + 2 * i] == g[i] / 256 && Serialize(a)[2 + 2 * i] == g[i] % 256)
              && Serialize(a)[17] == port / 256 && Serialize(a)[18] == port % 256
            case Domain(name, port) => Serialize(a) == [3, |name| % 256] + name + [port / 256, port % 256]
  {
    if a.V6? {
      forall i | 0 <= i < 8
        ensures Serialize(a)[1 + 2 * i] == a.segments[i] / 256 && Serialize(a)[2 + 2 * i] == a.segments[i] % 256
      {
        SegmentsInOrder(a.segments, i);
      }
      hide SegmentBytes;
      assert Serialize(a)[17..] == BigEndian16(a.port);
    }
  }

  /** What the cursor reader makes of any bytes, said of the bytes themselves. */
  lemma ReadsBytes(w: bytes)
    ensures |w| >= 7 && w[0] == 1 ==>
              Parse(w) == Parsed(V4([w[1], w[2], w[3], w[4]], w[5] as int * 256 + w[6] as int), 7)
    ensures |w| >= 19 && w[0] == 4 ==>
              && Parse(w).Parsed? && Parse(w).used == 19 && Parse(w).address.V6?
              && Parse(w).address.port == w[17] as int * 256 + w[18] as int
              && Parse(w).address.flow == Parse(w).address.scope == 0
              && forall i :: 0 <= i < 8 ==> Parse(w).address.segments[i] == w[1 + 2 * i] as int * 256 + w[2 + 2 * i] as int
    ensures |w| >= 2 && w[0] == 3 && |w| >= 4 + w[1] as int ==>
              var end := 2 + w[1] as int;
              && (Parse(w).Parsed? <==> exists cs :: OfScalars(cs) == w[2..end])
              && (Parse(w).Malformed? ==> Parse(w).why == BadEncoding)
              && (Parse(w).Parsed? ==>
                    && Parse(w).used == end + 2 && Parse(w).address.Domain? && Parse(w).address.name == w[2..end]
                    && Parse(w).address.port == w[end] as int * 256 + w[end + 1] as int)
    ensures |w| >= 2 && w[0] !in {1, 3, 4} ==> Parse(w) == Malformed(BadAddressType)
    ensures |w| < 2 || (w[0] == 1 && |w| < 7) || (w[0] == 4 && |w| < 19) || (w[0] == 3 && |w| < 2 + w[1] as int) ==>
              Parse(w) == Malformed(TooShort)
  {
    hide ValidUtf8, OfScalars;
    if |w| >= 19 && w[0] == 4 {
      ReadSegmentsAll(w[1..]);
      hide ReadSegments;
      assert forall i :: 0 <= i < 8 ==> w[1..][2 * i] == w[1 + 2 * i] && w[1..][2 * i + 1] == w[2 + 2 * i];
    }
    if |w| >= 7 && w[0] == 1 {
      assert w[1..5] == [w[1], w[2], w[3], w[4]];
    }
    if |w| >= 2 && w[0] == 3 && |w| >= 4 + w[1] as int {
      ValidIff(w[2..2 + w[1] as int]);
    }
  }

  lemma ReadSegmentsAll(w: bytes)
    requires |w| >= 16
    ensures forall i :: 0 <= i < 8 ==> ReadSegments(8, w)[i] == w[2 * i] as int * 256 + w[2 * i + 1] as int
  {
    forall i | 0 <= i < 8 ensures ReadSegments(8, w)[i] == w[2 * i] as int * 256 + w[2 * i + 1] as int {
      ReadSegmentsInOrder(8, w, i);
    }
  }

  lemma {:induction false} SegmentsRoundTrip(s: seq<u16>, x: bytes)
    ensures ReadSegments(|s|, SegmentBytes(s) + x) == s
  {
    hide BigEndian16, FromBigEndian16;
    if s != [] {
      var w := SegmentBytes(s) + x;
      BigEndian16RoundTrip(s[0], SegmentBytes(s[1..]) + x);
      assert w == BigEndian16(s[0]) + (SegmentBytes(s[1..]) + x);
      assert w[2..] == SegmentBytes(s[1..]) + x;
      SegmentsRoundTrip(s[1..], x);
    }
  }

  lemma {:induction false} SegmentsReprint(n: nat, w: bytes)
    requires |w| >= 2 * n
    ensures SegmentBytes(ReadSegments(n, w)) == w[..2 * n]
  {
    if n > 0 {
      SegmentsReprint(n - 1, w[2..]);
      BigEndian16OfRead(w);
      assert ReadSegments(n, w)[1..] == ReadSegments(n - 1, w[2..]);
      assert w[..2 * n] == w[..2] + w[2..][..2 * (n - 1)];
    }
  }

  lemma RoundTripDomain(name: Name, port: u16, x: bytes)
    requires |name| <= 255
    ensures Parse(Serialize(Domain(name, port)) + x) == Parsed(Domain(name, port), |name| + 4)
  {
    var w := Serialize(Domain(name, port)) + x;
    assert w[2..2 + |name|] == name;
    assert w[2 + |name|..] == BigEndian16(port) + x;
    BigEndian16RoundTrip(port, x);
  }

  lemma RoundTripV4(octets: Octets, port: u16, x: bytes)
    ensures Parse(Serialize(V4(octets, port)) + x) == Parsed(V4(octets, port), 7)
  {
    var w := Serialize(V4(octets, port)) + x;
    assert w[1..5] == octets && w[5..] == BigEndian16(port) + x;
    BigEndian16RoundTrip(port, x);
  }

  lemma RoundTripV6(segments: Segments, port: u16, x: bytes)
    ensures Parse(Serialize(V6(segments, port, 0, 0)) + x) == Parsed(V6(segments, port, 0, 0), 19)
  {
    hide ReadSegments, SegmentBytes;
    var tail := BigEndian16(port) + x;
    var body := SegmentBytes(segments) + tail;
    var w := [IPV6] + body;
    assert Serialize(V6(segments, port, 0, 0)) + x == w;
    assert w[1..] == body && body[16..] == tail;
    assert w[17..] == tail;
    SegmentsRoundTrip(segments, tail);
    BigEndian16RoundTrip(port, x);
  }

  /** Writing and reading back, with anything behind it, gives an address back exactly when it is representable. */
  lemma RoundTripIff(a: Address, x: bytes)
    ensures Parse(Serialize(a) + x) == Parsed(a, SerializedLen(a)) <==> Representable(a)
  {
    match a
    case V4(octets, port) => RoundTripV4(octets, port, x);
    case V6(segments, port, flow, scope) =>
      assert Serialize(a) == Serialize(V6(segments, port, 0, 0));
      RoundTripV6(segments, port, x);
    case Domain(name, port) => if |name| <= 255 { RoundTripDomain(name, port, x); }
  }

  ghost predicate Reprints(w: bytes, a: Address, used: nat) {
    used == SerializedLen(a) <= |w| && Serialize(a) == w[..used] && Representable(a)
  }

  lemma ReprintV4(w: bytes)
    requires |w| >= 7 && w[0] == IPV4
    ensures Reprints(w, V4(w[1..5], FromBigEndian16(w[5..])), 7)
  {
    BigEndian16OfRead(w[5..]);
    assert w[..7] == [w[0]] + w[1..5] + w[5..][..2];
  }

  lemma ReprintV6(w: bytes)
    requires |w| >= 19 && w[0] == IPV6
    ensures Reprints(w, V6(ReadSegments(8, w[1..]), FromBigEndian16(w[17..]), 0, 0), 19)
  {
    hide ReadSegments, SegmentBytes;
    SegmentsReprint(8, w[1..]);
    BigEndian16OfRead(w[17..]);
    assert w[..19] == [w[0]] + w[1..][..16] + w[17..][..2];
  }

  lemma ReprintDomain(w: bytes, end: nat)
    requires |w| >= 2 && w[0] == DOMAIN_NAME && end == 2 + w[1] as int && end + 2 <= |w| && ValidUtf8(w[2..end])
    ensures Reprints(w, Domain(w[2..end], FromBigEndian16(w[end..])), end + 2)
  {
    hide ValidUtf8;
    BigEndian16OfRead(w[end..]);
    assert w[..end + 2] == w[..2] + w[2..end] + w[end..][..2];
    assert w[..2] == [DOMAIN_NAME, |w[2..end]| % 256];
  }

  /** Any successful read consumes exactly the serialized length and prints back to the bytes it consumed. */
  lemma Reprint(w: bytes)
    requires Parse(w).Parsed?
    ensures var a, used := Parse(w).address, Parse(w).used;
            used == SerializedLen(a) <= |w| && Serialize(a) == w[..used] && Representable(a)
  {
    hide ReadSegments, ValidUtf8;
    if w[0] == IPV4 {
      ReprintV4(w);
    } else if w[0] == IPV6 {
      ReprintV6(w);
    } else {
      ReprintDomain(w, 2 + w[1] as int);
    }
    assert Reprints(w, Parse(w).address, Parse(w).used);
  }

  /** A successful read is not disturbed by what follows the address. */
  lemma ParseGrows(w: bytes, x: bytes)
    requires Parse(w).Parsed?
    ensures Parse(w + x) == Parse(w)
  {
    var a := Parse(w).address;
    Reprint(w);
    assert w + x == Serialize(a) + (w[SerializedLen(a)..] + x);
    RoundTripIff(a, w[SerializedLen(a)..] + x);
  }

  /** The cursor reader aborts on exactly the buffers that end inside the port of a domain name. */
  lemma PanicsIff(w: bytes)
    ensures Parse(w) == Malformed(Panic) <==> |w| >= 2 && w[0] == 3 && 2 + w[1] as int <= |w| < 4 + w[1] as int
  {
  }

  /** A buffer being filled, `BytesMut`. */
  class Buffer {
    var data: bytes

    constructor ()
      ensures data == []
    {
      data := [];
    }

    method PutSlice(s: bytes)
      modifies this
      ensures data == old(data) + s
    {
      data := data + s;
    }
  }

  lemma {:induction false} SegmentBytesSnoc(s: seq<u16>, v: u16)
    ensures SegmentBytes(s + [v]) == SegmentBytes(s) + BigEndian16(v)
  {
    if s == [] {
      assert SegmentBytes([v]) == BigEndian16(v) + SegmentBytes([v][1..]);
    } else {
      assert (s + [v])[1..] == s[1..] + [v];
      SegmentBytesSnoc(s[1..], v);
    }
  }

  method WriteSegments(segments: Segments, buf: Buffer)
    modifies buf
    ensures buf.data == old(buf.data) + SegmentBytes(segments)
  {
    assert SegmentBytes(segments[..0]) == [];
    hide SegmentBytes;
    for i := 0 to 8
      invariant buf.data == old(buf.data) + SegmentBytes(segments[..i])
    {
      SegmentBytesSnoc(segments[..i], segments[i]);
      assert segments[..i + 1] == segments[..i] + [segments[i]];
      buf.PutSlice(BigEndian16(segments[i]));
    }
    assert segments[..8] == segments;
  }

  /** `write_to_buf` */
  method WriteToBuf(a: Address, buf: Buffer)
    modifies buf
    ensures buf.data == old(buf.data) + Serialize(a)
  {
    hide SegmentBytes, ValidUtf8;
    ghost var was := buf.data;
    match a
    case V4(octets, port) =>
      buf.PutSlice([IPV4]);
      buf.PutSlice(octets);
      buf.PutSlice(BigEndian16(port));
      Assemble(was, [IPV4], octets, BigEndian16(port));
    case V6(segments, port, _, _) =>
      buf.PutSlice([IPV6]);
      WriteSegments(segments, buf);
      buf.PutSlice(BigEndian16(port));
      Assemble(was, [IPV6], SegmentBytes(segments), BigEndian16(port));
    case Domain(name, port) =>
      buf.PutSlice([DOMAIN_NAME]);
      buf.PutSlice([|name| % 256]);
      assert was + [DOMAIN_NAME] + [|name| % 256] == was + [DOMAIN_NAME, |name| % 256];
      buf.PutSlice(name);
      buf.PutSlice(BigEndian16(port));
      Assemble(was, [DOMAIN_NAME, |name| % 256], name, BigEndian16(port));
  }

  lemma Assemble(was: bytes, a: bytes, b: bytes, c: bytes)
    ensures was + a + b + c == was + (a + b + c)
  {
  }

  /** A reading position in a buffer; reading past its end aborts, so the callers' checks are preconditions here. */
  class Cursor {
    const data: bytes
    var pos: nat

    ghost predicate Valid()
      reads this
    {
      pos <= |data|
    }

    constructor (data: bytes)
      ensures Valid() && this.data == data && pos == 0
    {
      this.data, pos := data, 0;
    }

    function Remaining(): nat
      requires Valid()
      reads this
    {
      |data| - pos
    }

    method Take(n: nat) returns (s: bytes)
      requires Valid() && n <= Remaining()
      modifies this
      ensures Valid() && pos == old(pos) + n && s == data[old(pos)..pos]
    {
      s := data[pos..pos + n];
      pos := pos + n;
    }
  }

  /** `read_from_cursor` */
  method ReadFromCursor(cur: Cursor) returns (r: ParseResult)
    requires cur.Valid()
    modifies cur
    ensures cur.Valid() && r == Parse(cur.data[old(cur.pos)..])
    ensures r.Parsed? ==> cur.pos == old(cur.pos) + r.used
  {
    ghost var w := cur.data[cur.pos..];
    if cur.Remaining() < 1 + 1 {
      return Malformed(TooShort);
    }
    var kind := cur.Take(1);
    if kind[0] == IPV4 {
      if cur.Remaining() < 4 + 2 {
        return Malformed(TooShort);
      }
      var octets := cur.Take(4);
      var port := cur.Take(2);
      assert octets == w[1..5] && port[0] == w[5] && port[1] == w[6];
      return Parsed(V4(octets, FromBigEndian16(port)), 7);
    } else if kind[0] == DOMAIN_NAME {
      r := ReadDomain(cur, w);
    } else if kind[0] == IPV6 {
      r := ReadV6(cur, w);
    } else {
      return Malformed(BadAddressType);
    }
  }

  method ReadDomain(cur: Cursor, ghost w: bytes) returns (r: ParseResult)
    requires cur.Valid() && cur.pos >= 1 && |w| >= 2 && w == cur.data[cur.pos - 1..] && w[0] == DOMAIN_NAME
    modifies cur
    ensures cur.Valid() && r == Parse(w)
    ensures r.Parsed? ==> cur.pos == old(cur.pos) - 1 + r.used
  {
    var prefix := cur.Take(1);
    var len := prefix[0] as int;
    assert len == w[1];
    if cur.Remaining() < len {
      return Malformed(TooShort);
    }
    var name := cur.Take(len);
    assert name == w[2..2 + len];
    if cur.Remaining() < 2 {
      return Malformed(Panic);
    }
    var port := cur.Take(2);
    assert port[0] == w[2 + len] && port[1] == w[3 + len];
    if !ValidUtf8(name) {
      return Malformed(BadEncoding);
    }
    r := Parsed(Domain(name, FromBigEndian16(port)), 4 + len);
  }

  lemma {:induction false} ReadSegmentsSnoc(n: nat, w: bytes)
    requires |w| >= 2 * n + 2
    ensures ReadSegments(n + 1, w) == ReadSegments(n, w) + [FromBigEndian16(w[2 * n..])]
  {
    if n > 0 {
      ReadSegmentsSnoc(n - 1, w[2..]);
      assert w[2..][2 * (n - 1)..] == w[2 * n..];
    } else {
      assert w[0..] == w;
    }
  }

  method ReadV6(cur: Cursor, ghost w: bytes) returns (r: ParseResult)
    requires cur.Valid() && cur.pos >= 1 && |w| >= 2 && w == cur.data[cur.pos - 1..] && w[0] == IPV6
    modifies cur
    ensures cur.Valid() && r == Parse(w)
    ensures r.Parsed? ==> cur.pos == old(cur.pos) - 1 + r.used
  {
    if cur.Remaining() < 8 * 2 + 2 {
      return Malformed(TooShort);
    }
    var segments: seq<u16> := [];
    for i := 0 to 8
      invariant cur.Valid() && cur.pos == old(cur.pos) + 2 * i
      invariant segments == ReadSegments(i, w[1..])
    {
      ReadSegmentsSnoc(i, w[1..]);
      var s := cur.Take(2);
      assert s[0] == w[1..][2 * i] && s[1] == w[1..][2 * i + 1];
      segments := segments + [FromBigEndian16(s)];
    }
    var port := cur.Take(2);
    assert port[0] == w[17] && port[1] == w[18];
    r := Parsed(V6(segments, FromBigEndian16(port), 0, 0), 19);
  }

  /** A byte stream read to completion: after `rest` it ends or, if `broken`, fails. */
  class Stream {
    var rest: bytes
    const broken: bool

    constructor (rest: bytes, broken: bool)
      ensures this.rest == rest && this.broken == broken
    {
      this.rest, this.broken := rest, broken;
    }

    /** One `read` into `n` bytes, which gets what the transport offers just then; `None` is the transport's error. */
    method Read(n: nat, offered: nat) returns (r: Option<bytes>)
      modifies this
      ensures r == None <==> old(rest) == [] && broken
      ensures r == None ==> rest == old(rest)
      ensures r.Some? ==>
                && |r.value| <= n && old(rest) == r.value + rest
                && (|r.value| == n <==> n <= offered && n <= |old(rest)|)
    {
      if rest == [] && broken {
        return None;
      }
      var k := if n < offered then n else offered;
      k := if k < |rest| then k else |rest|;
      r := Some(rest[..k]);
      rest := rest[k..];
    }

    /** `read_exact`: `None` is the transport's error, or an unexpected end of file. */
    method ReadExact(n: nat) returns (r: Option<bytes>)
      modifies this
      ensures |old(rest)| >= n ==> r == Some(old(rest)[..n]) && rest == old(rest)[n..]
      ensures |old(rest)| < n ==> r == None && rest == []
    {
      if |rest| < n {
        rest := [];
        return None;
      }
      r := Some(rest[..n]);
      rest := rest[n..];
    }
  }

  /** `read_from_stream`: it accepts exactly what the cursor reader accepts, and consumes as much. */
  method ReadFromStream(s: Stream) returns (r: Option<Address>)
    modifies s
    ensures r.Some? <==> Parse(old(s.rest)).Parsed?
    ensures r.Some? ==> r.value == Parse(old(s.rest)).address && s.rest == old(s.rest)[Parse(old(s.rest)).used..]
  {
    hide ValidUtf8;
    ghost var w := s.rest;
    var kind := s.ReadExact(1);
    if kind == None {
      return None;
    }
    if kind.value[0] == IPV4 {
      var buf := s.ReadExact(6);
      if buf == None {
        return None;
      }
      assert buf.value == w[1..][..6] == w[1..7];
      assert w[1..7][..4] == w[1..5] && w[1..7][4..] == w[5..7];
      return Some(V4(buf.value[..4], FromBigEndian16(buf.value[4..])));
    } else if kind.value[0] == IPV6 {
      var buf := s.ReadExact(18);
      if buf == None {
        return None;
      }
      SegmentsPrefix(8, buf.value, w[1..]);
      assert buf.value[16] == w[17] && buf.value[17] == w[18];
      return Some(V6(ReadSegments(8, buf.value), FromBigEndian16(buf.value[16..]), 0, 0));
    } else if kind.value[0] == DOMAIN_NAME {
      r := ReadDomainFrom(s, w);
      return;
    }
    r := None;
  }

  method ReadDomainFrom(s: Stream, ghost w: bytes) returns (r: Option<Address>)
    requires |w| > 0 && w[0] == DOMAIN_NAME && s.rest == w[1..]
    modifies s
    ensures r.Some? <==> Parse(w).Parsed?
    ensures r.Some? ==> r.value == Parse(w).address && s.rest == w[Parse(w).used..]
  {
    hide ValidUtf8;
    var len := s.ReadExact(1);
    if len == None {
      return None;
    }
    var n := len.value[0] as int;
    assert s.rest == w[2..] && n == w[1];
    var buf := s.ReadExact(n + 2);
    if buf == None {
      return None;
    }
    assert buf.value == w[2..4 + n] && s.rest == w[4 + n..];
    assert w[2..4 + n][..n] == w[2..2 + n] && w[2..4 + n][n..][..2] == w[2 + n..][..2];
    if !ValidUtf8(buf.value[..n]) {
      return None;
    }
    r := Some(Domain(buf.value[..n], FromBigEndian16(buf.value[n..])));
  }

  lemma {:induction false} SegmentsPrefix(n: nat, a: bytes, b: bytes)
    requires |a| >= 2 * n && a <= b
    ensures ReadSegments(n, a) == ReadSegments(n, b)
  {
    if n > 0 {
      SegmentsPrefix(n - 1, a[2..], b[2..]);
    }
  }
}
