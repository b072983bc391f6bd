/** Datagrams over a Trojan stream: address, two-byte length, CRLF, payload. */
module TrojanUdp {
  import opened Bytes
  import opened Framing
  import opened Address
  import opened Utf8

  const CRLF: bytes := [0x0D, 0x0A]

  datatype Datagram = Datagram(address: Address, payload: bytes)

  /** The length is truncated to 16 bits. */
  function Head(d: Datagram): bytes {
    Serialize(d.address) + BigEndian16(|d.payload|) + CRLF
  }

  function Frame(d: Datagram): bytes { Head(d) + d.payload }

  function Framer(): (nat, Datagram) -> bytes { (_, d) => Frame(d) }

  /** What a frame can carry; an empty datagram is framed by no one. */
  predicate Carried(d: Datagram) {
    Representable(d.address) && |d.payload| < 0x1_0000
  }

  predicate Sendable(d: Datagram) { Carried(d) && d.payload != [] }

  /** How long the head is, from its first two bytes. */
  function HeadLen(w: bytes): Step<nat>
    requires |w| >= 2
  {
    if w[0] == IPV4 then Item(1 + 4 + 2 + 4, 2)
    else if w[0] == IPV6 then Item(1 + 16 + 2 + 4, 2)
    else if w[0] == DOMAIN_NAME then Item(2 + w[1] as int + 2 + 4, 2)
    else Broken(BadAddressType)
  }

  /** A head on the wire: the address, the length high byte first, and 13, 10; what a datagram may be, in plain numbers. */
  lemma HeadBytes(d: Datagram)
    ensures Frame(d) == Serialize(d.address) + [|d.payload| / 256 % 256, |d.payload| % 256, 13, 10] + d.payload
    ensures Head(d) + d.payload == Frame(d) && |Head(d)| == |Serialize(d.address)| + 4
    ensures Sendable(d) <==> Representable(d.address) && 0 < |d.payload| <= 65535
  {
    hide Serialize;
    assert BigEndian16(|d.payload|) + CRLF == [|d.payload| / 256 % 256, |d.payload| % 256, 13, 10];
    assert Head(d) == Serialize(d.address) + (BigEndian16(|d.payload|) + CRLF);
  }

  /** How long the head is, said of its first two bytes. */
  lemma HeadLenIs(w: bytes)
    requires |w| >= 2
    ensures HeadLen(w) ==
              if w[0] == 1 then Item(11, 2) else if w[0] == 4 then Item(23, 2)
              else if w[0] == 3 then Item(w[1] as int + 8, 2) else Broken(BadAddressType)
  {
  }

  /** The address in a complete head, which it fills but for the length and the CRLF (whose value nobody checks). */
  lemma ParseOfHead(w: bytes, h: nat)
    requires |w| >= 2 && HeadLen(w) == Item(h, 2) && |w| >= h
    ensures Parse(w) == Parse(w[..h])
    ensures Parse(w).Parsed? ==> Parse(w).used == h - 4
    ensures Parse(w).Malformed? ==> Parse(w).why == BadEncoding
  {
    hide ValidUtf8, ReadSegments;
    if Parse(w[..h]).Parsed? {
      ParseGrows(w[..h], w[h..]);
      assert w == w[..h] + w[h..];
    } else {
      assert w[0] == w[..h][0] && w[1] == w[..h][1];
      assert w[0] == DOMAIN_NAME;
      var end := 2 + w[1] as int;
      assert w[..h][2..end] == w[2..end];
      assert !ValidUtf8(w[2..end]);
    }
  }

  /** The first datagram of `w`. */
  function NextDatagram(w: bytes): Step<Datagram> {
    if |w| < 2 then NeedMore else
    match HeadLen(w)
    case NeedMore => NeedMore
    case Broken(why) => Broken(why)
    case Item(h, _) =>
      if |w| < h then NeedMore else
      match Parse(w[..h])
      case Malformed(why) => Broken(why)
      case Parsed(address, _) =>
        var len := FromBigEndian16(w[h - 4..]);
        if |w| < h + len then NeedMore else Item(Datagram(address, w[h..h + len]), h + len)
  }

  function Datagrams(): Parser<Datagram> { (_, w) => NextDatagram(w) }

  lemma NextDatagramStable(w: bytes, x: bytes)
    ensures NextDatagram(w).Broken? ==> NextDatagram(w + x) == NextDatagram(w)
    ensures NextDatagram(w).Item? ==>
              0 < NextDatagram(w).used <= |w| && NextDatagram(w + x) == NextDatagram(w)
  {
    hide Parse;
    if |w| >= 2 {
      assert HeadLen(w + x) == HeadLen(w);
      if HeadLen(w).Item? && |w| >= HeadLen(w).value {
        var h := HeadLen(w).value;
        assert (w + x)[..h] == w[..h];
        assert FromBigEndian16((w + x)[h - 4..]) == FromBigEndian16(w[h - 4..]);
        var len := FromBigEndian16(w[h - 4..]) as int;
        if |w| >= h + len {
          assert (w + x)[h..h + len] == w[h..h + len];
        }
      }
    }
  }

  lemma DatagramsStable()
    ensures Stable(Datagrams())
  {
    forall n: nat, w: bytes, x: bytes
      ensures && (Datagrams()(n, w).Broken? ==> Datagrams()(n, w + x) == Datagrams()(n, w))
              && (Datagrams()(n, w).Item? ==>
                    0 < Datagrams()(n, w).used <= |w| && Datagrams()(n, w + x) == Datagrams()(n, w))
    {
      NextDatagramStable(w, x);
    }
  }

  lemma HeadLenOfSerialized(a: Address, y: bytes)
    requires Representable(a)
    ensures HeadLen(Serialize(a) + y) == Item(SerializedLen(a) + 4, 2)
  {
    hide ValidUtf8, SegmentBytes;
    var w := Serialize(a) + y;
    assert w[0] == Serialize(a)[0] && w[1] == Serialize(a)[1];
  }

  lemma HeadOfFrame(d: Datagram, x: bytes)
    requires Representable(d.address)
    ensures var w, h := Frame(d) + x, |Head(d)|;
            && HeadLen(w) == Item(h, 2) && Parse(w[..h]) == Parsed(d.address, h - 4)
            && FromBigEndian16(w[h - 4..]) == |d.payload| % 0x1_0000
  {
    hide Serialize, Parse, HeadLen;
    var s, n := Serialize(d.address), BigEndian16(|d.payload|);
    var w, h := Frame(d) + x, |Head(d)|;
    assert w == s + (n + (CRLF + d.payload + x));
    HeadLenOfSerialized(d.address, n + (CRLF + d.payload + x));
    assert w[..h] == s + (n + CRLF);
    RoundTripIff(d.address, n + CRLF);
    assert w[h - 4..] == n + (CRLF + d.payload + x);
    BigEndian16RoundTrip(|d.payload|, CRLF + d.payload + x);
  }

  /** A frame reads back as its datagram, with anything behind it, exactly when nothing in it had to be truncated. */
  lemma FrameRoundTripsIff(d: Datagram, x: bytes)
    ensures NextDatagram(Frame(d) + x) == Item(d, |Frame(d)|) <==> Carried(d)
  {
    hide ValidUtf8, SegmentBytes, ReadSegments, Parse;
    var w, h := Frame(d) + x, |Head(d)|;
    if Representable(d.address) {
      HeadOfFrame(d, x);
      var len := |d.payload| % 0x1_0000;
      if |d.payload| < 0x1_0000 {
        assert w[h..h + len] == d.payload;
      }
    } else if NextDatagram(w).Item? {
      var h' := HeadLen(w).value;
      Reprint(w[..h']);
    }
  }

  lemma FramesInverse()
    ensures Inverse(Datagrams(), Framer(), Sendable)
  {
    forall n: nat, d: Datagram, x: bytes | Sendable(d)
      ensures Datagrams()(n, Framer()(n, d) + x) == Item(d, |Framer()(n, d)|)
    {
      FrameRoundTripsIff(d, x);
    }
  }

  /** The second half of `NextDatagram`, for a reader that has already consumed the head. */
  lemma NextDatagramBody(head: bytes, buffer: bytes, address: Address)
    requires |head| >= 2 && HeadLen(head) == Item(|head|, 2) && Parse(head) == Parsed(address, |head| - 4)
    ensures var len := FromBigEndian16(head[|head| - 4..]) as int;
            NextDatagram(head + buffer) ==
              if |buffer| < len then NeedMore else Item(Datagram(address, buffer[..len]), |head| + len)
  {
    hide Parse;
    var w := head + buffer;
    assert w[..|head|] == head && HeadLen(w) == HeadLen(head);
    assert FromBigEndian16(w[|head| - 4..]) == FromBigEndian16(head[|head| - 4..]);
    var len := FromBigEndian16(head[|head| - 4..]) as int;
    if |buffer| >= len {
      assert w[|head|..|head| + len] == buffer[..len];
    }
  }

  /** The datagrams a reader hands over: empty ones are skipped. */
  function NonEmpty(ds: seq<Datagram>): seq<Datagram> {
    if ds == [] then []
    else NonEmpty(ds[..|ds| - 1]) + (if ds[|ds| - 1].payload == [] then [] else [ds[|ds| - 1]])
  }

  lemma {:induction false} NonEmptyAppend(a: seq<Datagram>, b: seq<Datagram>)
    ensures NonEmpty(a + b) == NonEmpty(a) + NonEmpty(b)
  {
    if b == [] {
      assert a + b == a;
    } else {
      assert (a + b)[..|a + b| - 1] == a + b[..|b| - 1];
      NonEmptyAppend(a, b[..|b| - 1]);
    }
  }

  lemma {:induction false} NonEmptyOfSendable(ds: seq<Datagram>)
    requires AllValid(ds, Sendable)
    ensures NonEmpty(ds) == ds
  {
    if ds != [] {
      NonEmptyOfSendable(ds[..|ds| - 1]);
    }
  }
}
