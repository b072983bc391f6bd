/** The SOCKS5 UDP request, section 7 of RFC 1928: two reserved bytes, a fragment number, an address, data. */
module Socks5Udp {
  import opened Bytes
  import opened Address

  datatype Request = Request(address: Address, data: bytes)

  datatype Reading = Incomplete | Decoded(request: Request) | Failed(why: Fault) | Fragmented

  function Encode(r: Request): bytes { [0, 0, 0] + Serialize(r.address) + r.data }

  function Read(w: bytes): Reading {
    if |w| < 3 then Incomplete
    else if w[2] != 0 then Fragmented
    else
      match Parse(w[3..])
      case Malformed(why) => Failed(why)
      case Parsed(a, used) => if 3 + used <= |w| then Decoded(Request(a, w[3 + used..])) else Failed(Panic)
  }

  /** A request on the wire. */
  lemma RequestBytes(r: Request)
    ensures Encode(r) == [0, 0, 0] + Serialize(r.address) + r.data
    ensures r.address.V4? ==>
              var o, port := r.address.octets, r.address.port;
              Encode(r) == [0, 0, 0, 1, o[0], o[1], o[2], o[3], port / 256, port % 256] + r.data
  {
    WireBytes(r.address);
    hide Serialize;
    if r.address.V4? {
      var o, port := r.address.octets, r.address.port;
      assert [0, 0, 0] + [1, o[0], o[1], o[2], o[3], port / 256, port % 256] ==
             [0, 0, 0, 1, o[0], o[1], o[2], o[3], port / 256, port % 256];
    }
  }

  /** What is made of a datagram, by its first three bytes. */
  lemma ReadIs(w: bytes)
    ensures Read(w).Incomplete? <==> |w| < 3
    ensures Read(w).Fragmented? <==> |w| >= 3 && w[2] != 0
    ensures Read(w).Decoded? <==> |w| >= 3 && w[2] == 0 && Parse(w[3..]).Parsed?
    ensures Read(w).Decoded? ==>
              var r := Parse(w[3..]);
              3 + r.used <= |w| && Read(w).request == Request(r.address, w[3 + r.used..])
  {
    hide Parse;
    if |w| >= 3 && w[2] == 0 && Parse(w[3..]).Parsed? {
      Reprint(w[3..]);
    }
  }

  /** A request is read back exactly when the codec can carry its address and the buffer was empty before. */
  lemma RequestRoundTripIff(before: bytes, r: Request)
    ensures Read(before + Encode(r)) == Decoded(r) <==> before == [] && Representable(r.address)
  {
    hide Parse, Serialize;
    var w := before + Encode(r);
    if Read(w) == Decoded(r) {
      Reprint(w[3..]);
      assert before == [];
    }
    if before == [] {
      assert w[3..] == Serialize(r.address) + r.data;
      RoundTripIff(r.address, r.data);
      assert w[3 + SerializedLen(r.address)..] == r.data;
    }
  }

  /** The reserved bytes are ignored; apart from them, only the encoding of a request is read as that request. */
  lemma ReadReprintsIff(w: bytes, r: Request)
    ensures Read(w) == Decoded(r) <==> |w| >= 3 && Representable(r.address) && w[2..] == Encode(r)[2..]
  {
    hide Parse, Serialize;
    if |w| >= 3 {
      var rest := Serialize(r.address) + r.data;
      assert Encode(r)[2..] == [0] + rest;
      assert w[2..] == [w[2]] + w[3..] && ([0] + rest)[1..] == rest && w[2..][1..] == w[3..];
      if Read(w) == Decoded(r) {
        Reprint(w[3..]);
        assert w[3..] == w[3..][..SerializedLen(r.address)] + w[3..][SerializedLen(r.address)..];
      }
      if Representable(r.address) && w[2..] == Encode(r)[2..] {
        RoundTripIff(r.address, r.data);
        assert w[3 + SerializedLen(r.address)..] == r.data;
      }
    }
  }

  /** `encode` appends to whatever the buffer holds. */
  method EncodeTo(r: Request, dst: Buffer)
    modifies dst
    ensures dst.data == old(dst.data) + Encode(r)
  {
    hide Serialize;
    dst.PutSlice([0, 0, 0]);
    WriteToBuf(r.address, dst);
    dst.PutSlice(r.data);
    assert dst.data == old(dst.data) + ([0, 0, 0] + Serialize(r.address) + r.data);
  }

  /** `decode`: a request takes the whole datagram out of the buffer. */
  method DecodeFrom(src: Buffer) returns (r: Reading)
    modifies src
    ensures r == Read(old(src.data))
    ensures r.Decoded? ==> src.data == []
    ensures r.Incomplete? || r.Fragmented? ==> src.data == old(src.data)
    ensures r.Failed? ==> |old(src.data)| >= 3 && src.data == old(src.data)[3..]
  {
    if |src.data| < 3 {
      return Incomplete;
    }
    if src.data[2] != 0 {
      return Fragmented;
    }
    src.data := src.data[3..];
    var cur := new Cursor(src.data);
    assert cur.data[0..] == src.data;
    var got := ReadFromCursor(cur);
    match got
    case Malformed(why) => r := Failed(why);
    case Parsed(a, used) =>
      Reprint(src.data);
      src.data := src.data[SerializedLen(a)..];
      r := Decoded(Request(a, src.data));
      src.data := [];
  }
}
