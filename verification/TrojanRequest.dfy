/** The header that opens a Trojan connection: password hash, CRLF, command, address, CRLF. */
module TrojanRequest {
  import opened Bytes
  import opened Address
  import opened TrojanUdp

  const HASH_LEN := 56
  const CMD_TCP_CONNECT: byte := 1
  const CMD_UDP_ASSOCIATE: byte := 3

  type Hash = h: bytes | |h| == HASH_LEN witness seq(HASH_LEN, _ => 0)

  datatype Request = TcpConnect(hash: Hash, target: Address) | UdpAssociate(hash: Hash)

  datatype Refusal = FirstPacketTooShort | InvalidPassword | InvalidCommand | BadStream

  datatype Reading = Accepted(request: Request, used: nat) | Refused(why: Refusal)

  /** The address on the wire; a UDP association sends a dummy. */
  function Target(r: Request): Address { if r.TcpConnect? then r.target else DUMMY }

  function Command(r: Request): byte { if r.TcpConnect? then CMD_TCP_CONNECT else CMD_UDP_ASSOCIATE }

  function Encode(r: Request): bytes {
    r.hash + CRLF + [Command(r)] + Serialize(Target(r)) + CRLF
  }

  /**
   What a server makes of the stream `w`, which ends or, if `broken`, fails behind its last byte, given how much of it the transport
   offers to the first read.
   */
  function Understand(w: bytes, broken: bool, password: bytes, offered: nat): Reading {
    var body := HASH_LEN + 2 + 1;
    if w == [] && broken then Refused(BadStream)
    else if offered < HASH_LEN || |w| < HASH_LEN then Refused(FirstPacketTooShort)
    else if password != w[..HASH_LEN] then Refused(InvalidPassword)
    else if |w| < body then Refused(BadStream)
    else
      match Parse(w[body..])
      case Malformed(_) => Refused(BadStream)
      case Parsed(a, used) =>
        if |w| < body + used + 2 then Refused(BadStream)
        else if w[body - 1] == CMD_TCP_CONNECT then Accepted(TcpConnect(w[..HASH_LEN], a), body + used + 2)
        else if w[body - 1] == CMD_UDP_ASSOCIATE then Accepted(UdpAssociate(w[..HASH_LEN]), body + used + 2)
        else Refused(InvalidCommand)
  }

  /** A request on the wire: 56 bytes of hash, 13, 10, the command 1 or 3, an address, which a UDP association leaves empty, 13, 10. */
  lemma RequestBytes(r: Request)
    ensures |r.hash| == 56
    ensures Encode(r) ==
              r.hash + (if r.TcpConnect? then [13, 10, 1] + Serialize(r.target) + [13, 10]
                        else [13, 10, 3, 1, 0, 0, 0, 0, 0, 0, 13, 10])
  {
    if r.TcpConnect? {
      hide Serialize;
      assert Encode(r) == r.hash + ([13, 10, 1] + Serialize(r.target) + [13, 10]);
    } else {
      WireBytes(DUMMY);
      assert Serialize(DUMMY) == [1, 0, 0, 0, 0, 0, 0];
    }
  }

  /** When a request is accepted, and what is taken for its command and address, said of the bytes themselves. */
  lemma AcceptedIff(w: bytes, broken: bool, password: bytes, offered: nat)
    ensures Understand(w, broken, password, offered).Accepted? <==>
              && offered >= 56 && |w| >= 59 && password == w[..56] && w[58] in {1, 3}
              && Parse(w[59..]).Parsed? && |w| >= 59 + Parse(w[59..]).used + 2
    ensures Understand(w, broken, password, offered).Accepted? ==>
              var got, r := Understand(w, broken, password, offered), Parse(w[59..]);
              && got.used == r.used + 61 && got.request.hash == w[..56]
              && (w[58] == 1 ==> got.request.TcpConnect? && got.request.target == r.address)
              && (w[58] == 3 ==> got.request.UdpAssociate?)
  {
    hide Parse;
  }

  /** Why a request is refused; a hash that is not whole, or wrong, is told apart from everything else. */
  lemma RefusedIff(w: bytes, broken: bool, password: bytes, offered: nat)
    ensures var got := Understand(w, broken, password, offered);
            && (got == Refused(FirstPacketTooShort) <==> (offered < 56 || |w| < 56) && (w != [] || !broken))
            && (got == Refused(InvalidPassword) <==> offered >= 56 && |w| >= 56 && password != w[..56])
            && (got == Refused(InvalidCommand) <==>
                  && offered >= 56 && |w| >= 59 && password == w[..56] && w[58] !in {1, 3}
                  && Parse(w[59..]).Parsed? && |w| >= 59 + Parse(w[59..]).used + 2)
  {
    hide Parse;
  }

  lemma EncodeParts(r: Request, tail: bytes)
    ensures var w, body := Encode(r) + tail, HASH_LEN + 2 + 1;
            && |w| >= body && w[..HASH_LEN] == r.hash && w[body - 1] == Command(r)
            && w[body..] == Serialize(Target(r)) + (CRLF + tail)
  {
    hide Serialize;
    assert Encode(r) + tail == r.hash + CRLF + [Command(r)] + (Serialize(Target(r)) + (CRLF + tail));
  }

  /** A header is understood, and exactly its own bytes are taken, iff the first read gets the hash and the address is representable. */
  lemma RequestRoundTripIff(r: Request, tail: bytes, broken: bool, offered: nat)
    ensures Understand(Encode(r) + tail, broken, r.hash, offered) == Accepted(r, |Encode(r)|) <==>
              offered >= HASH_LEN && Representable(Target(r))
  {
    hide Parse, Serialize;
    EncodeParts(r, tail);
    RoundTripIff(Target(r), CRLF + tail);
    var w := Encode(r) + tail;
    if r.TcpConnect? && Understand(w, broken, r.hash, offered) == Accepted(r, |Encode(r)|) {
      assert Parse(w[HASH_LEN + 2 + 1..]) == Parsed(r.target, SerializedLen(r.target));
    }
  }

  /** The server checks neither CRLF, nor the address of a UDP association: apart from those, the encoding is unique. */
  lemma UnderstoodReprintsIff(w: bytes, broken: bool, password: bytes, offered: nat)
    requires Understand(w, broken, password, offered).Accepted?
    ensures var got := Understand(w, broken, password, offered);
            var r, used := got.request, got.used;
            var body := HASH_LEN + 2 + 1;
            && r.hash == password && body + 2 <= used <= |w| && Parse(w[body..]).Parsed?
            && (w[..used] == Encode(r) <==>
                  && w[HASH_LEN..HASH_LEN + 2] == CRLF && w[used - 2..used] == CRLF
                  && (r.UdpAssociate? ==> Parse(w[body..]).address == DUMMY))
  {
    hide Parse, Serialize;
    var got, body := Understand(w, broken, password, offered), HASH_LEN + 2 + 1;
    var r, used := got.request, got.used;
    var a := Parse(w[body..]).address;
    Reprint(w[body..]);
    assert w[body..][..used - 2 - body] == w[body..used - 2];
    Assembled(w, body, used);
    if w[..used] == Encode(r) {
      EncodeParts(r, w[used..]);
      assert w == Encode(r) + w[used..];
      RoundTripIff(Target(r), CRLF + w[used..]);
      CrlfsOf(r);
    }
  }

  lemma Assembled(w: bytes, body: nat, used: nat)
    requires body == HASH_LEN + 2 + 1 && body + 2 <= used <= |w|
    ensures w[..used] == w[..HASH_LEN] + w[HASH_LEN..HASH_LEN + 2] + [w[body - 1]] + w[body..used - 2] + w[used - 2..used]
  {
  }

  lemma CrlfsOf(r: Request)
    ensures |Encode(r)| >= HASH_LEN + 4
    ensures Encode(r)[HASH_LEN..HASH_LEN + 2] == CRLF && Encode(r)[|Encode(r)| - 2..] == CRLF
  {
    hide Serialize;
  }

  /** `write_to`: the whole header in one buffer. */
  method WriteTo(r: Request, buf: Buffer)
    modifies buf
    ensures buf.data == old(buf.data) + Encode(r)
  {
    hide Serialize;
    ghost var was := buf.data;
    buf.PutSlice(r.hash);
    buf.PutSlice(CRLF);
    buf.PutSlice([Command(r)]);
    WriteToBuf(Target(r), buf);
    buf.PutSlice(CRLF);
    assert buf.data == was + (r.hash + CRLF + [Command(r)] + Serialize(Target(r)) + CRLF);
  }

  /**
   `read_from`. A caller that is refused for its hash gets back, in `firstPacket`, everything taken from the stream, so it can
   serve the connection in another way.
   */
  method ReadFrom(s: Stream, password: bytes, offered: nat) returns (r: Reading, firstPacket: bytes)
    modifies s
    ensures r == Understand(old(s.rest), s.broken, password, offered)
    ensures r.Accepted? ==> s.rest == old(s.rest)[r.used..]
    ensures r == Refused(FirstPacketTooShort) || r == Refused(InvalidPassword) ==> firstPacket + s.rest == old(s.rest)
  {
    hide Parse;
    ghost var w := s.rest;
    var first := s.Read(HASH_LEN, offered);
    if first == None {
      return Refused(BadStream), [];
    }
    var hash := first.value;
    if |hash| != HASH_LEN {
      return Refused(FirstPacketTooShort), hash;
    }
    assert w[..HASH_LEN] == hash && s.rest == w[HASH_LEN..];
    if password != hash {
      return Refused(InvalidPassword), hash;
    }
    firstPacket := [];
    var crlf := s.ReadExact(2);
    if crlf == None {
      return Refused(BadStream), [];
    }
    var cmd := s.ReadExact(1);
    if cmd == None {
      return Refused(BadStream), [];
    }
    var body := HASH_LEN + 2 + 1;
    assert s.rest == w[body..] && cmd.value[0] == w[body - 1];
    var addr := ReadFromStream(s);
    if addr == None {
      return Refused(BadStream), [];
    }
    ghost var used := Parse(w[body..]).used;
    Reprint(w[body..]);
    assert s.rest == w[body + used..];
    crlf := s.ReadExact(2);
    if crlf == None {
      return Refused(BadStream), [];
    }
    assert s.rest == w[body + used + 2..];
    if cmd.value[0] == CMD_TCP_CONNECT {
      r := Accepted(TcpConnect(hash, addr.value), body + SerializedLen(addr.value) + 2);
    } else if cmd.value[0] == CMD_UDP_ASSOCIATE {
      r := Accepted(UdpAssociate(hash), body + SerializedLen(addr.value) + 2);
    } else {
      r := Refused(InvalidCommand);
    }
  }
}
