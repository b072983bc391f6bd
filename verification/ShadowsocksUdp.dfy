/** Shadowsocks over UDP: one sealed packet per datagram, opened and moved in place in the receiver's buffer. */
module ShadowsocksUdp {
  import opened Bytes
  import opened Aead
  import opened Address
  import opened Pipe

  /** A cipher kind together with the ciphers derived from the session key and each salt. */
  datatype Method = Method(kind: CipherKind, derive: bytes -> Aead) {
    ghost predicate Sound() {
      forall salt: bytes {:trigger derive(salt)} :: derive(salt).Sound()
    }
  }

  datatype UdpFault = ShortForSalt | ShortForTag | BadTag | BadAddress | Abort

  /** What is opened: the payload and the address it came with. */
  datatype Opening = Opening(data: bytes, address: Address) | Rejected(why: UdpFault)

  /** What `decrypt_payload` returns: how many bytes at the front of the buffer are payload. */
  datatype Outcome = Opened(n: nat, address: Address) | Refused(why: UdpFault)

  /** The packet that carries `payload` to or from `a`. */
  function Packet(m: Method, salt: bytes, a: Address, payload: bytes): bytes {
    if m.kind.NoCipher? then Serialize(a) + payload
    else salt + m.derive(salt).seal(Nonce(0), Serialize(a) + payload)
  }

  function Split(plain: bytes): Opening {
    match Parse(plain)
    case Parsed(a, used) => if used <= |plain| then Opening(plain[used..], a) else Rejected(Abort)
    case Malformed(why) => Rejected(if why.Panic? then Abort else BadAddress)
  }

  /** What a received packet means. */
  function Open(m: Method, w: bytes): Opening {
    var salt := m.kind.SaltLen();
    if m.kind.NoCipher? then Split(w)
    else if |w| < salt then Rejected(ShortForSalt)
    else if |w| < salt + TAG_LEN then Rejected(ShortForTag)
    else
      match m.derive(w[..salt]).open(Nonce(0), w[salt..])
      case None => Rejected(BadTag)
      case Some(plain) => Split(plain)
  }

  /** A packet on the wire: without a cipher address and payload, with one a salt and both sealed under a nonce of zeros. */
  lemma PacketBytes(m: Method, salt: bytes, a: Address, payload: bytes)
    ensures Packet(m, salt, a, payload) ==
              if m.kind.NoCipher? then Serialize(a) + payload
              else salt + m.derive(salt).seal([0, 0, 0, 0, 0, 0, 0, 0, 0, 0, 0, 0], Serialize(a) + payload)
  {
    NonceBytes(0);
    hide Serialize, Nonce;
  }

  /** What is made of any bytes as a packet, step by step, in plain numbers. */
  lemma OpenIs(m: Method, w: bytes)
    ensures m.kind.NoCipher? ==> Open(m, w) == Split(w)
    ensures !m.kind.NoCipher? ==>
              var n := if m.kind.Aes128Gcm? then 16 else 32;
              && (|w| < n ==> Open(m, w) == Rejected(ShortForSalt))
              && (n <= |w| < n + 16 ==> Open(m, w) == Rejected(ShortForTag))
              && (|w| >= n + 16 ==>
                    Open(m, w) == match m.derive(w[..n]).open([0, 0, 0, 0, 0, 0, 0, 0, 0, 0, 0, 0], w[n..])
                                  case None => Rejected(BadTag)
                                  case Some(plain) => Split(plain))
    ensures var r := Parse(w);
            && (Split(w).Opening? <==> r.Parsed?) && (r.Parsed? ==> r.used <= |w| && Split(w) == Opening(w[r.used..], r.address))
            && (Split(w) == Rejected(Abort) <==> r == Malformed(Panic))
            && (Split(w) == Rejected(BadAddress) <==> r.Malformed? && r != Malformed(Panic))
  {
    NonceBytes(0);
    SaltLenIs(m.kind);
    hide Parse, Nonce;
    if Parse(w).Parsed? {
      Reprint(w);
    }
  }

  lemma SplitIff(a: Address, payload: bytes, before: bytes)
    ensures Split(before + Serialize(a) + payload) == Opening(payload, a) <==> before == [] && Representable(a)
  {
    hide Parse, Serialize;
    var plain := before + Serialize(a) + payload;
    if Split(plain) == Opening(payload, a) {
      Reprint(plain);
      assert |before| == 0;
    }
    if before == [] {
      assert plain == Serialize(a) + payload;
      RoundTripIff(a, payload);
      assert plain[SerializedLen(a)..] == payload;
    }
  }

  /** Opening what was sealed gives back address and payload exactly when the codec can carry the address. */
  lemma PacketRoundTripIff(m: Method, salt: bytes, a: Address, payload: bytes)
    requires m.Sound() && |salt| == m.kind.SaltLen()
    ensures Open(m, Packet(m, salt, a, payload)) == Opening(payload, a) <==> Representable(a)
  {
    hide Parse, Serialize, Split, Nonce;
    var plain := Serialize(a) + payload;
    SplitIff(a, payload, []);
    assert [] + Serialize(a) + payload == plain;
    if !m.kind.NoCipher? {
      var sealed := m.derive(salt).seal(Nonce(0), plain);
      assert (salt + sealed)[..|salt|] == salt && (salt + sealed)[|salt|..] == sealed;
    }
  }

  /** Without a cipher, a packet appended to a buffer that still holds something is not read back. */
  lemma StaleBufferIff(m: Method, stale: bytes, a: Address, payload: bytes)
    requires m.kind.NoCipher?
    ensures Open(m, stale + Packet(m, [], a, payload)) == Opening(payload, a) <==> stale == [] && Representable(a)
  {
    hide Parse, Serialize, Split;
    SplitIff(a, payload, stale);
    assert stale + Packet(m, [], a, payload) == stale + Serialize(a) + payload;
  }

  /** The only plaintext that opens to an address and a payload is the one `encrypt_payload` seals for them. */
  lemma OpeningIsUnique(m: Method, w: bytes)
    requires Open(m, w).Opening?
    ensures var o, salt := Open(m, w), m.kind.SaltLen();
            var plain := Serialize(o.address) + o.data;
            && Representable(o.address)
            && if m.kind.NoCipher? then w == plain
               else |w| >= salt + TAG_LEN && m.derive(w[..salt]).open(Nonce(0), w[salt..]) == Some(plain)
  {
    hide Serialize;
    var salt := m.kind.SaltLen();
    var plain := if m.kind.NoCipher? then w else m.derive(w[..salt]).open(Nonce(0), w[salt..]).value;
    Reprint(plain);
    assert plain == plain[..Parse(plain).used] + plain[Parse(plain).used..];
  }

  /** `encrypt_payload`; `salt` is what the random source produced. */
  method EncryptPayload(m: Method, salt: bytes, a: Address, payload: bytes, dst: Buffer)
    requires m.Sound() && |salt| == m.kind.SaltLen()
    modifies dst
    ensures m.kind.NoCipher? ==> dst.data == old(dst.data) + Packet(m, salt, a, payload)
    ensures !m.kind.NoCipher? ==> dst.data == Packet(m, salt, a, payload)
  {
    hide Serialize;
    if m.kind.NoCipher? {
      WriteToBuf(a, dst);
      dst.PutSlice(payload);
      assert old(dst.data) + Serialize(a) + payload == old(dst.data) + (Serialize(a) + payload);
    } else {
      EncryptPayloadAead(m, salt, a, payload, dst);
    }
  }

  /** The buffer is first cut or padded to the salt, so what it held before does not matter. */
  method EncryptPayloadAead(m: Method, salt: bytes, a: Address, payload: bytes, dst: Buffer)
    requires m.Sound() && |salt| == m.kind.SaltLen() && !m.kind.NoCipher?
    modifies dst
    ensures dst.data == Packet(m, salt, a, payload)
  {
    hide Serialize, Nonce;
    dst.data := if |dst.data| >= |salt| then dst.data[..|salt|] else dst.data + seq(|salt| - |dst.data|, _ => 0);
    dst.data := salt + dst.data[|salt|..];
    assert dst.data == salt;
    var cipher := new AeadCipher(m.derive(salt));
    WriteToBuf(a, dst);
    dst.PutSlice(payload);
    dst.PutSlice(seq(TAG_LEN, _ => 0));  // room for the tag, uninitialised in the original
    SealedPart(salt, Serialize(a), payload, seq(TAG_LEN, _ => 0));
    var body := dst.data[|salt|..|dst.data| - TAG_LEN];
    var sealed := cipher.Encrypt(body);
    dst.data := dst.data[..|salt|] + sealed;
  }

  lemma SealedPart(salt: bytes, head: bytes, payload: bytes, tag: bytes)
    ensures var w := salt + head + payload + tag;
            w[..|salt|] == salt && w[|salt|..|w| - |tag|] == head + payload
  {
  }

  /** `copy_within(from..to, 0)` */
  method CopyToFront(a: array<byte>, from: nat, to: nat)
    requires from <= to <= a.Length
    modifies a
    ensures a[..] == old(a[from..to] + a[to - from..])
  {
    ghost var was := a[..];
    for i := 0 to to - from
      invariant forall j :: 0 <= j < i ==> a[j] == was[from + j]
      invariant forall j :: i <= j < a.Length ==> a[j] == was[j]
    {
      a[i] := a[from + i];
    }
    assert a[..to - from] == was[from..to] && a[to - from..] == was[to - from..];
    assert a[..] == a[..to - from] + a[to - from..];
  }

  /** Decryption in place: the plaintext takes the place of the ciphertext, the tag stays behind it. */
  method Overwrite(a: array<byte>, from: nat, s: bytes)
    requires from + |s| <= a.Length
    modifies a
    ensures a[..] == old(a[..from]) + s + old(a[from + |s|..])
  {
    for i := 0 to |s|
      invariant a[..from] == old(a[..from])
      invariant a[from..from + i] == s[..i]
      invariant a[from + i..] == old(a[from + i..])
    {
      a[from + i] := s[i];
      assert a[from..from + i + 1] == a[from..from + i] + [s[i]];
    }
    assert a[..] == a[..from] + a[from..from + |s|] + a[from + |s|..];
  }

  /**
   `decrypt_payload` on the first `len` bytes of a buffer: afterwards the payload is at the front. Every index it uses is in
   range, whatever the packet.
   */
  method DecryptPayload(m: Method, payload: array<byte>, len: nat) returns (r: Outcome)
    requires m.Sound() && len <= payload.Length
    modifies payload
    ensures match Open(m, old(payload[..len]))
            case Opening(data, a) => r == Opened(|data|, a) && |data| <= len && payload[..|data|] == data
            case Rejected(why) => r == Refused(why)
  {
    if m.kind.NoCipher? {
      r := TakePacket(payload, 0, len);
    } else {
      r := DecryptPayloadAead(m, payload, len);
    }
  }

  method DecryptPayloadAead(m: Method, payload: array<byte>, len: nat) returns (r: Outcome)
    requires m.Sound() && !m.kind.NoCipher? && len <= payload.Length
    modifies payload
    ensures match Open(m, old(payload[..len]))
            case Opening(data, a) => r == Opened(|data|, a) && |data| <= len && payload[..|data|] == data
            case Rejected(why) => r == Refused(why)
  {
    hide Parse, Serialize, Nonce, Split;
    ghost var w := payload[..len];
    var saltLen := m.kind.SaltLen();
    if len < saltLen {
      return Refused(ShortForSalt);
    }
    assert payload[..saltLen] == w[..saltLen] && payload[saltLen..len] == w[saltLen..];
    var cipher := new AeadCipher(m.derive(payload[..saltLen]));
    if len - saltLen < TAG_LEN {
      return Refused(ShortForTag);
    }
    var plain := cipher.Decrypt(payload[saltLen..len]);
    if plain == None {
      return Refused(BadTag);
    }
    Overwrite(payload, saltLen, plain.value);
    assert payload[saltLen..saltLen + |plain.value|] == plain.value;
    r := TakePacket(payload, saltLen, len - saltLen - TAG_LEN);
  }

  /** Parses the plaintext at `start` and moves the payload in it to the front of the buffer. */
  method TakePacket(payload: array<byte>, start: nat, dataLen: nat) returns (r: Outcome)
    requires start + dataLen <= payload.Length
    modifies payload
    ensures match Split(old(payload[start..start + dataLen]))
            case Opening(data, a) => r == Opened(|data|, a) && |data| <= dataLen && payload[..|data|] == data
            case Rejected(why) => r == Refused(why)
  {
    hide Split;
    ghost var plain := payload[start..start + dataLen];
    var dn, got := ParsePacket(payload[start..start + dataLen]);
    if got.Refused? {
      return got;
    }
    CopyToFront(payload, start + dn, start + dataLen);
    assert payload[..dataLen - dn] == plain[dn..];
    r := Opened(dataLen - dn, got.address);
  }

  /** `parse_packet`: the address at the front of `buf`, and where the data after it starts. */
  method ParsePacket(buf: bytes) returns (dn: nat, r: Outcome)
    ensures match Split(buf)
            case Opening(data, a) => dn <= |buf| && data == buf[dn..] && r == Opened(|data|, a)
            case Rejected(why) => r == Refused(why)
  {
    var cur := new Cursor(buf);
    assert buf[0..] == buf;
    var got := ReadFromCursor(cur);
    match got
    case Parsed(a, used) =>
      Reprint(buf);
      dn, r := used, Opened(|buf| - used, a);
    case Malformed(why) =>
      dn, r := 0, Refused(if why.Panic? then Abort else BadAddress);
  }

  datatype Event = Hold | Pass | Lose

  /** A datagram network: it may lose, repeat, delay or reorder packets, but does not alter them. */
  class Network {
    var sent: seq<bytes>
    var turns: seq<Event>

    /** `poll_send_to` on the socket; the count is that of the encrypted packet. */
    method PollSend(packet: bytes) returns (r: Poll<nat>)
      modifies this
      ensures r == Answer(old(turns), |packet|)
      ensures sent == if r.Ready? then old(sent) + [packet] else old(sent)
    {
      r := Answer(turns, |packet|);
      turns := if turns == [] then [] else turns[1..];
      if r.Ready? {
        sent := sent + [packet];
      }
    }
  }

  /** What the socket says to a packet of `n` bytes. */
  function Answer(turns: seq<Event>, n: nat): Poll<nat> {
    if turns == [] then Pending else
    match turns[0]
    case Hold => Pending
    case Lose => Failed(Transport)
    case Pass => Ready(n)
  }

  /** One datagram handed to the stream: the salt drawn for it, its target, its payload. */
  datatype Sent = Sent(salt: bytes, target: Address, payload: bytes)

  function Packets(m: Method, log: seq<Sent>): (r: seq<bytes>)
    ensures |r| == |log|
  {
    seq(|log|, i requires 0 <= i < |log| => Packet(m, log[i].salt, log[i].target, log[i].payload))
  }

  /** `ShadowSocksUdpStream` */
  class UdpStream {
    const m: Method
    const writeBuffer: Buffer
    var writing: bool
    ghost var log: seq<Sent>
    ghost var current: Sent

    ghost predicate Valid(net: Network)
      reads this, writeBuffer, net
    {
      && m.Sound()
      && (forall d <- log :: |d.salt| == m.kind.SaltLen())
      && net.sent == Packets(m, log)
      && (!writing ==> writeBuffer.data == [])
      && (writing ==>
            && |current.salt| == m.kind.SaltLen()
            && writeBuffer.data == Packet(m, current.salt, current.target, current.payload))
    }

    constructor (m: Method, net: Network)
      requires m.Sound() && net.sent == []
      ensures Valid(net) && this.m == m && fresh(writeBuffer) && log == [] && !writing
    {
      this.m := m;
      writeBuffer := new Buffer();
      writing, log, current := false, [], Sent([], DUMMY, []);
    }

    /**
     A packet is sealed once and offered until the socket takes or refuses it; after either the stream is ready for the next
     one, so a refused packet never leaks into its successor.
     */
    method PollSendTo(net: Network, salt: bytes, data: bytes, target: Address) returns (r: Poll<nat>)
      requires Valid(net) && |salt| == m.kind.SaltLen()
      modifies `writing, `log, `current, writeBuffer, net
      ensures Valid(net) && writing == r.Pending?
      ensures current == if old(writing) then old(current) else Sent(salt, target, data)
      ensures r == Answer(old(net.turns), |Packet(m, current.salt, current.target, current.payload)|)
      ensures r.Ready? ==> log == old(log) + [current]
      ensures !r.Ready? ==> log == old(log)
    {
      hide Packet;
      if !writing {
        EncryptPayload(m, salt, target, data, writeBuffer);
        assert [] + Packet(m, salt, target, data) == Packet(m, salt, target, data);
        current, writing := Sent(salt, target, data), true;
      }
      r := net.PollSend(writeBuffer.data);
      if r.Pending? {
        return;
      }
      if r.Ready? {
        log := log + [current];
      }
      writeBuffer.data := [];
      writing := false;
    }

    /**
     `poll_recv_from` into a buffer whose first `filled` bytes are taken. The socket adds the packet behind them, cut off where the
     room ends, and everything in the buffer is opened as one packet; `now` is how much of the buffer is taken afterwards.
     */
    method RecvFrom(arrival: Arrival, dst: array<byte>, filled: nat) returns (r: Received, now: nat)
      requires m.Sound() && filled <= dst.Length
      modifies dst
      ensures !arrival.Arrived? ==>
                dst[..] == old(dst[..]) && now == filled && r == if arrival.Quiet? then Waiting else SocketError
      ensures arrival.Arrived? ==>
                var room := dst.Length - filled;
                match Open(m, old(dst[..filled]) + (if |arrival.packet| <= room then arrival.packet else arrival.packet[..room]))
                case Opening(data, a) => r == From(a) && now == |data| <= dst.Length && dst[..now] == data
                case Rejected(why) => r == Bad(why)
      ensures now <= dst.Length && (r.Bad? && arrival.Arrived? ==> now == filled + Least(|arrival.packet|, dst.Length - filled))
    {
      if arrival.Quiet? {
        return Waiting, filled;
      }
      if arrival.Broke? {
        return SocketError, filled;
      }
      var room := dst.Length - filled;
      var packet := if |arrival.packet| <= room then arrival.packet else arrival.packet[..room];
      Overwrite(dst, filled, packet);
      assert dst[..filled + |packet|] == old(dst[..filled]) + packet;
      var got := DecryptPayload(m, dst, filled + |packet|);
      match got
      case Opened(n, a) => r, now := From(a), n;
      case Refused(why) => r, now := Bad(why), filled + |packet|;
    }

    /**
     A datagram sealed for this method and received into an empty buffer with room for it: what comes out is its payload and its
     address exactly when the codec can carry the address.
     */
    method ReceiveDatagram(packet: bytes, dst: array<byte>, ghost salt: bytes, ghost a: Address, ghost payload: bytes)
      returns (r: Received, now: nat)
      requires m.Sound() && |packet| <= dst.Length
      requires |salt| == (match m.kind case NoCipher => 0 case Aes128Gcm => 16 case Aes256Gcm => 32 case ChaCha20Poly1305 => 32)
      requires packet == if m.kind.NoCipher? then Serialize(a) + payload
                         else salt + m.derive(salt).seal([0, 0, 0, 0, 0, 0, 0, 0, 0, 0, 0, 0], Serialize(a) + payload)
      modifies dst
      ensures now <= dst.Length && (Representable(a) <==> r == From(a) && dst[..now] == payload)
    {
      PacketBytes(m, salt, a, payload);
      SaltLenIs(m.kind);
      PacketRoundTripIff(m, salt, a, payload);
      assert dst[..0] + packet == packet;
      hide Packet, Open, Serialize;
      r, now := RecvFrom(Arrived(packet), dst, 0);
    }
  }

  /** What the socket has for a poll, and what the stream makes of it. */
  datatype Arrival = Quiet | Broke | Arrived(packet: bytes)
  datatype Received = Waiting | SocketError | From(address: Address) | Bad(why: UdpFault)

  /** Whichever packet of the run arrives, it opens to the datagram it was made from. */
  lemma EveryPacketOpens(s: UdpStream, net: Network, i: nat)
    requires s.Valid(net) && i < |net.sent| && Representable(s.log[i].target)
    ensures Open(s.m, net.sent[i]) == Opening(s.log[i].payload, s.log[i].target)
  {
    PacketRoundTripIff(s.m, s.log[i].salt, s.log[i].target, s.log[i].payload);
  }
}
