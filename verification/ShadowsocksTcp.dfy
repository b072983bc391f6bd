/**
 The AEAD stream of Shadowsocks over TCP: `salt ++ frame 0 ++ frame 1 ++ ...`, where a frame is a sealed
 two-byte length followed by a sealed payload, the two using consecutive nonces.
 */
module ShadowsocksTcp {
  import opened Bytes
  import opened Framing
  import opened Pipe
  import opened Aead
  import opened ChunkReader
  import opened ChunkWriter
  import opened Offers
  import opened ReplayWindow

  const MAX_PACKET_SIZE := 0x3FFF
  const HEAD := 2 + TAG_LEN

  predicate FitsPacket(data: bytes) { |data| <= MAX_PACKET_SIZE }

  /** Frame number `n` of a stream. */
  function Frame(a: Aead, n: nat, data: bytes): bytes {
    a.seal(Nonce(2 * n), BigEndian16(|data|)) + a.seal(Nonce(2 * n + 1), data)
  }

  function Packets(a: Aead): Coding { Coding(Framer(a), FitsPacket) }

  function Framer(a: Aead): (nat, bytes) -> bytes { (n, data) => Frame(a, n, data) }

  /** What the sealed length of frame `n` says. */
  function LengthOf(a: Aead, n: nat, head: bytes): (r: Step<nat>)
    requires |head| == HEAD
    ensures r.Item? ==> r.value <= MAX_PACKET_SIZE
    ensures !r.NeedMore?
  {
    match a.open(Nonce(2 * n), head)
    case None => Broken(InvalidTag)
    case Some(m) =>
      if |m| != 2 then Broken(InvalidTag)
      else if FromBigEndian16(m) > MAX_PACKET_SIZE then Broken(LengthTooLarge)
      else Item(FromBigEndian16(m), HEAD)
  }

  function BodyLen(a: Aead, n: nat, head: bytes): (r: Step<nat>)
    ensures !r.NeedMore?
  {
    if |head| != HEAD then Broken(InvalidTag) else
    var len := LengthOf(a, n, head);
    if len.Item? then Item(len.value + TAG_LEN, HEAD) else len
  }

  function OpenPayload(a: Aead, n: nat, body: bytes): (r: Step<bytes>)
    ensures !r.NeedMore?
  {
    if |body| < TAG_LEN then Broken(Panic) else
    match a.open(Nonce(2 * n + 1), body)
    case None => Broken(InvalidTag)
    case Some(data) => Item(data, |body|)
  }

  function Layout(a: Aead): Format {
    Format(HEAD, (n, head) => BodyLen(a, n, head), (n, body) => OpenPayload(a, n, body))
  }

  lemma LayoutGood(a: Aead)
    requires a.Sound()
    ensures Layout(a).Good() && Stable(Frames(Layout(a)))
  {
    FramesStable(Layout(a));
  }

  /** A frame on the wire: the length, high byte first, and the payload, each sealed, under an even and an odd nonce. */
  lemma FrameBytes(a: Aead, n: nat, data: bytes)
    requires a.Sound() && |data| <= 16383
    ensures Frame(a, n, data) == a.seal(Nonce(2 * n), [|data| / 256, |data| % 256]) + a.seal(Nonce(2 * n + 1), data)
    ensures |Frame(a, n, data)| == 2 + 16 + |data| + 16
  {
    assert BigEndian16(|data|) == [|data| / 256, |data| % 256];
  }

  /** A sealed length is accepted up to and including 0x3FFF. */
  lemma LengthAcceptedIff(a: Aead, n: nat, len: nat)
    requires a.Sound() && len < 0x1_0000
    ensures var r := LengthOf(a, n, a.seal(Nonce(2 * n), [len / 256, len % 256]));
            r == (if len <= 0x3FFF then Item(len, 18) else Broken(LengthTooLarge))
  {
    BigEndian16RoundTrip(len, []);
    assert BigEndian16(len) + [] == BigEndian16(len) == [len / 256, len % 256];
  }

  /** What is made of any 18 bytes as a length and of any bytes as a payload, in plain numbers. */
  lemma OpenIs(a: Aead, n: nat, head: bytes, body: bytes)
    requires |head| == 18
    ensures BodyLen(a, n, head) ==
              match a.open(Nonce(2 * n), head)
              case None => Broken(InvalidTag)
              case Some(m) =>
                if |m| != 2 then Broken(InvalidTag)
                else if m[0] as int * 256 + m[1] as int > 0x3FFF then Broken(LengthTooLarge)
                else Item(m[0] as int * 256 + m[1] as int + 16, 18)
    ensures OpenPayload(a, n, body) ==
              if |body| < 16 then Broken(Panic) else
              match a.open(Nonce(2 * n + 1), body) case None => Broken(InvalidTag) case Some(data) => Item(data, |body|)
  {
    hide Nonce;
  }

  lemma NextFrameOfFrame(a: Aead, n: nat, data: bytes, x: bytes)
    requires a.Sound() && |data| <= MAX_PACKET_SIZE
    ensures NextFrame(Layout(a), n, Frame(a, n, data) + x) == Item(data, |Frame(a, n, data)|)
  {
    var head, body := a.seal(Nonce(2 * n), BigEndian16(|data|)), a.seal(Nonce(2 * n + 1), data);
    var w := head + body + x;
    assert w[..HEAD] == head;
    BigEndian16RoundTrip(|data|, []);
    assert BigEndian16(|data|) + [] == BigEndian16(|data|);
    assert w[HEAD..HEAD + |data| + TAG_LEN] == body;
  }

  lemma FramesInverse(a: Aead)
    requires a.Sound()
    ensures Inverse(Frames(Layout(a)), Framer(a), FitsPacket)
  {
    forall n: nat, data: bytes, x: bytes | FitsPacket(data)
      ensures Frames(Layout(a))(n, Framer(a)(n, data) + x) == Item(data, |Framer(a)(n, data)|)
    {
      NextFrameOfFrame(a, n, data, x);
    }
  }

  /** `DecryptedReader`: a resumable reader of frames. */
  class DecryptedReader {
    const cipher: AeadCipher
    var buffer: bytes
    var dataLength: nat
    var state: ReadState
    var readZero: bool
    ghost var received: bytes
    ghost var delivered: bytes
    ghost var frames: seq<bytes>
    ghost var head: bytes

    ghost function Now(): View
      reads this
    {
      View(state, buffer, dataLength, received, delivered, frames, head)
    }

    ghost predicate Valid()
      reads this, cipher, cipher.nonce
    {
      && cipher.Valid() && cipher.aead.Sound() && Consistent(Layout(cipher.aead), Now())
      && (state != Finished ==> cipher.uses == 2 * |frames| + (if state == AwaitBody then 1 else 0))
      && (state == AwaitBody ==> dataLength >= TAG_LEN)
    }

    constructor (aead: Aead)
      requires aead.Sound()
      ensures Valid() && fresh(cipher) && fresh(cipher.nonce) && cipher.aead == aead
      ensures received == [] && delivered == [] && state == AwaitLength
    {
      cipher := new AeadCipher(aead);
      buffer, dataLength, state, readZero := [], 0, AwaitLength, false;
      received, delivered, frames, head := [], [], [], [];
      new;
      LayoutGood(aead);
      ConsistentFresh(Layout(aead));
    }

    /** `co_await(self.read_at_least(..))` and the error handling behind it. */
    method Fill(pipe: Channel) returns (r: Poll<()>)
      requires Valid() && pipe.Valid() && Now().Waiting()
      modifies `buffer, `readZero, `received, `state, pipe`taken, pipe`turns, pipe`last
      ensures Polled(r.Pending?, |pipe.turns|, |old(pipe.turns)|)
      ensures Valid() && pipe.Valid() && Took(pipe, old(pipe.taken), |old(pipe.turns)|, old(received))
      ensures !r.Failed? ==> state == old(state)
      ensures r.Ready? <==> Now().Waiting() && |buffer| >= Now().Wanted(HEAD)
      ensures r.Pending? ==> pipe.last == Pending
      ensures r.Failed? ==> state == Finished && (readZero || (r.error == Transport && pipe.last == r))
      ensures !r.Ready? ==> Settled(Layout(cipher.aead), Now())
      ensures r.Failed? && readZero ==> pipe.closed && pipe.taken == |pipe.sent|
      ensures |pipe.turns| == |old(pipe.turns)| ==> buffer == old(buffer)
    {
      hide Channel.Fair, Consistent, Stable, Resumes, Frames, Flatten, Decode, Settled;
      ghost var v := Now();
      var length := if state == AwaitLength then HEAD else dataLength;
      r, buffer, readZero := Pipe.ReadAtLeast(pipe, buffer, length);
      ghost var more := pipe.sent[old(pipe.taken)..pipe.taken];
      received := received + more;
      assert Now() == v.Fill(more);
      ConsistentFill(Layout(cipher.aead), v, more);
      if !r.Ready? {
        ConsistentShort(Layout(cipher.aead), v.Fill(more));
      }
      if r.Failed? {
        state := Finished;
        assert Now() == v.Fill(more).Stop();
      }
    }

    /** `decrypt_length` */
    method DecryptLength(text: bytes) returns (r: Step<nat>)
      requires cipher.Valid() && |text| == HEAD
      modifies cipher`uses, cipher.nonce
      ensures cipher.Valid() && cipher.uses == old(cipher.uses) + 1
      ensures forall n: nat :: old(cipher.uses) == 2 * n ==> r == LengthOf(cipher.aead, n, text)
      ensures !r.NeedMore? && (r.Item? ==> r.value <= MAX_PACKET_SIZE)
    {
      var m := cipher.Decrypt(text);
      if m.None? || |m.value| != 2 {
        return Broken(InvalidTag);
      }
      var plen := FromBigEndian16(m.value);
      if plen > MAX_PACKET_SIZE {
        return Broken(LengthTooLarge);
      }
      r := Item(plen, HEAD);
    }

    /** State `AwaitLength` with a whole sealed length in the buffer. */
    method OpenLength() returns (fault: Option<Fault>)
      requires Valid() && state == AwaitLength && |buffer| >= HEAD
      modifies `buffer, `dataLength, `state, `head, cipher`uses, cipher.nonce
      ensures Valid() && (fault == None ==> state == AwaitBody && |buffer| < |old(buffer)|)
      ensures fault.Some? ==> state == Finished && Settled(Layout(cipher.aead), Now())
      ensures fault.Some? ==> Decode(Frames(Layout(cipher.aead)), 0, received).fault == fault
    {
      hide Consistent;
      ghost var v := Now();
      var len := DecryptLength(buffer[..HEAD]);
      ConsistentLength(Layout(cipher.aead), v, if len.Item? then Item(len.value + TAG_LEN, HEAD) else len);
      if len.Broken? {
        state := Finished;
        assert Now() == v.Stop();
        return Some(len.why);
      }
      head := buffer[..HEAD];
      dataLength := len.value + TAG_LEN;
      buffer := buffer[HEAD..];
      state := AwaitBody;
      fault := None;
    }

    /** State `AwaitBody` with a whole payload: it is opened in place, its tag staying behind it in the buffer. */
    method OpenBody() returns (fault: Option<Fault>)
      requires Valid() && state == AwaitBody && |buffer| >= dataLength
      modifies `buffer, `dataLength, `state, `frames, cipher`uses, cipher.nonce
      ensures Valid() && (fault == None ==> state == Putting && |buffer| == |old(buffer)|)
      ensures fault.Some? ==> state == Finished && Settled(Layout(cipher.aead), Now())
      ensures fault.Some? ==> Decode(Frames(Layout(cipher.aead)), 0, received).fault == fault
    {
      hide Consistent, Settled, Decode;
      ghost var v := Now();
      var plain := cipher.Decrypt(buffer[..dataLength]);
      ConsistentBody(Layout(cipher.aead), v,
        if plain.None? then Broken(InvalidTag) else Item(plain.value, dataLength));
      if plain.None? {
        state := Finished;
        assert Now() == v.Stop();
        return Some(InvalidTag);
      }
      frames := frames + [plain.value];
      dataLength := dataLength - TAG_LEN;
      buffer := plain.value + buffer[dataLength..];
      state := Putting;
      assert Now() == v.Open(plain.value);
      fault := None;
    }

    /**
     State `Putting`: one turn of the loop that hands plaintext to the caller. Without room in the middle of a frame the loop
     ends as if the frame were done, and the reader is out of step with the stream.
     */
    method Put(room: nat) returns (put: bytes)
      requires Valid() && state == Putting
      modifies `buffer, `dataLength, `state, `delivered
      ensures Valid() <==> room > 0 || old(dataLength) == 0
      ensures |put| == Least(old(dataLength), room) && delivered == old(delivered) + put
      ensures dataLength == old(dataLength) - |put|
      ensures put == [] ==> state == AwaitLength && |buffer| < |old(buffer)|
      ensures put != [] ==> state == Putting
    {
      hide Consistent;
      ghost var v := Now();
      var minimal := if dataLength < room then dataLength else room;
      ConsistentPut(Layout(cipher.aead), v, minimal);
      if minimal == 0 {
        ZeroRoomSafeIff(Layout(cipher.aead), v);
        buffer := buffer[TAG_LEN..];
        state := AwaitLength;
        return [];
      }
      put := buffer[..minimal];
      delivered := delivered + put;
      dataLength := dataLength - minimal;
      buffer := buffer[minimal..];
    }

    /** What a call took from the transport: a stretch of its unread bytes, and nothing unless a turn was spent. */
    ghost predicate Took(pipe: Channel, taken: nat, turns: nat, before: bytes)
      reads this, pipe
    {
      && taken <= pipe.taken <= |pipe.sent| && |pipe.turns| <= turns
      && (|pipe.turns| == turns ==> pipe.taken == taken)
      && received == before + pipe.sent[taken..pipe.taken]
    }

    /** What the result of a call that hands over nothing tells the caller. */
    ghost predicate Explained(r: Poll<()>, pipe: Channel)
      reads this, pipe
    {
      && Settled(Layout(cipher.aead), Now())
      && (r.Ready? ==> readZero && pipe.closed && pipe.taken == |pipe.sent|)
      && (r.Pending? ==> pipe.last == Pending)
      && (r.Failed? ==> r.error.Protocol? || (r.error.Transport? && pipe.last == r))
      && (r.Failed? && r.error.Protocol? ==> Decode(Frames(Layout(cipher.aead)), 0, received).fault == Some(r.error.why))
    }

    /** One turn of the generator's outer loop. */
    method Step(pipe: Channel, room: nat) returns (r: Option<Poll<()>>, put: bytes)
      requires Valid() && pipe.Valid() && room > 0 && state != Finished
      modifies this, cipher`uses, cipher.nonce, pipe`taken, pipe`turns, pipe`last
      ensures Polled(r == Some(Poll.Pending), |pipe.turns|, |old(pipe.turns)|)
      ensures Valid() && pipe.Valid() && Took(pipe, old(pipe.taken), |old(pipe.turns)|, old(received))
      ensures delivered == old(delivered) + put && |put| <= room
      ensures put != [] ==> r == Some(Ready(())) && (|put| == room || (state == Putting && dataLength == 0))
      ensures r.Some? && put == [] ==> Explained(r.value, pipe)
      ensures r.Some? ==> (state == Finished <==> !r.value.Pending? && put == [])
      ensures r == None ==> state != Finished
      ensures r == None && |pipe.turns| == |old(pipe.turns)| ==>
                || |buffer| < |old(buffer)|
                || (|buffer| == |old(buffer)| && old(state) != Putting && state == Putting)
    {
      hide Channel.Fair, Consistent, Settled;
      put := [];
      if state == Putting {
        put := Put(room);
        return if put == [] then None else Some(Ready(())), put;
      }
      var filled := Fill(pipe);
      if !filled.Ready? {
        // end of file is reported to the caller as a successful read of nothing
        return Some(if readZero && filled.Failed? then Ready(()) else filled), [];
      }
      var fault;
      if state == AwaitLength {
        fault := OpenLength();
      } else {
        fault := OpenBody();
      }
      r := if fault.Some? then Some(Failed(Protocol(fault.value))) else None;
    }

    /**
     `poll_read_decrypted`: resumes where the last call stopped. Whatever the transport does, the caller
     receives the plaintext of the frames in order; a call that hands over nothing has handed over
     every complete frame received so far.
     */
    method PollRead(pipe: Channel, room: nat) returns (r: Poll<()>, put: bytes)
      requires Valid() && pipe.Valid() && room > 0
      modifies this, cipher`uses, cipher.nonce, pipe`taken, pipe`turns, pipe`last
      ensures Polled(r.Pending?, |pipe.turns|, |old(pipe.turns)|)
      ensures Valid() && pipe.Valid() && Took(pipe, old(pipe.taken), |old(pipe.turns)|, old(received))
      ensures delivered == old(delivered) + put && |put| <= room
      ensures put != [] ==> r == Ready(()) && (|put| == room || (state == Putting && dataLength == 0))
      ensures put == [] && old(state) != Finished ==> Explained(r, pipe)
      ensures old(state) != Finished ==> (state == Finished <==> !r.Pending? && put == [])
      ensures old(state) == Finished ==> r == Failed(UnexpectedEof) && put == [] && state == Finished
    {
      hide Channel.Fair, Consistent, Settled;
      put := [];
      if state == Finished {
        return Failed(UnexpectedEof), [];
      }
      var outcome: Option<Poll<()>> := None;
      while outcome == None
        invariant Valid() && pipe.Valid() && Took(pipe, old(pipe.taken), |old(pipe.turns)|, old(received))
        invariant delivered == old(delivered) + put && |put| <= room
        invariant put != [] ==> outcome == Some(Ready(())) && (|put| == room || (state == Putting && dataLength == 0))
        invariant Polled(outcome == Some(Poll.Pending), |pipe.turns|, |old(pipe.turns)|)
        invariant outcome == None ==> state != Finished
        invariant outcome.Some? && put == [] ==> Explained(outcome.value, pipe)
        invariant outcome.Some? ==> (state == Finished <==> !outcome.value.Pending? && put == [])
        decreases outcome == None, |pipe.turns|, |buffer|, state != Putting
      {
        outcome, put := Step(pipe, room);
      }
      r := outcome.value;
    }
  }

  /** The most a frame carries of what the caller offers. */
  function Chunk(data: bytes): bytes {
    Capped(MAX_PACKET_SIZE, data)
  }

  /** A chunk takes all that is offered up to and including 0x3FFF bytes, and stays below that only if the offer does. */
  lemma ChunkBelowIff(data: bytes)
    ensures |Chunk(data)| < 0x3FFF <==> |data| < 0x3FFF
    ensures if |data| <= 0x3FFF then Chunk(data) == data else Chunk(data) == data[..0x3FFF]
  {
    if |data| == MAX_PACKET_SIZE {
      assert data[..MAX_PACKET_SIZE] == data;
    }
  }

  /** `EncryptedWriter`: a resumable writer of frames. */
  class EncryptedWriter {
    const cipher: AeadCipher
    ghost const salt: bytes
    var buf: bytes
    var pos: nat
    var dataLen: nat
    var writing: bool
    ghost var wire: bytes
    ghost var chunks: seq<bytes>
    ghost var failed: bool

    ghost function Now(): Outbox
      reads this
    {
      Outbox(writing, buf, pos, wire, chunks)
    }

    ghost predicate Valid()
      reads this, cipher, cipher.nonce
    {
      && cipher.Valid() && cipher.aead.Sound() && cipher.uses == 2 * |chunks|
      && (writing ==> pos <= |buf| && chunks != [] && dataLen == |chunks[|chunks| - 1]|)
      && Books(Packets(cipher.aead), salt, Now(), failed)
    }

    constructor (aead: Aead, salt: bytes)
      requires aead.Sound()
      ensures Valid() && fresh(cipher) && fresh(cipher.nonce) && cipher.aead == aead && this.salt == salt
      ensures wire == [] && chunks == [] && !writing && !failed
    {
      cipher := new AeadCipher(aead);
      this.salt := salt;
      buf, pos, dataLen, writing := salt, 0, 0, false;
      wire, chunks, failed := [], [], false;
      new;
      assert wire + buf == salt && EncodeAll(Framer(aead), 0, []) == [];
    }

    /** `encrypted_buffer`: appends one frame, using two nonces. */
    method EncryptedBuffer(data: bytes)
      requires Valid() && !writing && FitsPacket(data)
      modifies `buf, `pos, `dataLen, `writing, `chunks, cipher`uses, cipher.nonce
      ensures Valid() && writing && chunks == old(chunks) + [data]
    {
      hide Books;
      ghost var o := Now();
      BooksFrame(Packets(cipher.aead), salt, o, failed, data);
      dataLen := |data|;
      var head := cipher.Encrypt(BigEndian16(|data|));
      var body := cipher.Encrypt(data);
      buf := buf + (head + body);
      pos, writing := 0, true;
      chunks := chunks + [data];
      assert head + body == Frame(cipher.aead, |o.chunks|, data);
    }

    /**
     `poll_write_encrypted`. The chunk is framed on the first poll only; while it is stuck behind `Pending`, later polls
     just push bytes. The length reported is that of the chunk framed on the first poll.
     */
    method PollWrite(pipe: Channel, data: bytes) returns (r: Poll<nat>)
      requires Valid() && pipe.Valid()
      modifies this, cipher`uses, cipher.nonce, pipe`sent, pipe`pushes, pipe`last
      ensures Spent(old(pipe.pushes), pipe.pushes) && (r.Failed? <==> Faulty(Used(old(pipe.pushes), pipe.pushes)))
      ensures Polled(r.Pending?, |pipe.pushes|, |old(pipe.pushes)|)
      ensures Valid() && pipe.Valid() && Honest(r, pipe)
      ensures Grew(old(pipe.sent), pipe.sent) && wire == old(wire) + More(old(pipe.sent), pipe.sent)
      ensures chunks == if old(writing) then old(chunks) else old(chunks) + [Chunk(data)]
      ensures cipher.uses == old(cipher.uses) + (if old(writing) then 0 else 2)
      ensures writing <==> r.Pending?
      ensures r.Ready? ==> r.value == |chunks[|chunks| - 1]|
      ensures failed == (old(failed) || r.Failed?)
      ensures !old(failed) ==> wire <= salt + EncodeAll(Framer(cipher.aead), 0, chunks)
      ensures r.Ready? ==> (wire == salt + EncodeAll(Framer(cipher.aead), 0, chunks) <==> !failed)
    {
      hide Books, EncodeAll, Faulty, Used, Spent;
      if !writing {
        EncryptedBuffer(Chunk(data));
      }
      var rest := Flush(pipe);
      if rest.Pending? {
        return Pending;
      }
      buf, writing := [], false;
      if rest.Failed? {
        failed := true;
        return Failed(rest.error);
      }
      r := Ready(dataLen);
    }

    /** `write_data`, with the bytes it moves accounted for. */
    method Flush(pipe: Channel) returns (r: Poll<()>)
      requires Valid() && pipe.Valid() && writing
      modifies `pos, `wire, pipe`sent, pipe`pushes, pipe`last
      ensures Spent(old(pipe.pushes), pipe.pushes) && (r.Failed? <==> Faulty(Used(old(pipe.pushes), pipe.pushes)))
      ensures Polled(r.Pending?, |pipe.pushes|, |old(pipe.pushes)|)
      ensures Valid() && pipe.Valid() && Honest(r, pipe)
      ensures |old(pipe.sent)| <= |pipe.sent| && pipe.sent[..|old(pipe.sent)|] == old(pipe.sent)
      ensures wire == old(wire) + pipe.sent[|old(pipe.sent)|..]
      ensures !failed ==> wire <= salt + EncodeAll(Framer(cipher.aead), 0, chunks)
      ensures !r.Pending? ==> Books(Packets(cipher.aead), salt, Now().(writing := false, buf := []), failed || r.Failed?)
      ensures r.Ready? ==> (wire == salt + EncodeAll(Framer(cipher.aead), 0, chunks) <==> !failed)
    {
      hide Books, FitsPacket, EncodeAll;
      hide Faulty, Used, Spent, Pushing;
      PushingFails(pipe.pushes, |buf| - pos);
      ghost var o := Now();
      r, pos := WriteRest(pipe, buf, pos);
      assert pipe.sent[|old(pipe.sent)|..] == buf[o.pos..pos];
      wire := wire + pipe.sent[|old(pipe.sent)|..];
      BooksWrite(Packets(cipher.aead), salt, o, failed, pos);
      if r.Ready? {
        BooksWire(Packets(cipher.aead), salt, Now().(writing := false, buf := []), failed);
      }
    }
  }

  /** The receiving half of `CryptoStream`: the salt handshake, then the frames under the key that salt derives. */
  class CryptoReader {
    const derive: bytes -> Aead
    const kind: CipherKind
    const saltLen: nat
    const context: BloomContext
    var salt: bytes
    var dec: DecryptedReader?
    ghost var received: bytes
    ghost var delivered: bytes
    /** The frame reader and what it owns. */
    ghost var parts: set<object>

    ghost predicate Valid()
      reads this, context, parts
    {
      && context.Valid() && (forall s :: derive(s).Sound()) && saltLen == kind.SaltLen()
      && (dec == null ==> parts == {} && received == salt && |salt| <= saltLen && delivered == [])
      && (dec != null ==>
            && dec in parts && parts == {dec, dec.cipher, dec.cipher.nonce}
            && |salt| == saltLen && received == salt + dec.received
            && delivered == dec.delivered && dec.Valid() && dec.cipher.aead == derive(salt))
    }

    constructor (derive: bytes -> Aead, kind: CipherKind, context: BloomContext)
      requires context.Valid() && forall s :: derive(s).Sound()
      ensures Valid() && dec == null && received == [] && delivered == []
      ensures this.derive == derive && this.kind == kind && saltLen == kind.SaltLen() && this.context == context
    {
      this.derive, this.kind, saltLen, this.context := derive, kind, kind.SaltLen(), context;
      salt, dec, received, delivered, parts := [], null, [], [], {};
    }

    /** A handshake that stalled, failed or met the end of the stream, as the transport did. */
    ghost predicate CutShort(r: Poll<()>, pipe: Channel)
      reads pipe
    {
      match r
      case Pending => pipe.last == Pending
      case Failed(e) =>
        (e == Transport && pipe.last == r) || (e == UnexpectedEof && pipe.closed && pipe.taken == |pipe.sent|)
      case Ready(_) => false
    }

    method ReadSalt(pipe: Channel) returns (r: Poll<()>)
      requires Valid() && pipe.Valid() && dec == null
      modifies `salt, `received, pipe`taken, pipe`turns, pipe`last
      ensures Polled(r.Pending?, |pipe.turns|, |old(pipe.turns)|)
      ensures Valid() && pipe.Valid() && old(pipe.taken) <= pipe.taken
      ensures received == old(received) + pipe.sent[old(pipe.taken)..pipe.taken]
      ensures r.Ready? ==> |salt| == saltLen
      ensures !r.Ready? ==> CutShort(r, pipe)
    {
      hide Channel.Fair;
      while |salt| != saltLen
        invariant received == salt && |salt| <= saltLen
        invariant pipe.Valid() && old(pipe.taken) <= pipe.taken
        invariant received == old(received) + pipe.sent[old(pipe.taken)..pipe.taken]
        decreases |pipe.turns|
      {
        ghost var before := pipe.taken;
        var got := pipe.PollRead(saltLen - |salt|);
        match got
        case Pending => return Pending;
        case Failed(_) => return Failed(Transport);
        case Ready(more) =>
          SliceJoin(pipe.sent, old(pipe.taken), before, pipe.taken);
          salt := salt + more;
          received := received + more;
          if more == [] {
            return Failed(UnexpectedEof);
          }
      }
      r := Ready(());
    }

    /** `poll_read_handshake`: exactly `saltLen` bytes are read, so no byte of the first frame is lost to it. */
    method Handshake(pipe: Channel) returns (r: Poll<()>)
      requires Valid() && pipe.Valid()
      modifies `salt, `dec, `received, `parts, context, pipe`taken, pipe`turns, pipe`last
      ensures Polled(r.Pending?, |pipe.turns|, |old(pipe.turns)|)
      ensures Valid() && pipe.Valid() && old(pipe.taken) <= pipe.taken
      ensures received == old(received) + pipe.sent[old(pipe.taken)..pipe.taken]
      ensures r.Ready? <==> dec != null
      ensures r.Ready? ==>
                && |salt| == (match kind case NoCipher => 0 case Aes128Gcm => 16 case Aes256Gcm => 32 case ChaCha20Poly1305 => 32)
                && received == salt + dec.received && dec.cipher.aead == derive(salt)
      ensures old(dec) == null && dec != null ==> dec.received == []
      ensures !r.Ready? && r != Failed(Protocol(BadHeader)) ==> CutShort(r, pipe)
      ensures r == Failed(Protocol(BadHeader)) ==>
                old(dec) == null && |salt| == saltLen > 0 && Seen(context.hashes, old(context.State()), salt)
      ensures r.Pending? ==> unchanged(context)
      ensures old(dec) == null && |salt| == saltLen > 0 && !CutShort(r, pipe) ==>
                (r == Failed(Protocol(BadHeader)) <==> Seen(context.hashes, old(context.State()), salt))
      ensures old(dec) != null ==> dec == old(dec) && unchanged(parts)
      ensures old(dec) == null && dec != null ==> dec.state == AwaitLength
      ensures fresh(parts - old(parts)) && this !in parts && pipe !in parts
    {
      if dec != null {
        return Ready(());
      }
      SaltLenIs(kind);
      hide Valid, Consistent, Settled;
      r := ReadSalt(pipe);
      if r.Ready? {
        r := Establish();
      }
    }

    /** The salt is complete: unless it is a replay, the frame reader starts under the key it derives. */
    method Establish() returns (r: Poll<()>)
      requires Valid() && dec == null && |salt| == saltLen
      modifies `dec, `parts, context
      ensures Valid() && (r.Ready? <==> dec != null) && fresh(parts) && this !in parts
      ensures r.Ready? || r == Failed(Protocol(BadHeader))
      ensures r.Failed? <==> saltLen > 0 && Seen(context.hashes, old(context.State()), salt)
      ensures dec != null ==> dec.state == AwaitLength && dec.received == [] && dec.cipher.aead == derive(salt)
    {
      hide Consistent, Settled;
      var repeated := context.CheckNonceAndSet(salt);
      if repeated {
        return Failed(Protocol(BadHeader));
      }
      dec := new DecryptedReader(derive(salt));
      parts := {dec, dec.cipher, dec.cipher.nonce};
      assert received == salt + dec.received;
      r := Ready(());
    }

    /** The frames have ended. */
    ghost predicate Over()
      reads this, dec
    {
      dec != null && dec.state == Finished
    }

    /** What the result of a call tells the caller; `over` says that the frames had ended before it. */
    ghost predicate Explained(r: Poll<()>, put: bytes, pipe: Channel, over: bool)
      reads this, dec, pipe
    {
      if put != [] then r == Ready(()) && !over
      else if over then r == Failed(UnexpectedEof)
      else if dec == null then r == Failed(Protocol(BadHeader)) || CutShort(r, pipe)
      else dec.Explained(r, pipe)
    }

    /** `priv_poll_read` */
    method PollRead(pipe: Channel, room: nat) returns (r: Poll<()>, put: bytes)
      requires Valid() && pipe.Valid() && room > 0
      modifies this, context, parts, pipe`taken, pipe`turns, pipe`last
      ensures Polled(r.Pending?, |pipe.turns|, |old(pipe.turns)|)
      ensures Valid() && pipe.Valid() && old(pipe.taken) <= pipe.taken
      ensures received == old(received) + pipe.sent[old(pipe.taken)..pipe.taken]
      ensures fresh(parts - old(parts))
      ensures delivered == old(delivered) + put && |put| <= room
      ensures r.Pending? && dec != null ==> Settled(Layout(dec.cipher.aead), dec.Now())
      ensures dec != null && !old(Over()) ==> (Over() <==> !r.Pending? && put == [])
      ensures dec == null && r.Pending? ==> unchanged(context)
      ensures dec == null && r == Failed(Protocol(BadHeader)) ==>
                |salt| == saltLen > 0 && Seen(context.hashes, old(context.State()), salt)
      ensures old(dec) != null ==> dec != null
      ensures Explained(r, put, pipe, old(Over()))
    {
      hide Channel.Fair, Consistent, Settled, Valid;
      r := Handshake(pipe);
      put := [];
      if !r.Ready? {
        return;
      }
      ghost var mid := pipe.taken;
      r, put := ReadFrames(pipe, room);
      SliceJoin(pipe.sent, old(pipe.taken), mid, pipe.taken);
    }

    method ReadFrames(pipe: Channel, room: nat) returns (r: Poll<()>, put: bytes)
      requires Valid() && pipe.Valid() && room > 0 && dec != null
      modifies `received, `delivered, parts, pipe`taken, pipe`turns, pipe`last
      ensures Polled(r.Pending?, |pipe.turns|, |old(pipe.turns)|)
      ensures Valid() && pipe.Valid() && old(pipe.taken) <= pipe.taken
      ensures received == old(received) + pipe.sent[old(pipe.taken)..pipe.taken]
      ensures delivered == old(delivered) + put && |put| <= room
      ensures r.Pending? ==> Settled(Layout(dec.cipher.aead), dec.Now())
      ensures dec == old(dec) && Explained(r, put, pipe, old(Over()))
      ensures !old(Over()) ==> (Over() <==> !r.Pending? && put == [])
    {
      hide Channel.Fair, Consistent, Settled;
      r, put := dec.PollRead(pipe, room);
      received := received + pipe.sent[old(pipe.taken)..pipe.taken];
      delivered := delivered + put;
    }
  }

  /**
   End to end: a reader that has received any part of an honest wire has delivered a prefix of the plaintext sent;
   if it has received the whole of it and is waiting for more, it has delivered everything.
   */
  lemma EndToEnd(reader: CryptoReader, salt: bytes, chunks: seq<bytes>)
    requires reader.Valid() && |salt| == reader.saltLen && AllValid(chunks, FitsPacket)
    requires reader.received <= salt + EncodeAll(Framer(reader.derive(salt)), 0, chunks)
    ensures reader.delivered <= Flatten(chunks)
    ensures reader.dec != null ==>
              && reader.salt == salt && Decode(Frames(Layout(reader.derive(salt))), 0, reader.dec.received).fault == None
              && (&& reader.received == salt + EncodeAll(Framer(reader.derive(salt)), 0, chunks)
                  && Settled(Layout(reader.dec.cipher.aead), reader.dec.Now())
                  ==> reader.delivered == Flatten(chunks))
  {
    hide Consistent;
    if reader.dec != null {
      var a, frames := reader.derive(salt), EncodeAll(Framer(reader.derive(salt)), 0, chunks);
      assert reader.salt == reader.received[..|salt|] == salt;
      assert reader.dec.received == reader.received[|salt|..] <= frames;
      LayoutGood(a);
      FramesInverse(a);
      HonestPrefix(Frames(Layout(a)), Framer(a), FitsPacket, chunks, reader.dec.received);
      ConsistentPrefix(Layout(a), reader.dec.Now());
      FlattenPrefix(Decode(Frames(Layout(a)), 0, reader.dec.received).items, chunks);
    }
  }
}
