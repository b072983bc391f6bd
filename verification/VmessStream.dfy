/**
 A VMess connection: the response header, whose reader hands its leftover bytes to the body reader,
 and the request header, which must be out before the first chunk.
 */
module VmessStream {
  import opened Bytes
  import opened Framing
  import opened Pipe
  import opened Aead
  import opened ChunkReader
  import opened ChunkWriter
  import opened VmessBody

  const LEN_BLOCK := 2 + TAG_LEN

  /** The keys of the response header, and the byte that must come back in it. */
  datatype HeaderKeys = HeaderKeys(lenAead: Aead, lenIv: bytes, payAead: Aead, payIv: bytes, respv: byte) {
    ghost predicate Sound() { lenAead.Sound() && payAead.Sound() }
  }

  /** How long the response header says its payload is. */
  function HeaderLen(k: HeaderKeys, block: bytes): (r: Step<nat>)
    ensures !r.NeedMore?
  {
    match k.lenAead.open(k.lenIv, block)
    case None => Broken(InvalidTag)
    case Some(m) => if |m| != 2 then Broken(InvalidTag) else Item(FromBigEndian16(m), LEN_BLOCK)
  }

  /** The checks on the opened payload; `buffer` starts with it and runs on into the tag and whatever follows. */
  function CheckHeader(k: HeaderKeys, buffer: bytes): Option<Fault> {
    if |buffer| < 20 then Some(TooShort)
    else if buffer[0] != k.respv || buffer[2] != 0 then Some(BadHeader)
    else None
  }

  /** The verdict of the header reader on all the bytes it holds when it gives it. */
  function HeaderStep(k: HeaderKeys, w: bytes): Step<()> {
    if |w| < LEN_BLOCK then NeedMore else
    match HeaderLen(k, w[..LEN_BLOCK])
    case NeedMore => NeedMore
    case Broken(why) => Broken(why)
    case Item(len, _) =>
      var rest := w[LEN_BLOCK..];
      if |rest| < len + TAG_LEN then NeedMore else
      match k.payAead.open(k.payIv, rest[..len + TAG_LEN])
      case None => Broken(InvalidTag)
      case Some(payload) =>
        match CheckHeader(k, payload + rest[len..])
        case Some(why) => Broken(why)
        case None => Item((), LEN_BLOCK + len + TAG_LEN)
  }

  function SealedHeader(k: HeaderKeys, payload: bytes): bytes {
    k.lenAead.seal(k.lenIv, BigEndian16(|payload|)) + k.payAead.seal(k.payIv, payload)
  }

  /** A well-formed response header payload. */
  predicate HonestPayload(k: HeaderKeys, payload: bytes) {
    4 <= |payload| < 0x1_0000 && payload[0] == k.respv && payload[2] == 0
  }

  lemma HeaderOfSealed(k: HeaderKeys, payload: bytes, x: bytes)
    requires k.Sound() && |payload| < 0x1_0000
    ensures |SealedHeader(k, payload)| == LEN_BLOCK + |payload| + TAG_LEN
    ensures var tagged := payload + k.payAead.seal(k.payIv, payload)[|payload|..] + x;
            HeaderStep(k, SealedHeader(k, payload) + x) ==
              match CheckHeader(k, tagged)
              case Some(why) => Broken(why)
              case None => Item((), |SealedHeader(k, payload)|)
  {
    var block, body := k.lenAead.seal(k.lenIv, BigEndian16(|payload|)), k.payAead.seal(k.payIv, payload);
    var w := block + body + x;
    assert w[..LEN_BLOCK] == block && w[LEN_BLOCK..] == body + x;
    BigEndian16RoundTrip(|payload|, []);
    assert BigEndian16(|payload|) + [] == BigEndian16(|payload|);
    assert (body + x)[..|payload| + TAG_LEN] == body;
    assert payload + (body + x)[|payload|..] == payload + body[|payload|..] + x;
  }

  /** The header on the wire: the length of its payload, high byte first, and the payload, each sealed. */
  lemma HeaderBytes(k: HeaderKeys, payload: bytes)
    requires k.Sound() && |payload| < 0x1_0000
    ensures SealedHeader(k, payload) == k.lenAead.seal(k.lenIv, [|payload| / 256, |payload| % 256]) + k.payAead.seal(k.payIv, payload)
    ensures |SealedHeader(k, payload)| == 34 + |payload|
  {
    assert BigEndian16(|payload|) == [|payload| / 256, |payload| % 256];
  }

  /** A response of at least four bytes is accepted exactly if it brings back the byte agreed on, and no dynamic port. */
  lemma ResponseVerdict(k: HeaderKeys, payload: bytes, x: bytes)
    requires k.Sound() && 4 <= |payload| < 0x1_0000
    ensures HeaderStep(k, SealedHeader(k, payload) + x) ==
              if payload[0] == k.respv && payload[2] == 0 then Item((), 34 + |payload|) else Broken(BadHeader)
  {
    HeaderOfSealed(k, payload, x);
  }

  /** When any bytes at all are accepted as a response header, step by step, in plain numbers. */
  lemma AcceptedIff(k: HeaderKeys, w: bytes)
    ensures HeaderStep(k, w).Item? <==>
              && |w| >= 18 && k.lenAead.open(k.lenIv, w[..18]).Some? && |k.lenAead.open(k.lenIv, w[..18]).value| == 2
              && var m := k.lenAead.open(k.lenIv, w[..18]).value;
                 var len := m[0] as int * 256 + m[1] as int;
                 && |w| >= 34 + len && k.payAead.open(k.payIv, w[18..34 + len]).Some?
                 && var buffer := k.payAead.open(k.payIv, w[18..34 + len]).value + w[18 + len..];
                    |buffer| >= 20 && buffer[0] == k.respv && buffer[2] == 0
    ensures HeaderStep(k, w).Item? ==>
              var m := k.lenAead.open(k.lenIv, w[..18]).value; HeaderStep(k, w).used == 34 + m[0] as int * 256 + m[1] as int
  {
    if |w| >= 18 && k.lenAead.open(k.lenIv, w[..18]).Some? && |k.lenAead.open(k.lenIv, w[..18]).value| == 2 {
      var m := k.lenAead.open(k.lenIv, w[..18]).value;
      var len := m[0] as int * 256 + m[1] as int;
      if |w| >= 34 + len {
        assert w[18..][..len + 16] == w[18..34 + len] && w[18..][len..] == w[18 + len..];
      }
    }
  }

  /** When more bytes are asked for, and why a response header is refused, in plain numbers. */
  lemma RefusedIff(k: HeaderKeys, w: bytes)
    ensures |w| < 18 ==> HeaderStep(k, w) == NeedMore
    ensures |w| >= 18 ==>
              var block := k.lenAead.open(k.lenIv, w[..18]);
              if block == None || |block.value| != 2 then HeaderStep(k, w) == Broken(InvalidTag) else
              var len := block.value[0] as int * 256 + block.value[1] as int;
              if |w| < 34 + len then HeaderStep(k, w) == NeedMore else
              var payload := k.payAead.open(k.payIv, w[18..34 + len]);
              if payload == None then HeaderStep(k, w) == Broken(InvalidTag) else
              var buffer := payload.value + w[18 + len..];
              && (HeaderStep(k, w) == Broken(TooShort) <==> |buffer| < 20)
              && (HeaderStep(k, w) == Broken(BadHeader) <==> |buffer| >= 20 && (buffer[0] != k.respv || buffer[2] != 0))
  {
    if |w| >= 18 && k.lenAead.open(k.lenIv, w[..18]).Some? && |k.lenAead.open(k.lenIv, w[..18]).value| == 2 {
      var m := k.lenAead.open(k.lenIv, w[..18]).value;
      var len := m[0] as int * 256 + m[1] as int;
      if |w| >= 34 + len {
        assert w[18..][..len + 16] == w[18..34 + len] && w[18..][len..] == w[18 + len..];
      }
    }
  }

  /**
   Reading an honest header, however it is cut up and whatever body bytes arrive with it: the reader asks for more until the
   header is complete, and then consumes exactly the header.
   */
  lemma HonestHeader(k: HeaderKeys, payload: bytes, body: bytes, w: bytes)
    requires k.Sound() && HonestPayload(k, payload) && w <= SealedHeader(k, payload) + body
    ensures HeaderStep(k, w) ==
              if |w| < |SealedHeader(k, payload)| then NeedMore else Item((), |SealedHeader(k, payload)|)
  {
    var header := SealedHeader(k, payload);
    HeaderOfSealed(k, payload, []);
    if |w| >= |header| {
      assert w == header + w[|header|..];
      HeaderOfSealed(k, payload, w[|header|..]);
    } else if |w| >= LEN_BLOCK {
      var block := k.lenAead.seal(k.lenIv, BigEndian16(|payload|));
      assert w[..LEN_BLOCK] == header[..LEN_BLOCK] == block;
      BigEndian16RoundTrip(|payload|, []);
      assert BigEndian16(|payload|) + [] == BigEndian16(|payload|);
    }
  }

  /** What a header reader that has not seen the whole header leaves in its buffer: all it received behind the length. */
  function Unread(received: bytes): bytes { if |received| < LEN_BLOCK then received else received[LEN_BLOCK..] }

  /** A response whose header has arrived whole never looks truncated. */
  lemma HeaderWhole(k: HeaderKeys, payload: bytes, body: bytes, w: bytes)
    requires k.Sound() && HonestPayload(k, payload) && w <= SealedHeader(k, payload) + body
    requires |w| >= |SealedHeader(k, payload)|
    ensures HeaderStep(k, w) != NeedMore
  {
    HonestHeader(k, payload, body, w);
  }

  /**
   The length check counts the tag and the body bytes that happen to be in the buffer, so the verdict on a complete header is
   independent of how much has arrived behind it exactly when its payload has the four bytes the check is after.
   */
  lemma VerdictIndependentIff(k: HeaderKeys, payload: bytes)
    requires k.Sound() && |payload| < 0x1_0000
    ensures (forall x: bytes {:trigger SealedHeader(k, payload) + x} ::
               HeaderStep(k, SealedHeader(k, payload) + x).Broken? == HeaderStep(k, SealedHeader(k, payload)).Broken?
               && (HeaderStep(k, SealedHeader(k, payload)).Broken? ==>
                     HeaderStep(k, SealedHeader(k, payload) + x) == HeaderStep(k, SealedHeader(k, payload))))
            <==> |payload| >= 4
  {
    var header, tagged := SealedHeader(k, payload), payload + k.payAead.seal(k.payIv, payload)[|payload|..];
    HeaderOfSealed(k, payload, []);
    assert header + [] == header && tagged + [] == tagged;
    if |payload| >= 4 {
      forall x: bytes
        ensures HeaderStep(k, header + x) == HeaderStep(k, header)
      {
        HeaderOfSealed(k, payload, x);
        assert (tagged + x)[0] == tagged[0] && (tagged + x)[2] == tagged[2];
      }
    } else {
      var x: bytes := [0, 0, 0, 0];
      HeaderOfSealed(k, payload, x);
      assert HeaderStep(k, header) == Broken(TooShort);
      assert HeaderStep(k, header + x) != Broken(TooShort);
    }
  }

  datatype HeaderState = AwaitLen | AwaitPayload | Over

  /** `VmessHeaderReader` */
  class VmessHeaderReader {
    const keys: HeaderKeys
    var buffer: bytes
    var state: HeaderState
    var dataLength: nat
    var receivedResp: bool
    var readZero: bool
    ghost var received: bytes
    /** How many bytes the header took up, once it has been accepted. */
    ghost var consumed: nat

    ghost predicate Valid()
      reads this
    {
      && keys.Sound()
      && match state {
           case AwaitLen => buffer == received && !receivedResp
           case AwaitPayload =>
             && |received| >= LEN_BLOCK && buffer == received[LEN_BLOCK..] && !receivedResp
             && HeaderLen(keys, received[..LEN_BLOCK]) == Item(dataLength, LEN_BLOCK)
           case Over =>
             receivedResp ==>
               && HeaderStep(keys, received) == Item((), consumed) && consumed <= |received|
               && buffer == received[consumed..]
         }
    }

    constructor (keys: HeaderKeys)
      requires keys.Sound()
      ensures Valid() && this.keys == keys && received == [] && state == AwaitLen && !receivedResp
    {
      this.keys := keys;
      buffer, state, dataLength, receivedResp, readZero := [], AwaitLen, 0, false, false;
      received, consumed := [], 0;
    }

    /** One read of the transport, logged; a failure ends the reader. */
    method Fill(pipe: Channel, length: nat) returns (r: Poll<()>)
      requires Valid() && pipe.Valid() && state != Over
      requires length == if state == AwaitLen then LEN_BLOCK else dataLength + TAG_LEN
      modifies `buffer, `readZero, `received, `state, pipe`taken, pipe`turns, pipe`last
      ensures Polled(r.Pending?, |pipe.turns|, |old(pipe.turns)|)
      ensures Valid() && pipe.Valid() && old(pipe.taken) <= pipe.taken
      ensures received == old(received) + pipe.sent[old(pipe.taken)..pipe.taken]
      ensures !r.Failed? ==> state == old(state) && (r.Ready? <==> |buffer| >= length)
      ensures r.Failed? ==> state == Over && (readZero ==> pipe.closed && pipe.taken == |pipe.sent|)
      ensures !r.Ready? ==> HeaderStep(keys, received) == NeedMore
      ensures !r.Ready? ==> buffer == Unread(received)
      ensures r.Pending? ==> pipe.last == r
      ensures r.Failed? && !readZero ==> r.error == Transport && pipe.last == r
    {
      ghost var before, was := received, buffer;
      r, buffer, readZero := Pipe.ReadAtLeast(pipe, buffer, length);
      ghost var more := pipe.sent[old(pipe.taken)..pipe.taken];
      received := received + more;
      if state == AwaitPayload {
        assert received[..LEN_BLOCK] == before[..LEN_BLOCK];
        assert received[LEN_BLOCK..] == before[LEN_BLOCK..] + more;
      }
      if r.Failed? {
        state := Over;
      }
    }

    /** The checks behind the opened payload, and the step past it. */
    method Accept(payload: bytes) returns (fault: Option<Fault>)
      requires Valid() && state == AwaitPayload && |buffer| >= dataLength + TAG_LEN
      requires keys.payAead.open(keys.payIv, buffer[..dataLength + TAG_LEN]) == Some(payload)
      modifies `buffer, `state, `receivedResp, `dataLength, `consumed
      ensures Valid() && state == Over && (receivedResp <==> fault == None)
      ensures fault.Some? ==> HeaderStep(keys, received) == Broken(fault.value)
    {
      ghost var rest := buffer;
      buffer := payload + buffer[dataLength..];
      state := Over;
      fault := CheckHeader(keys, buffer);
      if fault == None {
        buffer := buffer[dataLength + TAG_LEN..];
        assert buffer == rest[dataLength + TAG_LEN..];
        consumed := LEN_BLOCK + dataLength + TAG_LEN;
        dataLength := |buffer|;
        receivedResp := true;
      }
    }

    /**
     `poll_read_decrypted` of the header: success means that exactly the header has left the buffer; end of file is also
     reported as success, but without `receivedResp`.
     */
    method PollRead(pipe: Channel) returns (r: Poll<()>)
      requires Valid() && pipe.Valid()
      modifies this, pipe`taken, pipe`turns, pipe`last
      ensures Polled(r.Pending?, |pipe.turns|, |old(pipe.turns)|)
      ensures Valid() && pipe.Valid() && old(pipe.taken) <= pipe.taken
      ensures received == old(received) + pipe.sent[old(pipe.taken)..pipe.taken]
      ensures r.Pending? <==> state != Over
      ensures r.Pending? ==> HeaderStep(keys, received) == NeedMore
      ensures old(state) == Over ==> r == Failed(UnexpectedEof) && unchanged(this)
      ensures r.Ready? && !receivedResp ==>
                pipe.closed && pipe.taken == |pipe.sent| && HeaderStep(keys, received) == NeedMore && buffer == Unread(received)
      ensures old(state) != Over && receivedResp ==> r.Ready?
      ensures receivedResp ==> HeaderStep(keys, received).Item?
      ensures r.Failed? && r.error.Protocol? ==> HeaderStep(keys, received) == Broken(r.error.why)
      ensures r.Pending? ==> pipe.last == r
      ensures old(state) != Over && r.Failed? ==> r.error.Protocol? || (r.error == Transport && pipe.last == r)
    {
      if state == Over {
        return Failed(UnexpectedEof);
      }
      if state == AwaitLen {
        r := ReadLength(pipe);
        if !r.Ready? || state == Over {
          return;
        }
      }
      ghost var mid := pipe.taken;
      r := ReadPayload(pipe);
      SliceJoin(pipe.sent, old(pipe.taken), mid, pipe.taken);
    }

    method ReadLength(pipe: Channel) returns (r: Poll<()>)
      requires Valid() && pipe.Valid() && state == AwaitLen
      modifies this, pipe`taken, pipe`turns, pipe`last
      ensures Polled(r.Pending?, |pipe.turns|, |old(pipe.turns)|)
      ensures Valid() && pipe.Valid() && old(pipe.taken) <= pipe.taken
      ensures received == old(received) + pipe.sent[old(pipe.taken)..pipe.taken]
      ensures r.Pending? ==> state == AwaitLen && HeaderStep(keys, received) == NeedMore
      ensures r.Ready? ==> state == AwaitPayload || (state == Over
                             && pipe.closed && pipe.taken == |pipe.sent| && HeaderStep(keys, received) == NeedMore
                             && buffer == Unread(received))
      ensures r.Pending? ==> pipe.last == r
      ensures r.Failed? ==> state == Over && (r.error.Protocol? || (r.error == Transport && pipe.last == r))
      ensures r.Failed? && r.error.Protocol? ==> HeaderStep(keys, received) == Broken(r.error.why)
      ensures !receivedResp
    {
      r := Fill(pipe, LEN_BLOCK);
      if r.Failed? {
        return if readZero then Ready(()) else Failed(Transport);
      }
      if r.Pending? {
        return;
      }
      var len := HeaderLen(keys, buffer[..LEN_BLOCK]);
      if len.Broken? {
        state := Over;
        return Failed(Protocol(len.why));
      }
      dataLength := len.value;
      buffer := buffer[LEN_BLOCK..];
      state := AwaitPayload;
    }

    method ReadPayload(pipe: Channel) returns (r: Poll<()>)
      requires Valid() && pipe.Valid() && state == AwaitPayload
      modifies this, pipe`taken, pipe`turns, pipe`last
      ensures Polled(r.Pending?, |pipe.turns|, |old(pipe.turns)|)
      ensures Valid() && pipe.Valid() && old(pipe.taken) <= pipe.taken
      ensures received == old(received) + pipe.sent[old(pipe.taken)..pipe.taken]
      ensures r.Pending? ==> state == AwaitPayload && HeaderStep(keys, received) == NeedMore
      ensures !r.Pending? ==> state == Over
      ensures r.Ready? && !receivedResp ==>
                pipe.closed && pipe.taken == |pipe.sent| && HeaderStep(keys, received) == NeedMore && buffer == Unread(received)
      ensures receivedResp ==> r.Ready?
      ensures r.Pending? ==> pipe.last == r
      ensures r.Failed? ==> r.error.Protocol? || (r.error == Transport && pipe.last == r)
      ensures r.Failed? && r.error.Protocol? ==> HeaderStep(keys, received) == Broken(r.error.why)
    {
      r := Fill(pipe, dataLength + TAG_LEN);
      if r.Failed? {
        return if readZero then Ready(()) else Failed(Transport);
      }
      if r.Pending? {
        return;
      }
      var payload := keys.payAead.open(keys.payIv, buffer[..dataLength + TAG_LEN]);
      if payload.None? {
        state := Over;
        return Failed(Protocol(InvalidTag));
      }
      var fault := Accept(payload.value);
      if fault.Some? {
        r := Failed(Protocol(fault.value));
      }
    }
  }

  /**
   Of a peer's response of at least four bytes, whatever comes behind it, a header reader accepts only one that brings back the byte
   agreed on and no dynamic port; and the verdict on any other, once it is whole, is a refusal.
   */
  lemma OnlyGoodResponses(r: VmessHeaderReader, payload: bytes, x: bytes)
    requires r.Valid() && 4 <= |payload| < 0x1_0000 && r.received == SealedHeader(r.keys, payload) + x
    ensures r.receivedResp ==> payload[0] == r.keys.respv && payload[2] == 0
    ensures payload[0] != r.keys.respv || payload[2] != 0 ==> HeaderStep(r.keys, r.received) == Broken(BadHeader)
    ensures payload[0] == r.keys.respv && payload[2] == 0 ==> HeaderStep(r.keys, r.received) == Item((), 34 + |payload|)
  {
    ResponseVerdict(r.keys, payload, x);
    hide HeaderStep, SealedHeader;
  }

  /**
   The receiving half of `VmessStream`: the header phase, the hand-over of the buffer, and the body phase. `truncated` records
   that the transport ended inside the header; the original then parses the rest of the header as body.
   */
  class VmessReader {
    const header: VmessHeaderReader
    const body: VmessAeadReader
    var streaming: bool
    var dead: bool
    ghost var received: bytes
    ghost var truncated: bool
    /** How much had been received when the header was accepted. */
    ghost var handover: nat

    ghost predicate Valid()
      reads this, header, body
    {
      && header.Valid() && body.Valid()
      && (!streaming ==>
            && header.received == received && (!dead ==> header.state != Over)
            && body.state == AwaitLength && body.received == [] && body.buffer == [] && body.delivered == [])
      && (truncated ==>
            && streaming && handover <= |received| && HeaderStep(header.keys, received[..handover]) == NeedMore
            && body.received == Unread(received[..handover]) + received[handover..])
      && (streaming && !truncated ==>
            && header.consumed <= handover <= |received|
            && HeaderStep(header.keys, received[..handover]) == Item((), header.consumed)
            && body.received == received[header.consumed..])
    }

    constructor (keys: HeaderKeys, key: Key)
      requires keys.Sound() && key.aead.Sound()
      ensures Valid() && fresh(header) && fresh(body) && header.keys == keys && body.key == key
      ensures received == [] && body.delivered == [] && !streaming && !dead && !truncated
    {
      header := new VmessHeaderReader(keys);
      body := new VmessAeadReader(key);
      streaming, dead, received, truncated, handover := false, false, [], false, 0;
    }

    /** The header phase: on success the body reader starts with every byte read past the header. */
    method ReadHeader(pipe: Channel) returns (r: Poll<()>)
      requires Valid() && pipe.Valid() && !streaming && !dead
      modifies this, header, body, pipe`taken, pipe`turns, pipe`last
      ensures Polled(r.Pending?, |pipe.turns|, |old(pipe.turns)|)
      ensures Valid() && pipe.Valid() && old(pipe.taken) <= pipe.taken
      ensures received == old(received) + pipe.sent[old(pipe.taken)..pipe.taken]
      ensures body.delivered == old(body.delivered) == [] && (r.Ready? <==> streaming) && (r.Failed? <==> dead)
      ensures streaming ==> body.state == AwaitLength
      ensures r.Pending? ==> HeaderStep(header.keys, received) == NeedMore && pipe.last == r
      ensures r.Failed? ==>
                || (r.error == Transport && pipe.last == r)
                || (r.error.Protocol? && HeaderStep(header.keys, received) == Broken(r.error.why))
      ensures truncated && !old(truncated) ==>
                && pipe.closed && pipe.taken == |pipe.sent| && HeaderStep(header.keys, received) == NeedMore
                && body.received == header.buffer == Unread(received)
    {
      hide Channel.Fair, VmessAeadReader.Valid, HeaderStep;
      r := header.PollRead(pipe);
      received := received + pipe.sent[old(pipe.taken)..pipe.taken];
      if r.Failed? {
        dead := true;
      } else if r.Ready? {
        body.ReplaceBuffer(header.buffer);
        streaming, handover := true, |received|;
        truncated := !header.receivedResp;
        assert received[..handover] == received && Unread(received) + received[handover..] == Unread(received);
      }
    }

    /** The generator has ended, in its header phase or in its body phase. */
    ghost predicate AtEnd()
      reads this, body
    {
      dead || (streaming && body.state == Finished)
    }

    /** `poll_read_header` */
    method PollRead(pipe: Channel, room: nat) returns (r: Poll<()>, put: bytes)
      requires Valid() && pipe.Valid() && room > 0
      modifies this, header, body, pipe`taken, pipe`turns, pipe`last
      ensures Polled(r.Pending?, |pipe.turns|, |old(pipe.turns)|)
      ensures Valid() && pipe.Valid() && old(pipe.taken) <= pipe.taken
      ensures received == old(received) + pipe.sent[old(pipe.taken)..pipe.taken]
      ensures body.delivered == old(body.delivered) + put && |put| <= room
      ensures old(streaming) ==> streaming && truncated == old(truncated)
      ensures truncated && !old(truncated) ==>
                pipe.closed && pipe.taken == |pipe.sent| && HeaderStep(header.keys, received) == NeedMore
      ensures r.Pending? && streaming ==> Settled(Layout(body.key), body.Now())
      ensures put != [] ==> r == Ready(()) && streaming
      ensures old(AtEnd()) ==> r == Failed(UnexpectedEof) && put == []
      ensures !old(AtEnd()) ==> (AtEnd() <==> !r.Pending? && put == []) && (!streaming ==> !r.Ready?)
      ensures !old(dead) && !streaming && r.Pending? ==> HeaderStep(header.keys, received) == NeedMore && pipe.last == r
      ensures !old(dead) && !streaming && r.Failed? ==>
                || (r.error == Transport && pipe.last == r)
                || (r.error.Protocol? && HeaderStep(header.keys, received) == Broken(r.error.why))
      ensures !old(dead) && streaming && put == [] && !(old(streaming) && old(body.state) == Finished) ==> body.Explained(r, pipe)
    {
      hide VmessReader.Valid, Channel.Fair, Consistent, HeaderStep, Settled, VmessHeaderReader.Valid, VmessAeadReader.Valid;
      put := [];
      if dead {
        return Failed(UnexpectedEof), [];
      }
      if !streaming {
        r := ReadHeader(pipe);
        if !r.Ready? {
          return;
        }
      }
      ghost var mid := pipe.taken;
      r, put := ReadBody(pipe, room);
      SliceJoin(pipe.sent, old(pipe.taken), mid, pipe.taken);
    }

    method ReadBody(pipe: Channel, room: nat) returns (r: Poll<()>, put: bytes)
      requires Valid() && pipe.Valid() && room > 0 && streaming
      modifies `received, body, pipe`taken, pipe`turns, pipe`last
      ensures Polled(r.Pending?, |pipe.turns|, |old(pipe.turns)|)
      ensures Valid() && pipe.Valid() && old(pipe.taken) <= pipe.taken
      ensures received == old(received) + pipe.sent[old(pipe.taken)..pipe.taken]
      ensures body.delivered == old(body.delivered) + put && |put| <= room
      ensures r.Pending? ==> Settled(Layout(body.key), body.Now())
      ensures put != [] ==> r == Ready(())
      ensures old(body.state) == Finished ==> r == Failed(UnexpectedEof) && put == []
      ensures put == [] && old(body.state) != Finished ==> body.Explained(r, pipe)
      ensures old(body.state) != Finished ==> (body.state == Finished <==> !r.Pending? && put == [])
    {
      hide Channel.Fair, Consistent, HeaderStep, Settled;
      ghost var before := received;
      r, put := body.PollRead(pipe, room);
      received := received + pipe.sent[old(pipe.taken)..pipe.taken];
      assert received[..handover] == before[..handover];
      assert received[handover..] == before[handover..] + pipe.sent[old(pipe.taken)..pipe.taken];
      if !truncated {
        assert received[header.consumed..] == before[header.consumed..] + pipe.sent[old(pipe.taken)..pipe.taken];
      }
    }
  }

  /**
   The receive path end to end: whatever part of an honest response has arrived, and however it was cut up, the header
   reader has consumed exactly the header, no byte was lost or repeated in the hand-over, and the
   bytes delivered are a prefix of the sender's plaintext, all of it once the response has been read to its end.
   */
  lemma ReceivePath(r: VmessReader, payload: bytes, chunks: seq<bytes>)
    requires r.Valid() && HonestPayload(r.header.keys, payload) && AllValid(chunks, FitsChunk) && !r.truncated
    requires r.received <= SealedHeader(r.header.keys, payload) + EncodeAll(Framer(r.body.key), 0, chunks)
    ensures r.body.delivered <= Flatten(chunks)
    ensures r.streaming ==>
              && r.header.consumed == |SealedHeader(r.header.keys, payload)|
              && r.received == SealedHeader(r.header.keys, payload) + r.body.received
              && Decode(Frames(Layout(r.body.key)), 0, r.body.received).fault == None
    ensures (&& r.streaming && Settled(Layout(r.body.key), r.body.Now())
             && r.body.received == EncodeAll(Framer(r.body.key), 0, chunks))
            ==> r.body.delivered == Flatten(chunks)
  {
    hide Consistent, HeaderStep;
    if r.streaming {
      var k, sealed, stream := r.body.key, SealedHeader(r.header.keys, payload), EncodeAll(Framer(r.body.key), 0, chunks);
      HonestHeader(r.header.keys, payload, stream, r.received[..r.handover]);
      assert r.received == sealed + r.body.received && r.body.received <= stream;
      LayoutGood(k);
      FramesInverse(k);
      HonestPrefix(Frames(Layout(k)), Framer(k), FitsChunk, chunks, r.body.received);
      ConsistentPrefix(Layout(k), r.body.Now());
      FlattenPrefix(Decode(Frames(Layout(k)), 0, r.body.received).items, chunks);
    }
  }

  /**
   A response counts as truncated exactly if its header had not arrived whole when the header phase ended; the body reader is then
   given the rest of the header, behind the length if that was there, and everything after it.
   */
  lemma TruncatedIff(r: VmessReader, payload: bytes, body: bytes)
    requires r.Valid() && r.streaming && HonestPayload(r.header.keys, payload)
    requires r.received <= SealedHeader(r.header.keys, payload) + body
    ensures r.truncated <==> r.handover < |SealedHeader(r.header.keys, payload)|
    ensures r.truncated ==>
              r.handover <= |r.received| && r.body.received == Unread(r.received[..r.handover]) + r.received[r.handover..]
  {
    hide HeaderStep, SealedHeader, HonestPayload;
    HonestHeader(r.header.keys, payload, body, r.received[..r.handover]);
  }

  lemma HeaderMore(header: bytes, pos: nat, n: nat)
    requires pos + n <= |header|
    ensures header[..pos] + [] + header[pos..][..n] == header[..pos + n] + []
  {
  }

  /** The sending half of `VmessStream`: the request header, then the body. */
  class VmessWriter {
    const header: bytes
    const body: VmessAeadWriter
    var headerPos: nat
    var dead: bool
    ghost var wire: bytes

    ghost predicate Valid()
      reads this, body
    {
      && body.Valid() && headerPos <= |header|
      && wire == header[..headerPos] + body.wire
      && (headerPos < |header| ==> body.wire == [] && body.chunks == [])
    }

    constructor (header: bytes, key: Key)
      requires key.aead.Sound()
      ensures Valid() && fresh(body) && this.header == header && body.key == key && wire == [] && body.chunks == []
      ensures headerPos == 0 && !dead && !body.failed && body.state == WriteState.Idle
    {
      this.header := header;
      body := new VmessAeadWriter(key);
      headerPos, dead, wire := 0, false, [];
    }

    /** One turn of the header loop; a transport that takes nothing is not an error here. */
    method WriteHeader(pipe: Channel) returns (r: Poll<()>)
      requires Valid() && pipe.Valid() && !dead && headerPos < |header|
      modifies `headerPos, `dead, `wire, pipe`sent, pipe`pushes, pipe`last
      ensures Polled(r.Pending?, |pipe.pushes|, |old(pipe.pushes)|)
      ensures Valid() && pipe.Valid() && headerPos <= |header|
      ensures Grew(old(pipe.sent), pipe.sent) && wire == old(wire) + More(old(pipe.sent), pipe.sent)
      ensures r.Ready? <==> headerPos == |header| && !dead
      ensures (r.Failed? <==> dead) && (r.Failed? ==> headerPos == old(headerPos))
      ensures Spent(old(pipe.pushes), pipe.pushes) && (dead ==> Faulty(Used(old(pipe.pushes), pipe.pushes)))
      ensures r.Pending? ==> headerPos < |header| && pipe.last != Failed(Transport)
      ensures r.Failed? ==> Honest(r, pipe)
    {
      hide Channel.Fair, Faulty, Used, Spent, VmessAeadWriter.Valid, Grew, More;
      SpentOne(pipe.pushes);
      GrewNothing(pipe.sent);
      var got := pipe.PollWrite(header[headerPos..]);
      match got
      case Failed(e) =>
        dead := true;
        r := Failed(e);
      case Pending =>
        r := Pending;
      case Ready(n) =>
        HeaderMore(header, headerPos, n);
        GrewBy(old(pipe.sent), header[headerPos..][..n]);
        wire := wire + header[headerPos..][..n];
        headerPos := headerPos + n;
        r := if headerPos < |header| then Pending else Ready(());
    }

    /** The header, and then one frame per chunk. */
    ghost function Target(): bytes
      reads this, body
    {
      header + EncodeAll(Framer(body.key), 0, body.chunks)
    }

    /** `poll_write_header` */
    method PollWrite(pipe: Channel, data: bytes) returns (r: Poll<nat>)
      requires Valid() && pipe.Valid()
      modifies this, body, pipe`sent, pipe`pushes, pipe`last
      ensures Polled(r.Pending?, |pipe.pushes|, |old(pipe.pushes)|)
      ensures Valid() && pipe.Valid()
      ensures Grew(old(pipe.sent), pipe.sent) && wire == old(wire) + More(old(pipe.sent), pipe.sent)
      ensures body.chunks == if !old(dead) && headerPos == |header| && old(body.state) == WriteState.Idle && data != []
                             then old(body.chunks) + [Chunk(data)] else old(body.chunks)
      ensures headerPos < |header| ==> body.state == old(body.state) && unchanged(body)
      ensures dead == (old(dead) || (r.Failed? && headerPos < |header|))
      ensures body.failed == (old(body.failed) || (r.Failed? && !dead && body.state != WriteState.Ended))
      ensures Spent(old(pipe.pushes), pipe.pushes)
      ensures !old(body.failed) && body.state != WriteState.Ended ==> wire <= Target()
      ensures r.Ready? && body.state != WriteState.Ended ==> (wire == Target() <==> !body.failed)
      ensures !Faulty(Used(old(pipe.pushes), pipe.pushes)) ==> dead == old(dead) && body.failed == old(body.failed)
      ensures !dead && headerPos == |header| ==>
                && (body.state == WriteState.Writing <==> r.Pending?)
                && (body.state == WriteState.Ended <==>
                      old(body.state) == WriteState.Ended || (old(body.state) == WriteState.Idle && data == []))
      ensures r.Pending? ==> headerPos < |header| || pipe.last == Pending
      ensures old(dead) ==> r == Failed(UnexpectedEof)
      ensures r.Failed? && !old(dead) && body.state != WriteState.Ended ==> Honest(r, pipe)
      ensures r.Ready? && data != [] && body.state != WriteState.Ended ==>
                headerPos == |header| && body.chunks != [] && r.value == |body.chunks[|body.chunks| - 1]|
    {
      hide Channel.Fair, Channel.Valid, VmessWriter.Valid, VmessAeadWriter.Valid, Target, EncodeAll, Faulty, Used, Spent, Grew, More;
      hide Chunk;
      SpentNothing(pipe.pushes);
      GrewNothing(pipe.sent);
      HeaderLeft(this);
      InOrder(this);
      if dead {
        return Failed(UnexpectedEof);
      }
      if headerPos < |header| {
        var h := WriteHeader(pipe);
        InOrder(this);
        if !h.Ready? {
          return if h.Failed? then Failed(h.error) else Pending;
        }
      }
      ghost var mid, midTurns := pipe.sent, pipe.pushes;
      r := WriteBody(pipe, data);
      GrewTwice(old(pipe.sent), mid, pipe.sent);
      SpentTwice(old(pipe.pushes), midTurns, pipe.pushes);
    }

    method WriteBody(pipe: Channel, data: bytes) returns (r: Poll<nat>)
      requires Valid() && pipe.Valid() && headerPos >= |header|
      modifies `wire, body, pipe`sent, pipe`pushes, pipe`last
      ensures Polled(r.Pending?, |pipe.pushes|, |old(pipe.pushes)|)
      ensures Valid() && pipe.Valid() && headerPos == |header|
      ensures Grew(old(pipe.sent), pipe.sent) && wire == old(wire) + More(old(pipe.sent), pipe.sent)
      ensures body.chunks == if old(body.state) == WriteState.Idle && data != [] then old(body.chunks) + [Chunk(data)]
                             else old(body.chunks)
      ensures body.failed == (old(body.failed) || (r.Failed? && body.state != WriteState.Ended))
      ensures Spent(old(pipe.pushes), pipe.pushes)
      ensures body.failed == (old(body.failed) || Faulty(Used(old(pipe.pushes), pipe.pushes)))
      ensures !old(body.failed) && body.state != WriteState.Ended ==> wire <= Target()
      ensures r.Ready? && body.state != WriteState.Ended ==> (wire == Target() <==> !body.failed)
      ensures body.state == WriteState.Writing <==> r.Pending?
      ensures body.state == WriteState.Ended <==>
                old(body.state) == WriteState.Ended || (old(body.state) == WriteState.Idle && data == [])
      ensures body.state != WriteState.Ended ==> Honest(r, pipe)
      ensures body.state == WriteState.Ended ==> !r.Pending?
      ensures r.Ready? && data != [] && body.state != WriteState.Ended ==>
                body.chunks != [] && r.value == |body.chunks[|body.chunks| - 1]|
    {
      hide Channel.Fair, VmessAeadWriter.Valid, EncodeAll, Chunk, Framer, Grew, More, Faulty, Used, Spent, Polled, Honest;
      r := body.PollWrite(pipe, data);
      wire := wire + More(old(pipe.sent), pipe.sent);
      assert header[..headerPos] == header;
      SameTail(header, body.wire, EncodeAll(Framer(body.key), 0, body.chunks));
    }
  }

  lemma HeaderLeft(w: VmessWriter)
    requires w.Valid()
    ensures w.headerPos <= |w.header|
  {
  }

  lemma InOrder(w: VmessWriter)
    requires w.Valid()
    ensures !w.body.failed ==> w.wire <= w.Target()
  {
    if !w.body.failed {
      SendPath(w);
    }
  }

  /** The send path: until a transport error, the wire is a prefix of the header and then one frame per chunk. */
  lemma SendPath(w: VmessWriter)
    requires w.Valid() && !w.body.failed
    ensures w.wire <= w.header + EncodeAll(Framer(w.body.key), 0, w.body.chunks)
    ensures |w.wire| < |w.header| ==> w.body.wire == []
    ensures AllValid(w.body.chunks, FitsChunk)
  {
    var stream := EncodeAll(Framer(w.body.key), 0, w.body.chunks);
    assert AllValid(w.body.chunks, FitsChunk);
    hide Accounted, EncodeAll, AllValid;
    AccountedPrefix(Chunks(w.body.key), [], w.body.Now());
    assert [] + stream == stream;
    if w.headerPos == |w.header| {
      assert w.header[..w.headerPos] == w.header;
    } else {
      assert w.wire == w.header[..w.headerPos];
    }
  }
}
