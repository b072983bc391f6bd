/** The VMess body stream: chunks with a plain two-byte length, each sealed under a counting nonce. */
module VmessBody {
  import opened Bytes
  import opened Framing
  import opened Pipe
  import opened Aead
  import opened ChunkReader
  import opened ChunkWriter
  import opened Offers

  const MAX_SIZE := 17 * 1024
  const CHUNK_SIZE := 0x4000
  const HEAD := 2

  type Iv = s: bytes | |s| == 16 witness seq(16, _ => 0)

  /** The key of one direction. */
  datatype Key = Key(aead: Aead, iv: Iv)

  /** The nonce of chunk `n`: a 16-bit counter, which wraps, and ten bytes of the initialisation vector. */
  function ChunkNonce(iv: Iv, n: nat): (r: bytes)
    ensures |r| == NONCE_LEN
  {
    BigEndian16(n) + iv[2..12]
  }

  /** Chunks of one direction share a nonce exactly when they are a multiple of 2^16 apart. */
  lemma ChunkNoncesRepeat(iv: Iv, i: nat, j: nat)
    ensures ChunkNonce(iv, i) == ChunkNonce(iv, j) <==> i % 0x1_0000 == j % 0x1_0000
  {
    BigEndian16RoundTrip(i, iv[2..12]);
    BigEndian16RoundTrip(j, iv[2..12]);
    if i % 0x1_0000 == j % 0x1_0000 {
      BigEndian16OfRead(ChunkNonce(iv, i));
      BigEndian16OfRead(ChunkNonce(iv, j));
      assert ChunkNonce(iv, i)[..2] == BigEndian16(i) && ChunkNonce(iv, j)[..2] == BigEndian16(j);
    }
  }

  /** The bytes of the nonce: the counter, high byte first, and ten bytes of the initialisation vector from its third on. */
  lemma ChunkNonceBytes(iv: Iv, n: nat)
    ensures ChunkNonce(iv, n) ==
              [n / 256 % 256, n % 256, iv[2], iv[3], iv[4], iv[5], iv[6], iv[7], iv[8], iv[9], iv[10], iv[11]]
  {
    assert iv[2..12] == [iv[2], iv[3], iv[4], iv[5], iv[6], iv[7], iv[8], iv[9], iv[10], iv[11]];
  }

  predicate FitsChunk(data: bytes) { 0 < |data| <= CHUNK_SIZE - TAG_LEN }

  function Frame(k: Key, n: nat, data: bytes): bytes {
    BigEndian16(|data| + TAG_LEN) + k.aead.seal(ChunkNonce(k.iv, n), data)
  }

  function Framer(k: Key): (nat, bytes) -> bytes { (n, data) => Frame(k, n, data) }

  function Chunks(k: Key): Coding { Coding(Framer(k), FitsChunk) }

  function BodyLen(head: bytes): (r: Step<nat>)
    ensures !r.NeedMore?
  {
    if |head| != HEAD then Broken(Panic)
    else if FromBigEndian16(head) > MAX_SIZE then Broken(LengthTooLarge)
    else Item(FromBigEndian16(head), HEAD)
  }

  /** A body shorter than its tag makes the original's slice arithmetic abort. */
  function OpenChunk(k: Key, n: nat, body: bytes): (r: Step<bytes>)
    ensures !r.NeedMore?
  {
    if |body| < TAG_LEN then Broken(Panic) else
    match k.aead.open(ChunkNonce(k.iv, n), body)
    case None => Broken(InvalidTag)
    case Some(data) => Item(data, |body|)
  }

  function Layout(k: Key): Format {
    Format(HEAD, (_, head) => BodyLen(head), (n, body) => OpenChunk(k, n, body))
  }

  lemma LayoutGood(k: Key)
    requires k.aead.Sound()
    ensures Layout(k).Good() && Stable(Frames(Layout(k)))
  {
    FramesStable(Layout(k));
  }

  /** A chunk on the wire: the length of the sealed text, in the clear and high byte first, and the text. */
  lemma FrameBytes(k: Key, n: nat, data: bytes)
    requires k.aead.Sound() && |data| <= 16368
    ensures Frame(k, n, data) == [(|data| + 16) / 256, (|data| + 16) % 256] + k.aead.seal(ChunkNonce(k.iv, n), data)
    ensures |Frame(k, n, data)| == 2 + |data| + 16
    ensures FitsChunk(data) <==> data != []
  {
    assert BigEndian16(|data| + 16) == [(|data| + 16) / 256, (|data| + 16) % 256];
  }

  /** What is made of a length and of a body, in plain numbers. */
  lemma LengthAcceptedIff(k: Key, n: nat, high: byte, low: byte, body: bytes)
    ensures var len := high as int * 256 + low as int;
            BodyLen([high, low]) == if len <= 17408 then Item(len, 2) else Broken(LengthTooLarge)
    ensures OpenChunk(k, n, body) ==
              if |body| < 16 then Broken(Panic) else
              match k.aead.open(ChunkNonce(k.iv, n), body) case None => Broken(InvalidTag) case Some(data) => Item(data, |body|)
  {
  }

  /** Every frame the writer makes passes the reader's size check and opens to its chunk. */
  lemma NextFrameOfFrame(k: Key, n: nat, data: bytes, x: bytes)
    requires k.aead.Sound() && FitsChunk(data)
    ensures |data| + TAG_LEN <= CHUNK_SIZE <= MAX_SIZE
    ensures NextFrame(Layout(k), n, Frame(k, n, data) + x) == Item(data, |Frame(k, n, data)|)
  {
    var head, body := BigEndian16(|data| + TAG_LEN), k.aead.seal(ChunkNonce(k.iv, n), data);
    var w := head + body + x;
    assert w[..HEAD] == head;
    BigEndian16RoundTrip(|data| + TAG_LEN, []);
    assert head + [] == head;
    assert w[HEAD..HEAD + |data| + TAG_LEN] == body;
  }

  lemma FramesInverse(k: Key)
    requires k.aead.Sound()
    ensures Inverse(Frames(Layout(k)), Framer(k), FitsChunk)
  {
    forall n: nat, data: bytes, x: bytes | FitsChunk(data)
      ensures Frames(Layout(k))(n, Framer(k)(n, data) + x) == Item(data, |Framer(k)(n, data)|)
    {
      NextFrameOfFrame(k, n, data, x);
    }
  }

  /** The most a frame carries of what the caller offers. */
  function Chunk(data: bytes): bytes {
    Capped(CHUNK_SIZE - TAG_LEN, data)
  }

  /** A chunk takes up to 16368 bytes of what is offered, and takes them from the front. */
  lemma ChunkIs(data: bytes)
    ensures if |data| <= 16368 then Chunk(data) == data else Chunk(data) == data[..16368]
  {
    if |data| == 16368 {
      assert data[..16368] == data;
    }
  }

  datatype WriteState = Idle | Writing | Ended

  /** `VmessAeadWriter` */
  class VmessAeadWriter {
    const key: Key
    var buffer: bytes
    var pos: nat
    var count: u16
    var dataLen: nat
    var state: WriteState
    ghost var wire: bytes
    ghost var chunks: seq<bytes>
    ghost var failed: bool

    ghost function Now(): Outbox
      reads this
    {
      Outbox(state == Writing, buffer, pos, wire, chunks)
    }

    ghost predicate Valid()
      reads this
    {
      && key.aead.Sound() && count == |chunks| % 0x1_0000
      && (state == Writing ==> pos <= |buffer| && chunks != [] && dataLen == |chunks[|chunks| - 1]|)
      && (state != Writing ==> buffer == [])
      && Books(Chunks(key), [], Now(), failed)
    }

    constructor (key: Key)
      requires key.aead.Sound()
      ensures Valid() && this.key == key && wire == [] && chunks == [] && state == Idle && !failed
    {
      this.key := key;
      buffer, pos, count, dataLen, state := [], 0, 0, 0, Idle;
      wire, chunks, failed := [], [], false;
    }

    /** `encrypted_buffer`; the counter wraps, as it does in a build without overflow checks. */
    method EncryptedBuffer(data: bytes)
      requires Valid() && state == Idle && FitsChunk(data)
      modifies `buffer, `pos, `dataLen, `state, `chunks, `count
      ensures Valid() && state == Writing && chunks == old(chunks) + [data]
    {
      hide Books, Frame, ChunkNonce, FitsChunk, BigEndian16;
      ghost var o := Now();
      NextCount(|chunks|);
      var sealed := BigEndian16(|data| + TAG_LEN) + key.aead.seal(ChunkNonce(key.iv, count), data);
      FrameByCounter(key, |chunks|, data);
      BooksFrame(Chunks(key), [], o, failed, data);
      dataLen := |data|;
      buffer := buffer + sealed;
      count := (count + 1) % 0x1_0000;
      pos, state := 0, Writing;
      chunks := chunks + [data];
      assert Now() == o.(writing := true, buf := o.buf + sealed, pos := 0, chunks := o.chunks + [data]);
    }

    /** `write_data`, with the bytes it moves accounted for. */
    method Flush(pipe: Channel) returns (r: Poll<()>)
      requires Valid() && pipe.Valid() && state == Writing
      modifies `pos, `wire, pipe`sent, pipe`pushes, pipe`last
      ensures Spent(old(pipe.pushes), pipe.pushes) && (r.Failed? <==> Faulty(Used(old(pipe.pushes), pipe.pushes)))
      ensures Polled(r.Pending?, |pipe.pushes|, |old(pipe.pushes)|)
      ensures Valid() && pipe.Valid() && Honest(r, pipe)
      ensures Grew(old(pipe.sent), pipe.sent) && wire == old(wire) + More(old(pipe.sent), pipe.sent)
      ensures !failed ==> wire <= EncodeAll(Framer(key), 0, chunks)
      ensures !r.Pending? ==> Books(Chunks(key), [], Now().(writing := false, buf := []), failed || r.Failed?)
      ensures r.Ready? ==> (wire == EncodeAll(Framer(key), 0, chunks) <==> !failed)
    {
      hide Books, EncodeAll;
      hide Faulty, Used, Spent, Pushing;
      PushingFails(pipe.pushes, |buffer| - pos);
      ghost var o := Now();
      r, pos := WriteRest(pipe, buffer, pos);
      assert pipe.sent[|old(pipe.sent)|..] == buffer[o.pos..pos];
      wire := wire + pipe.sent[|old(pipe.sent)|..];
      assert [] + EncodeAll(Framer(key), 0, chunks) == EncodeAll(Framer(key), 0, chunks);
      BooksWrite(Chunks(key), [], o, failed, pos);
      if r.Ready? {
        BooksWire(Chunks(key), [], Now().(writing := false, buf := []), failed);
      }
    }

    /** One poll with a chunk under way. */
    method Push(pipe: Channel) returns (r: Poll<nat>)
      requires Valid() && pipe.Valid() && state == Writing
      modifies `pos, `wire, `buffer, `state, `failed, pipe`sent, pipe`pushes, pipe`last
      ensures Spent(old(pipe.pushes), pipe.pushes) && (r.Failed? <==> Faulty(Used(old(pipe.pushes), pipe.pushes)))
      ensures Polled(r.Pending?, |pipe.pushes|, |old(pipe.pushes)|)
      ensures Valid() && pipe.Valid() && Honest(r, pipe)
      ensures Grew(old(pipe.sent), pipe.sent) && wire == old(wire) + More(old(pipe.sent), pipe.sent)
      ensures state == if r.Pending? then Writing else Idle
      ensures r.Ready? ==> chunks != [] && r.value == |chunks[|chunks| - 1]|
      ensures failed == (old(failed) || r.Failed?)
      ensures !old(failed) ==> wire <= EncodeAll(Framer(key), 0, chunks)
      ensures r.Ready? ==> (wire == EncodeAll(Framer(key), 0, chunks) <==> !failed)
    {
      hide Books, EncodeAll, Faulty, Used, Spent, Grew, More, Polled;
      var rest := Flush(pipe);
      if rest.Pending? {
        return Pending;
      }
      buffer, state := [], Idle;
      if rest.Failed? {
        failed := true;
        return Failed(rest.error);
      }
      r := Ready(dataLen);
    }

    /**
     `poll_write_encrypted`. An empty write ends the generator for good; otherwise a chunk is framed on the first poll and
     pushed until the transport has all of it.
     */
    method PollWrite(pipe: Channel, data: bytes) returns (r: Poll<nat>)
      requires Valid() && pipe.Valid()
      modifies this, pipe`sent, pipe`pushes, pipe`last
      ensures Spent(old(pipe.pushes), pipe.pushes) && failed == (old(failed) || Faulty(Used(old(pipe.pushes), pipe.pushes)))
      ensures Polled(r.Pending?, |pipe.pushes|, |old(pipe.pushes)|)
      ensures Valid() && pipe.Valid() && (state != Ended ==> Honest(r, pipe))
      ensures Grew(old(pipe.sent), pipe.sent) && wire == old(wire) + More(old(pipe.sent), pipe.sent)
      ensures chunks == if old(state) == Idle && data != [] then old(chunks) + [Chunk(data)] else old(chunks)
      ensures state == Writing <==> r.Pending?
      ensures state == Ended <==> old(state) == Ended || (old(state) == Idle && data == [])
      ensures state == Ended ==> wire == old(wire)
      ensures old(state) == Ended ==> r == Failed(UnexpectedEof)
      ensures old(state) == Idle && data == [] ==> r == Ready(0)
      ensures r.Ready? && state != Ended ==> chunks != [] && r.value == |chunks[|chunks| - 1]|
      ensures failed == (old(failed) || (r.Failed? && state != Ended))
      ensures !old(failed) && state != Ended ==> wire <= EncodeAll(Framer(key), 0, chunks)
      ensures r.Ready? && state != Ended ==> (wire == EncodeAll(Framer(key), 0, chunks) <==> !failed)
    {
      hide Channel.Fair, Books, EncodeAll, Faulty, Used, Spent, Grew, More, Chunk, FitsChunk, Honest;
      SpentNothing(pipe.pushes);
      ChunkFits(data);
      GrewNothing(pipe.sent);
      if state == Ended {
        return Failed(UnexpectedEof);
      }
      if state == Idle {
        if data == [] {
          state := Ended;
          return Ready(0);
        }
        EncryptedBuffer(Chunk(data));
      }
      r := Push(pipe);
    }
  }

  /** The 16-bit counter gives the nonce of its chunk. */
  lemma CounterNonce(iv: Iv, n: nat)
    ensures ChunkNonce(iv, n % 0x1_0000) == ChunkNonce(iv, n)
  {
    ChunkNoncesRepeat(iv, n % 0x1_0000, n);
  }

  lemma NextCount(n: nat)
    ensures (n % 0x1_0000 + 1) % 0x1_0000 == (n + 1) % 0x1_0000
  {
  }

  lemma ChunkFits(data: bytes)
    ensures data != [] ==> FitsChunk(Chunk(data))
  {
  }

  lemma FrameByCounter(k: Key, n: nat, data: bytes)
    ensures BigEndian16(|data| + TAG_LEN) + k.aead.seal(ChunkNonce(k.iv, n % 0x1_0000), data) == Chunks(k).enc(n, data)
  {
    CounterNonce(k.iv, n);
  }

  lemma OpenByCounter(k: Key, n: nat, body: bytes)
    ensures OpenChunk(k, n % 0x1_0000, body) == OpenChunk(k, n, body)
    ensures Layout(k).open(n, body) == OpenChunk(k, n, body)
  {
    CounterNonce(k.iv, n);
  }

  /** `VmessAeadReader` */
  class VmessAeadReader {
    const key: Key
    var buffer: bytes
    var state: ReadState
    var dataLength: nat
    var count: u16
    var readZero: bool
    ghost var received: bytes
    ghost var delivered: bytes
    ghost var frames: seq<bytes>
    ghost var head: bytes

    ghost function Now(): View
      reads this
    {
      View(state, buffer, dataLength, received, delivered, frames, head)
    }

    ghost predicate Valid()
      reads this
    {
      && key.aead.Sound() && Consistent(Layout(key), Now())
      && (state != Finished ==> count == |frames| % 0x1_0000)
    }

    constructor (key: Key)
      requires key.aead.Sound()
      ensures Valid() && this.key == key && received == [] && delivered == [] && state == AwaitLength && buffer == []
    {
      this.key := key;
      buffer, state, dataLength, count, readZero := [], AwaitLength, 0, 0, false;
      received, delivered, frames, head := [], [], [], [];
      new;
      LayoutGood(key);
      ConsistentFresh(Layout(key));
    }

    /** The header reader hands over whatever it read past the header: those bytes count as received here. */
    method ReplaceBuffer(stolen: bytes)
      requires Valid() && state == AwaitLength && received == [] && buffer == []
      modifies `buffer, `received
      ensures Valid() && buffer == stolen && received == stolen
    {
      ghost var v := Now();
      buffer := stolen;
      received := stolen;
      assert Now() == v.Fill(stolen);
      ConsistentFill(Layout(key), v, stolen);
    }

    /** `co_await(self.read_at_least(..))` and the error handling behind it. */
    method Fill(pipe: Channel) returns (r: Poll<()>)
      requires Valid() && pipe.Valid() && Now().Waiting()
      modifies `buffer, `readZero, `received, `state, pipe`taken, pipe`turns, pipe`last
      ensures Polled(r.Pending?, |pipe.turns|, |old(pipe.turns)|)
      ensures Valid() && pipe.Valid() && Took(pipe, old(pipe.taken), |old(pipe.turns)|, old(received))
      ensures !r.Failed? ==> state == old(state)
      ensures r.Ready? <==> Now().Waiting() && |buffer| >= Now().Wanted(HEAD)
      ensures r.Pending? ==> pipe.last == Pending
      ensures r.Failed? ==> state == Finished && (readZero || (r.error == Transport && pipe.last == r))
      ensures !r.Ready? ==> Settled(Layout(key), Now())
      ensures r.Failed? && readZero ==> pipe.closed && pipe.taken == |pipe.sent|
      ensures |pipe.turns| == |old(pipe.turns)| ==> buffer == old(buffer)
    {
      hide Channel.Fair, Consistent;
      ghost var v := Now();
      var length := if state == AwaitLength then HEAD else dataLength;
      r, buffer, readZero := Pipe.ReadAtLeast(pipe, buffer, length);
      ghost var more := pipe.sent[old(pipe.taken)..pipe.taken];
      received := received + more;
      assert Now() == v.Fill(more);
      ConsistentFill(Layout(key), v, more);
      if !r.Ready? {
        ConsistentShort(Layout(key), v.Fill(more));
      }
      if r.Failed? {
        state := Finished;
        assert Now() == v.Fill(more).Stop();
      }
    }

    /** State `AwaitLength` with a whole length in the buffer. */
    method ReadLength() returns (fault: Option<Fault>)
      requires Valid() && state == AwaitLength && |buffer| >= HEAD
      modifies `buffer, `dataLength, `state, `head
      ensures Valid() && (fault == None ==> state == AwaitBody && |buffer| < |old(buffer)|)
      ensures fault.Some? ==> state == Finished && Settled(Layout(key), Now())
      ensures fault.Some? ==> Decode(Frames(Layout(key)), 0, received).fault == fault
    {
      hide Consistent, Settled, Decode;
      ghost var v := Now();
      head := buffer[..HEAD];
      ConsistentLength(Layout(key), v, BodyLen(head));
      dataLength := FromBigEndian16(buffer);
      assert FromBigEndian16(buffer) == FromBigEndian16(head);
      buffer := buffer[HEAD..];
      if dataLength > MAX_SIZE {
        state := Finished;
        ConsistentScraps(Layout(key), v.Stop(), buffer, dataLength, head);
        return Some(LengthTooLarge);
      }
      state := AwaitBody;
      fault := None;
    }

    /** State `AwaitBody` with a whole body: it is opened in place, its tag staying behind it in the buffer. */
    method OpenBody() returns (fault: Option<Fault>)
      requires Valid() && state == AwaitBody && |buffer| >= dataLength
      modifies `buffer, `dataLength, `state, `frames, `count
      ensures Valid() && (fault == None ==> state == Putting && |buffer| == |old(buffer)|)
      ensures fault.Some? ==> state == Finished && Settled(Layout(key), Now())
      ensures fault.Some? ==> Decode(Frames(Layout(key)), 0, received).fault == fault
    {
      hide Consistent, Settled, Decode, OpenChunk;
      ghost var v := Now();
      OpenByCounter(key, |frames|, buffer[..dataLength]);
      var plain := OpenChunk(key, count, buffer[..dataLength]);
      ConsistentBody(Layout(key), v, plain);
      if plain.Broken? {
        state := Finished;
        assert Now() == v.Stop();
        return Some(plain.why);
      }
      count := (count + 1) % 0x1_0000;
      frames := frames + [plain.value];
      dataLength := dataLength - TAG_LEN;
      buffer := plain.value + buffer[dataLength..];
      state := Putting;
      assert Now() == v.Open(plain.value);
      fault := None;
    }

    /**
     State `Putting`: one turn of the loop that hands plaintext to the caller. Without room in the middle of a frame the loop
     ends as if the frame were done, and the reader is out of step with the stream.
     */
    method Put(room: nat) returns (put: bytes)
      requires Valid() && state == Putting
      modifies `buffer, `dataLength, `state, `delivered
      ensures Valid() <==> room > 0 || old(dataLength) == 0
      ensures |put| == Least(old(dataLength), room) && delivered == old(delivered) + put
      ensures dataLength == old(dataLength) - |put|
      ensures put == [] ==> state == AwaitLength && |buffer| < |old(buffer)|
      ensures put != [] ==> state == Putting
    {
      hide Consistent;
      ghost var v := Now();
      var minimal := if dataLength < room then dataLength else room;
      ConsistentPut(Layout(key), v, minimal);
      if minimal == 0 {
        ZeroRoomSafeIff(Layout(key), v);
        buffer := buffer[TAG_LEN..];
        state := AwaitLength;
        return [];
      }
      put := buffer[..minimal];
      delivered := delivered + put;
      dataLength := dataLength - minimal;
      buffer := buffer[minimal..];
    }

    /** What a call took from the transport: a stretch of its unread bytes, and nothing unless a turn was spent. */
    ghost predicate Took(pipe: Channel, taken: nat, turns: nat, before: bytes)
      reads this, pipe
    {
      && taken <= pipe.taken <= |pipe.sent| && |pipe.turns| <= turns
      && (|pipe.turns| == turns ==> pipe.taken == taken)
      && received == before + pipe.sent[taken..pipe.taken]
    }

    /** What the result of a call that hands over nothing tells the caller. */
    ghost predicate Explained(r: Poll<()>, pipe: Channel)
      reads this, pipe
    {
      && Settled(Layout(key), Now())
      && (r.Ready? ==> readZero && pipe.closed && pipe.taken == |pipe.sent|)
      && (r.Pending? ==> pipe.last == Pending)
      && (r.Failed? ==> r.error.Protocol? || (r.error.Transport? && pipe.last == r))
      && (r.Failed? && r.error.Protocol? ==> Decode(Frames(Layout(key)), 0, received).fault == Some(r.error.why))
    }

    /** One turn of the generator's outer loop. */
    method Step(pipe: Channel, room: nat) returns (r: Option<Poll<()>>, put: bytes)
      requires Valid() && pipe.Valid() && room > 0 && state != Finished
      modifies this, pipe`taken, pipe`turns, pipe`last
      ensures Polled(r == Some(Poll.Pending), |pipe.turns|, |old(pipe.turns)|)
      ensures Valid() && pipe.Valid() && Took(pipe, old(pipe.taken), |old(pipe.turns)|, old(received))
      ensures delivered == old(delivered) + put && |put| <= room
      ensures put != [] ==> r == Some(Ready(())) && (|put| == room || (state == Putting && dataLength == 0))
      ensures r.Some? && put == [] ==> Explained(r.value, pipe)
      ensures r.Some? ==> (state == Finished <==> !r.value.Pending? && put == [])
      ensures r == None ==> state != Finished
      ensures r == None && |pipe.turns| == |old(pipe.turns)| ==>
                || |buffer| < |old(buffer)|
                || (|buffer| == |old(buffer)| && old(state) != Putting && state == Putting)
    {
      hide Channel.Fair, Consistent, Settled;
      put := [];
      if state == Putting {
        put := Put(room);
        return if put == [] then None else Some(Ready(())), put;
      }
      var filled := Fill(pipe);
      if !filled.Ready? {
        // end of file is reported to the caller as a successful read of nothing
        return Some(if readZero && filled.Failed? then Ready(()) else filled), [];
      }
      var fault;
      if state == AwaitLength {
        fault := ReadLength();
      } else {
        fault := OpenBody();
      }
      r := if fault.Some? then Some(Failed(Protocol(fault.value))) else None;
    }

    /** `poll_read_decrypted`; see the Shadowsocks reader, which has the same contract. */
    method PollRead(pipe: Channel, room: nat) returns (r: Poll<()>, put: bytes)
      requires Valid() && pipe.Valid() && room > 0
      modifies this, pipe`taken, pipe`turns, pipe`last
      ensures Polled(r.Pending?, |pipe.turns|, |old(pipe.turns)|)
      ensures Valid() && pipe.Valid() && Took(pipe, old(pipe.taken), |old(pipe.turns)|, old(received))
      ensures delivered == old(delivered) + put && |put| <= room
      ensures put != [] ==> r == Ready(()) && (|put| == room || (state == Putting && dataLength == 0))
      ensures put == [] && old(state) != Finished ==> Explained(r, pipe)
      ensures old(state) != Finished ==> (state == Finished <==> !r.Pending? && put == [])
      ensures old(state) == Finished ==> r == Failed(UnexpectedEof) && put == [] && state == Finished
    {
      hide Channel.Fair, Consistent, Settled;
      put := [];
      if state == Finished {
        return Failed(UnexpectedEof), [];
      }
      var outcome: Option<Poll<()>> := None;
      while outcome == None
        invariant Valid() && pipe.Valid() && Took(pipe, old(pipe.taken), |old(pipe.turns)|, old(received))
        invariant delivered == old(delivered) + put && |put| <= room
        invariant put != [] ==> outcome == Some(Ready(())) && (|put| == room || (state == Putting && dataLength == 0))
        invariant Polled(outcome == Some(Poll.Pending), |pipe.turns|, |old(pipe.turns)|)
        invariant outcome == None ==> state != Finished
        invariant outcome.Some? && put == [] ==> Explained(outcome.value, pipe)
        invariant outcome.Some? ==> (state == Finished <==> !outcome.value.Pending? && put == [])
        decreases outcome == None, |pipe.turns|, |buffer|, state != Putting
      {
        outcome, put := Step(pipe, room);
      }
      r := outcome.value;
    }
  }
}
