/**
 VMess over one channel, driven by an arbitrary schedule of polls: a sender that puts a header and then its body on the
 wire, and a client that reads the response of a peer framing as that sender does.
 */
module VmessSession {
  import opened Bytes
  import opened Framing
  import opened Pipe
  import opened Aead
  import opened ChunkReader
  import opened ChunkWriter
  import opened Offers
  import opened VmessBody
  import opened VmessStream

  /** One poll: the sender offers up to `n` bytes, or the receiver has `room` for more; or the sender closes. */
  datatype Action = Send(n: nat) | Receive(room: nat) | Close

  const LIMIT := CHUNK_SIZE - TAG_LEN

  /** A sender and its application, which stops at the first failed write. */
  class Sending {
    const app: bytes
    const writer: VmessWriter
    const pipe: Channel
    var accepted: nat
    var offer: bytes
    var stopped: bool

    ghost predicate Writing()
      reads writer.body
    {
      writer.body.state == WriteState.Writing
    }

    /** The chunk under way, or the header before it, waits for the transport. */
    ghost predicate Waiting()
      reads writer, writer.body
    {
      Writing() || writer.headerPos < |writer.header|
    }

    /** What a poll of the sender has done, if no write has failed: the chunk is accepted, or it waits for the transport. */
    ghost predicate Offered(accepted0: nat, writing0: bool, chunks0: seq<bytes>, pushes0: nat)
      reads `accepted, `offer, writer, writer.body, pipe`pushes
    {
      && offer != [] && accepted == accepted0 + (if Waiting() then 0 else |Capped(LIMIT, offer)|)
      && (writing0 || (Waiting() && !Writing()) ==> writer.body.chunks == chunks0) && (writing0 && Waiting() ==> Writing())
      && Polled(Waiting(), |pipe.pushes|, pushes0)
    }

    ghost predicate Valid()
      reads this, writer, writer.body, pipe`sent
    {
      && writer.Valid() && writer.body.state != WriteState.Ended
      && stopped == (writer.dead || writer.body.failed)
      && Progress(LIMIT, app, accepted, offer, writer.body.chunks, Writing(), stopped) && (Writing() ==> offer != [])
      && AllValid(writer.body.chunks, FitsChunk)
      && pipe.sent == writer.wire <= writer.Target()
      && (Writing() ==> writer.headerPos == |writer.header| && !stopped)
      && (!stopped && !Writing() && writer.headerPos == |writer.header| ==> pipe.sent == writer.Target())
    }

    constructor (app: bytes, header: bytes, key: Key, pipe: Channel)
      requires key.aead.Sound() && pipe.Valid() && pipe.sent == []
      ensures Valid() && fresh(writer) && fresh(writer.body) && this.pipe == pipe && this.app == app
      ensures writer.header == header && writer.body.key == key && accepted == 0 && !stopped
    {
      this.app, this.pipe := app, pipe;
      writer := new VmessWriter(header, key);
      accepted, offer, stopped := 0, [], false;
      new;
      assert app[..0] + [] == [] && EncodeAll(Framer(key), 0, []) == [] && header + [] == header;
    }

    /** The application offers the next bytes, or the same ones again if the last offer is still pending. */
    method Send(n: nat)
      requires Valid() && pipe.Valid()
      modifies this, writer, writer.body, pipe`sent, pipe`pushes, pipe`last
      ensures Valid() && pipe.Valid() && accepted >= old(accepted)
      ensures old(pipe.sent) <= pipe.sent && Spent(old(pipe.pushes), pipe.pushes)
      ensures !Faulty(Used(old(pipe.pushes), pipe.pushes)) ==> stopped == old(stopped)
      ensures !stopped && old(accepted) < |app| ==>
                Offered(old(accepted), old(Writing()), old(writer.body.chunks), |old(pipe.pushes)|)
    {
      hide Offered, Channel.Fair, Books, EncodeAll, Flatten, AllValid, Capped, Progress, Faulty, Used, Spent;
      SpentNothing(pipe.pushes);
      if stopped {
        return;
      }
      if writer.body.state != WriteState.Writing {
        ProgressOffer(LIMIT, app, accepted, offer, writer.body.chunks, []);
        var left := |app| - accepted;
        var k := if n == 0 then 1 else n;
        offer := if k < left then app[accepted..accepted + k] else app[accepted..];
        ProgressOffer(LIMIT, app, accepted, [], writer.body.chunks, offer);
        if |offer| == 0 {
          return;
        }
      }
      ProgressIs(LIMIT, app, accepted, offer, writer.body.chunks, writer.body.state == WriteState.Writing, false);
      Offer();
    }

    /** One poll of the writer with the current offer. */
    method Offer()
      requires Valid() && pipe.Valid() && !stopped && accepted <= |app| && offer != [] && offer <= app[accepted..]
      modifies `accepted, `stopped, writer, writer.body, pipe`sent, pipe`pushes, pipe`last
      ensures Valid() && pipe.Valid() && accepted >= old(accepted)
      ensures old(pipe.sent) <= pipe.sent && Spent(old(pipe.pushes), pipe.pushes)
      ensures !Faulty(Used(old(pipe.pushes), pipe.pushes)) ==> !stopped
      ensures !stopped ==> Offered(old(accepted), old(Writing()), old(writer.body.chunks), |old(pipe.pushes)|)
    {
      hide Channel.Fair, Books, EncodeAll, Progress, Flatten, AllValid, Capped, Faulty, Used, Spent, Honest, Polled;
      hide VmessAeadWriter.Valid, VmessWriter.Target;
      ghost var chunks, writing := writer.body.chunks, Writing();
      ProgressPoll(LIMIT, app, accepted, offer, chunks, writing);
      CappedOffer(LIMIT, app, accepted, offer);
      AllValidSnoc(chunks, FitsChunk, Chunk(offer));
      var r := writer.PollWrite(pipe, offer);
      assert pipe.sent == old(pipe.sent) + pipe.sent[|old(pipe.sent)|..];
      if r.Ready? {
        accepted := accepted + r.value;
      }
      stopped := r.Failed?;
    }
  }

  /**
   The send path of every run: the wire is a prefix of the header and one frame per chunk, the chunks carry a prefix of what the
   application wrote, and between writes both are whole.
   */
  lemma SentInOrder(s: Sending)
    requires s.Valid()
    ensures s.pipe.sent <= s.writer.Target() && Flatten(s.writer.body.chunks) <= s.app && s.accepted <= |s.app|
    ensures !s.stopped && !s.Writing() ==> Flatten(s.writer.body.chunks) == s.app[..s.accepted]
    ensures !s.stopped && !s.Writing() && s.writer.headerPos == |s.writer.header| ==> s.pipe.sent == s.writer.Target()
  {
    ProgressIs(LIMIT, s.app, s.accepted, s.offer, s.writer.body.chunks, s.Writing(), s.stopped);
  }

  /** Once the sender is past its header, what it has sent does not look like a truncated response. */
  lemma HeaderOut(s: Sending, k: HeaderKeys, payload: bytes)
    requires s.Valid() && k.Sound() && HonestPayload(k, payload) && s.writer.header == SealedHeader(k, payload)
    ensures s.writer.headerPos == |s.writer.header| ==> HeaderStep(k, s.pipe.sent) != NeedMore
  {
    hide HonestPayload, SealedHeader, HeaderStep, EncodeAll, Books, Progress, AllValid;
    if s.writer.headerPos == |s.writer.header| {
      HeaderWhole(k, payload, EncodeAll(Framer(s.writer.body.key), 0, s.writer.body.chunks), s.pipe.sent);
    }
  }

  /** A sender whose header is an honest response header, and the client that reads what it sends. */
  class Session {
    const sending: Sending
    const reader: VmessReader
    const pipe: Channel
    /** The payload of the response header. */
    ghost const payload: bytes
    var got: bytes
    /** The client's last poll found nothing more to deliver. */
    var idle: bool
    /** How that poll ended. */
    ghost var heard: Poll<()>

    /** Both ends are about the same response. */
    ghost predicate Linked() {
      && sending.pipe == pipe && sending.writer.body.key == reader.body.key
      && sending.writer.header == SealedHeader(reader.header.keys, payload)
      && reader.header.keys.Sound() && HonestPayload(reader.header.keys, payload)
    }

    /** What the client has taken from the channel. */
    ghost predicate Taken()
      reads reader`received, pipe`sent, pipe`taken, pipe`turns, pipe`pushes, pipe`last, pipe`mark
    {
      pipe.Valid() && reader.received == pipe.sent[..pipe.taken]
    }

    /** What the client has delivered. */
    ghost predicate Client()
      reads `got, `idle, reader, reader.header, reader.body
    {
      && reader.Valid() && !reader.truncated && got == reader.body.delivered
      && (idle ==> reader.streaming && Settled(Layout(reader.body.key), reader.body.Now()))
    }

    ghost predicate Valid()
      reads this, sending, sending.writer, sending.writer.body, reader, reader.header, reader.body, pipe
    {
      && Linked() && sending.Valid() && Taken() && Client()
      && (pipe.closed ==> sending.writer.headerPos == |sending.writer.header| && !sending.Writing())
    }

    constructor (app: bytes, keys: HeaderKeys, payload: bytes, key: Key, pipe: Channel)
      requires keys.Sound() && key.aead.Sound() && HonestPayload(keys, payload)
      requires pipe.Valid() && pipe.sent == [] && !pipe.closed
      ensures Valid() && this.pipe == pipe && sending.app == app && got == [] && sending.accepted == 0 && !sending.stopped
      ensures fresh(sending) && fresh(sending.writer) && fresh(sending.writer.body)
      ensures fresh(reader) && fresh(reader.header) && fresh(reader.body)
    {
      sending := new Sending(app, SealedHeader(keys, payload), key, pipe);
      reader := new VmessReader(keys, key);
      this.pipe, this.payload, got, idle, heard := pipe, payload, [], false, Ready(());
      new;
      hide Valid, Channel.Fair, Channel.Valid, Sending.Valid, Sending.Writing, VmessReader.Valid, SealedHeader, HonestPayload;
      ValidAtFirst(this);
    }

    method Send(n: nat)
      requires Valid()
      modifies sending, sending.writer, sending.writer.body, pipe`sent, pipe`pushes, pipe`last
      ensures Valid() && got == old(got) && Spent(old(pipe.pushes), pipe.pushes)
      ensures !Faulty(Used(old(pipe.pushes), pipe.pushes)) ==> sending.stopped == old(sending.stopped)
    {
      hide Channel.Valid, Linked, Client, Taken, Sending.Valid, Sending.Writing, Sending.Offered, Faulty, Used, Spent;
      OnePipe(this);
      SpentNothing(pipe.pushes);
      if !pipe.closed {
        Push(n);
      }
    }

    /** The sender's side of `Send`. */
    method Push(n: nat)
      requires sending.pipe == pipe && sending.Valid() && Taken()
      modifies sending, sending.writer, sending.writer.body, pipe`sent, pipe`pushes, pipe`last
      ensures sending.Valid() && Taken() && Spent(old(pipe.pushes), pipe.pushes)
      ensures !Faulty(Used(old(pipe.pushes), pipe.pushes)) ==> sending.stopped == old(sending.stopped)
      ensures !sending.stopped && old(sending.accepted) < |sending.app| ==>
                sending.Offered(old(sending.accepted), old(sending.Writing()), old(sending.writer.body.chunks), |old(pipe.pushes)|)
    {
      hide Channel.Fair, Sending.Valid, Sending.Writing, Sending.Offered, Faulty, Used, Spent;
      ghost var sent := pipe.sent;
      sending.Send(n);
      assert pipe.sent[..pipe.taken] == sent[..pipe.taken];
    }

    method Receive(room: nat)
      requires Valid() && room > 0
      modifies `got, `idle, `heard, reader, reader.header, reader.body, pipe`taken, pipe`turns, pipe`last
      ensures Valid() && old(pipe.taken) <= pipe.taken && old(got) <= got && |got| <= |old(got)| + room
      ensures Heard(old(reader.AtEnd()), |old(pipe.turns)|, got != old(got))
    {
      hide Channel.Fair, Linked, Taken, Client, Sending.Valid, Sending.Writing, HeaderStep, Heard;
      OnePipe(this);
      WholeWhenClosed(this);
      PollReader(room);
    }

    /** What a poll of a client that had not ended has told it; `more` says that it has handed over something. */
    ghost predicate Heard(over: bool, turns0: nat, more: bool)
      reads `idle, `heard, reader, reader.header, reader.body, pipe
    {
      !over ==>
        && (reader.AtEnd() <==> !heard.Pending? && !more) && idle == (!more && !heard.Failed? && reader.streaming)
        && (if reader.streaming then !more ==> reader.body.Explained(heard, pipe) else !more && Headed(heard))
        && Polled(heard.Pending?, |pipe.turns|, turns0)
    }

    /** How a poll may end in the header phase. */
    ghost predicate Headed(r: Poll<()>)
      reads reader, reader.header, pipe
    {
      match r
      case Pending => HeaderStep(reader.header.keys, reader.received) == NeedMore
      case Failed(e) =>
        (e == Transport && pipe.last == r) || (e.Protocol? && HeaderStep(reader.header.keys, reader.received) == Broken(e.why))
      case Ready(_) => false
    }

    /** One poll of a client that has not met a truncated response; if the header is out, it never will. */
    method PollReader(room: nat)
      requires Taken() && Client() && room > 0 && (pipe.closed ==> HeaderStep(reader.header.keys, pipe.sent) != NeedMore)
      modifies `got, `idle, `heard, reader, reader.header, reader.body, pipe`taken, pipe`turns, pipe`last
      ensures Taken() && Client() && old(pipe.taken) <= pipe.taken && old(got) <= got && |got| <= |old(got)| + room
      ensures Heard(old(reader.AtEnd()), |old(pipe.turns)|, got != old(got))
    {
      hide Channel.Fair, VmessReader.Valid, Settled, HeaderStep;
      ghost var before := pipe.taken;
      var r, put := reader.PollRead(pipe, room);
      SliceJoin(pipe.sent, 0, before, pipe.taken);
      assert pipe.taken == |pipe.sent| ==> pipe.sent[..pipe.taken] == pipe.sent;
      got := got + put;
      idle, heard := put == [] && !r.Failed? && reader.streaming, r;
    }

    /** The sender closes its side, once the header is out and no write is under way. */
    method Close()
      requires Valid()
      modifies pipe`closed
      ensures Valid()
    {
      pipe.closed := pipe.closed
        || (sending.writer.headerPos == |sending.writer.header| && sending.writer.body.state != WriteState.Writing);
    }
  
    method Step(action: Action)
      requires Valid()
      modifies this, sending, sending.writer, sending.writer.body, reader, reader.header, reader.body, pipe
      ensures Valid() && old(got) <= got && Spent(old(pipe.pushes), pipe.pushes)
      ensures !Faulty(Used(old(pipe.pushes), pipe.pushes)) ==> sending.stopped == old(sending.stopped)
    {
      hide Valid, Heard, Channel.Fair, Sending.Valid, Taken, Client, Linked, Faulty, Used, Spent;
      SpentNothing(pipe.pushes);
      match action
      case Send(n) => Send(n);
      case Receive(room) => if room > 0 { Receive(room); }
      case Close => Close();
    }

    /** Any schedule of polls. */
    method Run(actions: seq<Action>)
      requires Valid()
      modifies this, sending, sending.writer, sending.writer.body, reader, reader.header, reader.body, pipe
      ensures Valid() && old(got) <= got && Spent(old(pipe.pushes), pipe.pushes)
      ensures !Faulty(Used(old(pipe.pushes), pipe.pushes)) ==> sending.stopped == old(sending.stopped)
      ensures pipe.sent <= sending.writer.Target() && Flatten(sending.writer.body.chunks) <= sending.app
      ensures got <= sending.app && !reader.truncated
      ensures Drained() ==> sending.accepted <= |sending.app| && got == sending.app[..sending.accepted]
    {
      SpentNothing(pipe.pushes);
      hide Valid, Drained, Faulty, Used, Spent, Flatten;
      for i := 0 to |actions|
        invariant Valid() && old(got) <= got && Spent(old(pipe.pushes), pipe.pushes)
        invariant !Faulty(Used(old(pipe.pushes), pipe.pushes)) ==> sending.stopped == old(sending.stopped)
      {
        ghost var mid := pipe.pushes;
        Step(actions[i]);
        SpentTwice(old(pipe.pushes), mid, pipe.pushes);
      }
      Delivery(this);
    }

    /** The client has not ended and the sender has not closed. */
    ghost predicate Alive()
      reads reader, reader.body, pipe`closed
    {
      !reader.AtEnd() && !pipe.closed
    }

    /** One poll of the sender over a transport that is ready for some bytes. */
    method Speak(pushes: seq<Turn>)
      requires Valid() && !sending.stopped && !pipe.closed && Healthy(pushes) && sending.accepted < |sending.app|
      modifies sending, sending.writer, sending.writer.body, pipe`sent, pipe`turns, pipe`pushes, pipe`last, pipe`mark
      ensures Valid() && !sending.stopped
      ensures var s := sending;
              if s.Waiting() then s.accepted == old(sending.accepted) && |pipe.sent| > |old(pipe.sent)|
              else s.accepted > old(sending.accepted)
      ensures old(sending.Writing()) || (sending.Waiting() && !sending.Writing()) ==>
                sending.writer.body.chunks == old(sending.writer.body.chunks)
      ensures old(sending.Writing()) && sending.Waiting() ==> sending.Writing()
    {
      hide Client, Sending.Valid, Sending.Writing, Faulty, Used, Spent;
      pipe.Supply([], pushes);
      SpentNothing(pushes);
      Push(|sending.app|);
      FaultyPart(pushes, pipe.pushes);
      CappedOffer(LIMIT, sending.offer, 0, sending.offer);
    }

    /** Over a transport that is ready for some bytes whenever it is asked, the sender gets everything out. */
    method SendAll(pushes: nat -> seq<Turn>)
      requires Valid() && !sending.stopped && !pipe.closed && forall i: nat :: Healthy(pushes(i))
      modifies sending, sending.writer, sending.writer.body, pipe`sent, pipe`turns, pipe`pushes, pipe`last, pipe`mark
      ensures Valid() && !sending.stopped && sending.accepted == |sending.app|
    {
      hide Valid, Healthy, Sending.Valid, Sending.Writing, Sending.Waiting, EncodeAll;
      var i := 0;
      SentSoFar(this);
      while sending.accepted < |sending.app|
        invariant Valid() && !sending.stopped && sending.accepted <= |sending.app|
        invariant |pipe.sent| <= |sending.writer.Target()|
        decreases |sending.app| - sending.accepted, !sending.Writing(), |sending.writer.Target()| - |pipe.sent|
      {
        Speak(pushes(i));
        SentSoFar(this);
        i := i + 1;
      }
    }

    /** One poll of the client over a transport that is ready to give some bytes, if it has any. */
    method Hear(turns: seq<Turn>, room: nat)
      requires Valid() && Alive() && Healthy(turns) && room > 0
      modifies `got, `idle, `heard, reader, reader.header, reader.body
      modifies pipe`taken, pipe`turns, pipe`pushes, pipe`last, pipe`mark
      ensures Valid() && Alive() && old(pipe.taken) <= pipe.taken && old(got) <= got
      ensures got == old(got) ==> Waits() && (old(pipe.taken) < pipe.taken || pipe.taken == |pipe.sent|)
    {
      hide Client, Sending.Valid, Sending.Writing, Channel.Fair, VmessReader.Valid;
      pipe.Supply(turns, []);
      assert Valid();
      hide Valid, Taken, Heard, Faulty, Waits;
      Receive(room);
      HeardWell(this, got != old(got));
    }

    /** The client has handed over all it can make of what it has received. */
    ghost predicate Waits()
      reads `idle, reader, reader.header
    {
      if reader.streaming then idle else HeaderStep(reader.header.keys, reader.received) == NeedMore
    }

    /** Over a transport that is ready whenever it is asked, the client gets everything the sender got out. */
    method ReceiveAll(turns: nat -> seq<Turn>, room: nat)
      requires Valid() && Alive() && room > 0 && forall i: nat :: Healthy(turns(i))
      requires !sending.stopped && sending.accepted == |sending.app|
      modifies `got, `idle, `heard, reader, reader.header, reader.body
      modifies pipe`taken, pipe`turns, pipe`pushes, pipe`last, pipe`mark
      ensures Valid() && got == sending.app
    {
      hide Valid, Linked, Taken, Client, Sending.Valid, Alive, Healthy, Waits;
      AllHeard(this);
      var i := 0;
      while got != sending.app
        invariant Valid() && Alive() && got <= sending.app && pipe.taken <= |pipe.sent|
        decreases |sending.app| - |got|, |pipe.sent| - pipe.taken
      {
        Hear(turns(i), room);
        AllHeard(this);
        i := i + 1;
      }
    }

    /**
     From every state that any schedule of polls can lead to, if neither end has failed, the rest gets through: over a transport
     that is ready to move something whenever it is asked, finitely many polls deliver everything the application writes.
     */
    method Finish(pushes: nat -> seq<Turn>, turns: nat -> seq<Turn>, room: nat)
      requires Valid() && !sending.stopped && Alive() && room > 0
      requires forall i: nat :: Healthy(pushes(i)) && Healthy(turns(i))
      modifies this, sending, sending.writer, sending.writer.body, reader, reader.header, reader.body, pipe
      ensures Valid() && got == sending.app
    {
      hide Valid, Healthy;
      SendAll(pushes);
      ReceiveAll(turns, room);
    }

    /** Every byte accepted has been sent and taken, and the client has asked for more since. */
    ghost predicate Drained()
      reads this, sending, sending.writer, sending.writer.body, pipe
    {
      idle && !sending.stopped && !sending.Writing() && pipe.taken == |pipe.sent|
    }
  }

  lemma WholeWhenClosed(s: Session)
    requires s.Valid()
    ensures s.pipe.closed ==> HeaderStep(s.reader.header.keys, s.pipe.sent) != NeedMore
  {
    hide HeaderStep, SealedHeader, HonestPayload;
    HeaderOut(s.sending, s.reader.header.keys, s.payload);
  }

  lemma ValidAtFirst(s: Session)
    requires s.sending.Valid() && s.reader.Valid() && s.pipe.Valid() && s.Linked() && !s.pipe.closed && !s.idle
    requires s.pipe.taken == 0 && s.got == s.reader.received == s.reader.body.delivered == [] && !s.reader.truncated
    ensures s.Valid()
  {
  }

  lemma OnePipe(s: Session)
    requires s.Linked()
    ensures s.sending.pipe == s.pipe
  {
  }

  lemma SentSoFar(s: Session)
    requires s.Valid()
    ensures s.sending.accepted <= |s.sending.app| && |s.pipe.sent| <= |s.sending.writer.Target()|
  {
    hide EncodeAll;
    SentInOrder(s.sending);
  }

  /** The bytes received are always a prefix of the bytes written, and all the bytes accepted once the wire is drained. */
  lemma Delivery(s: Session)
    requires s.Valid()
    ensures s.pipe.sent <= s.sending.writer.Target() && Flatten(s.sending.writer.body.chunks) <= s.sending.app
    ensures s.got <= s.sending.app && !s.reader.truncated
    ensures s.Drained() ==> s.sending.accepted <= |s.sending.app| && s.got == s.sending.app[..s.sending.accepted]
  {
    hide Consistent, Settled, EncodeAll, HeaderStep, SealedHeader, HonestPayload, Progress, Books, AllValid;
    SentInOrder(s.sending);
    ReceivePath(s.reader, s.payload, s.sending.writer.body.chunks);
    if s.Drained() {
      assert s.sending.writer.headerPos == |s.sending.writer.header|;
    }
  }

  /**
   A client that is asked while the wire is open and not to fail stays alive; if it hands over nothing, it is waiting for more, and
   has taken something unless there was nothing to take.
   */
  lemma HeardWell(s: Session, more: bool)
    requires s.Valid() && !s.pipe.closed
    requires s.pipe.mark.pushes == [] && Healthy(s.pipe.mark.turns) && s.pipe.mark.sent == |s.pipe.sent|
    requires s.Heard(false, |s.pipe.mark.turns|, more)
    ensures s.Alive()
    ensures !more ==> s.Waits() && (s.pipe.mark.taken < s.pipe.taken || s.pipe.taken == |s.pipe.sent|)
  {
    hide Consistent, Settled, EncodeAll, HeaderStep, SealedHeader, HonestPayload, Progress, Books, AllValid;
    SentInOrder(s.sending);
    ReceivePath(s.reader, s.payload, s.sending.writer.body.chunks);
    HonestHeader(
      s.reader.header.keys, s.payload, EncodeAll(Framer(s.reader.body.key), 0, s.sending.writer.body.chunks), s.reader.received);
  }

  /** Once everything is out and has been taken, a client that waits for more has handed over everything. */
  lemma AllHeard(s: Session)
    requires s.Valid() && !s.sending.stopped && s.sending.accepted == |s.sending.app|
    ensures s.got <= s.sending.app && s.pipe.taken <= |s.pipe.sent|
    ensures s.Waits() && s.pipe.taken == |s.pipe.sent| ==> s.got == s.sending.app
  {
    hide Consistent, Settled, EncodeAll, HeaderStep, SealedHeader, HonestPayload, Progress, Books, AllValid;
    Delivery(s);
    HeaderOut(s.sending, s.reader.header.keys, s.payload);
    ProgressIs(LIMIT, s.sending.app, s.sending.accepted, s.sending.offer, s.sending.writer.body.chunks, s.sending.Writing(), false);
    assert !s.sending.Writing() && s.sending.app[..|s.sending.app|] == s.sending.app;
    assert s.pipe.taken == |s.pipe.sent| ==> s.reader.received == s.pipe.sent;
  }
}
