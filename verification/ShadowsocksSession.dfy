/** A Shadowsocks sender and receiver joined by one channel, driven by an arbitrary schedule of polls. */
module ShadowsocksSession {
  import opened Bytes
  import opened Framing
  import opened Pipe
  import opened Aead
  import opened ChunkReader
  import opened ChunkWriter
  import opened Offers
  import opened ReplayWindow
  import opened ShadowsocksTcp

  /** One poll: the sender offers up to `n` bytes, or the receiver has `room` for more. */
  datatype Action = Send(n: nat) | Receive(room: nat)

  class Session {
    const app: bytes
    const writer: EncryptedWriter
    const reader: CryptoReader
    const pipe: Channel
    var accepted: nat
    var offer: bytes
    var got: bytes
    /** A write has failed, so no more is offered. */
    var stopped: bool
    /** The receiver's last poll found nothing more to deliver. */
    var idle: bool
    /** How that poll ended. */
    ghost var heard: Poll<()>

    ghost function Wire(): bytes
      reads writer
    {
      writer.salt + EncodeAll(Framer(writer.cipher.aead), 0, writer.chunks)
    }

    /** What the sender has done. */
    ghost predicate Sender()
      reads `accepted, `offer, `stopped, writer, writer.cipher, writer.cipher.nonce, pipe`sent
    {
      && writer.Valid()
      && stopped == writer.failed && Progress(MAX_PACKET_SIZE, app, accepted, offer, writer.chunks, writer.writing, stopped)
      && AllValid(writer.chunks, FitsPacket)
      && pipe.sent <= Wire()
      && (!writer.failed ==> writer.wire == pipe.sent)
    }

    /** What the receiver has taken from the channel. */
    ghost predicate Taken()
      reads reader`received, pipe`sent, pipe`taken, pipe`turns, pipe`pushes, pipe`last, pipe`mark
    {
      pipe.Valid() && reader.received == pipe.sent[..pipe.taken]
    }

    /** What the receiver has delivered. */
    ghost predicate Receiver()
      reads `got, `idle, reader, reader.context, reader.parts
    {
      && reader.Valid() && got == reader.delivered
      && (idle && reader.dec != null ==> Settled(Layout(reader.dec.cipher.aead), reader.dec.Now()))
    }

    /** The two ends share nothing but the channel. */
    ghost predicate Apart()
      reads reader`parts
    {
      {this, writer, writer.cipher, writer.cipher.nonce, pipe} !! reader.parts
    }

    ghost predicate Valid()
      reads this, writer, writer.cipher, writer.cipher.nonce, reader, reader.context, reader.parts, pipe
    {
      && Sender() && Taken() && Receiver()
      && Apart()
      && |writer.salt| == reader.saltLen && writer.cipher.aead == reader.derive(writer.salt)
    }

    constructor (app: bytes, writer: EncryptedWriter, reader: CryptoReader, pipe: Channel)
      requires writer.Valid() && reader.Valid() && pipe.Valid()
      requires writer.chunks == [] && !writer.writing && !writer.failed && writer.wire == []
      requires reader.dec == null && reader.received == [] && pipe.sent == []
      requires |writer.salt| == reader.saltLen && writer.cipher.aead == reader.derive(writer.salt)
      ensures Valid() && this.app == app && this.writer == writer && this.reader == reader && this.pipe == pipe
      ensures accepted == 0 && got == []
    {
      this.app, this.writer, this.reader, this.pipe := app, writer, reader, pipe;
      accepted, offer, got, stopped, idle, heard := 0, [], [], false, false, Ready(());
      new;
      assert app[..0] + [] == [];
    }

    /** The application offers the next bytes, or the same ones again if the last offer is still pending. */
    method Send(n: nat)
      requires Valid()
      modifies `accepted, `offer, `stopped, writer, writer.cipher, writer.cipher.nonce, pipe`sent, pipe`pushes, pipe`last
      ensures Valid() && accepted >= old(accepted) && old(pipe.sent) <= pipe.sent && Spent(old(pipe.pushes), pipe.pushes)
      ensures stopped == (old(stopped) || Faulty(Used(old(pipe.pushes), pipe.pushes)))
      ensures !stopped ==> Offered(n, old(accepted), old(offer), old(writer.writing), old(writer.chunks), |old(pipe.pushes)|)
    {
      hide Offered, Sender, Receiver, Channel.Fair, CryptoReader.Valid, EncryptedWriter.Valid, Faulty, Used, Spent;
      Push(n);
      assert pipe.sent[..pipe.taken] == old(pipe.sent)[..pipe.taken];
    }

    /** What a poll of the sender has done, if no write has failed: the chunk under way is accepted, or it waits for the transport. */
    ghost predicate Offered(
        n: nat, accepted0: nat, offer0: bytes, writing0: bool, chunks0: seq<bytes>, pushes0: nat)
      reads `accepted, `offer, writer, pipe`pushes
    {
      && accepted == accepted0 + (if writer.writing then 0 else |Capped(MAX_PACKET_SIZE, offer)|)
      && (if writing0 then offer == offer0 && writer.chunks == chunks0 else n > 0 && accepted0 < |app| ==> offer != [])
      && Polled(writer.writing, |pipe.pushes|, pushes0)
    }

    /** The sender's side of `Send`. */
    method Push(n: nat)
      requires Sender() && pipe.Valid()
      modifies `accepted, `offer, `stopped, writer, writer.cipher, writer.cipher.nonce, pipe`sent, pipe`pushes, pipe`last
      ensures Sender() && pipe.Valid() && accepted >= old(accepted) && old(pipe.sent) <= pipe.sent && Spent(old(pipe.pushes), pipe.pushes)
      ensures stopped == (old(stopped) || Faulty(Used(old(pipe.pushes), pipe.pushes)))
      ensures !stopped ==> Offered(n, old(accepted), old(offer), old(writer.writing), old(writer.chunks), |old(pipe.pushes)|)
    {
      SpentNothing(pipe.pushes);
      hide Channel.Fair, Polled, Capped, Flatten, AllValid, Chunk, EncodeAll, Faulty, Used, Spent, EncryptedWriter.Valid;
      if stopped {
        return;
      }
      if !writer.writing {
        offer := if n < |app| - accepted then app[accepted..accepted + n] else app[accepted..];
      }
      Offer();
    }

    /** One poll of the writer with the current offer. */
    method Offer()
      requires Sender() && pipe.Valid() && !stopped && accepted <= |app| && offer <= app[accepted..]
      modifies `accepted, `stopped, writer, writer.cipher, writer.cipher.nonce, pipe`sent, pipe`pushes, pipe`last
      ensures Sender() && pipe.Valid() && accepted >= old(accepted) && old(pipe.sent) <= pipe.sent && Spent(old(pipe.pushes), pipe.pushes)
      ensures stopped == Faulty(Used(old(pipe.pushes), pipe.pushes))
      ensures !stopped ==> accepted == old(accepted) + (if writer.writing then 0 else |Capped(MAX_PACKET_SIZE, offer)|)
      ensures Polled(writer.writing, |pipe.pushes|, |old(pipe.pushes)|)
      ensures old(writer.writing) ==> writer.chunks == old(writer.chunks)
    {
      hide Channel.Fair, Progress, Flatten, AllValid, Capped, EncodeAll, Faulty, Used, Spent, Honest, Polled, Grew, More;
      hide EncryptedWriter.Valid;
      ghost var chunks, writing := writer.chunks, writer.writing;
      ProgressPoll(MAX_PACKET_SIZE, app, accepted, offer, chunks, writing);
      CappedOffer(MAX_PACKET_SIZE, app, accepted, offer);
      AllValidSnoc(chunks, FitsPacket, Chunk(offer));
      var r := writer.PollWrite(pipe, offer);
      GrewPrefix(old(pipe.sent), pipe.sent);
      if r.Ready? {
        accepted := accepted + r.value;
      }
      stopped := r.Failed?;
    }

    method Receive(room: nat)
      requires Valid() && room > 0
      modifies `got, `idle, `heard, reader, reader.context, reader.parts, pipe`taken, pipe`turns, pipe`last
      ensures Valid() && old(pipe.taken) <= pipe.taken && old(got) <= got && |got| <= |old(got)| + room
      ensures fresh(reader.parts - old(reader.parts))
      ensures Heard(old(reader.Over()), |old(pipe.turns)|, got != old(got))
      ensures old(Open()) ==> Waits()
      ensures old(reader.dec) != null ==> reader.dec != null
    {
      hide Heard, Open, Waits, Channel.Fair, CryptoReader.Valid, EncryptedWriter.Valid, Sender, Taken, Receiver;
      Take(room);
    }

    /** What a poll of the receiver has told it; `more` says that it has handed over something. */
    ghost predicate Heard(over: bool, turns0: nat, more: bool)
      reads `idle, `heard, reader, reader.dec, pipe
    {
      && (!more ==> reader.Explained(heard, [], pipe, over))
      && idle == heard.Pending? && Polled(idle, |pipe.turns|, turns0)
      && (reader.dec != null && !over ==> (reader.Over() <==> !idle && !more))
    }

    /** The receiver has not accepted a salt yet and would accept the sender's. */
    ghost predicate Open()
      reads reader, reader.context
    {
      && reader.context.Valid() && reader.dec == null
      && (reader.saltLen == 0 || !Seen(reader.context.hashes, reader.context.State(), writer.salt))
    }

    /** A receiver that would accept the sender's salt goes on doing so while it waits for it. */
    ghost predicate Waits()
      reads `idle, `heard, reader, reader.context
    {
      reader.dec == null ==>
        && (idle ==> Open())
        && (heard == Failed(Protocol(BadHeader)) ==> |reader.salt| == reader.saltLen && reader.salt != writer.salt)
    }

    method Take(room: nat)
      requires Taken() && Receiver() && room > 0 && this !in reader.parts && pipe !in reader.parts
      modifies `got, `idle, `heard, reader, reader.context, reader.parts, pipe`taken, pipe`turns, pipe`last
      ensures Taken() && Receiver() && old(pipe.taken) <= pipe.taken && old(got) <= got && |got| <= |old(got)| + room
      ensures fresh(reader.parts - old(reader.parts))
      ensures Heard(old(reader.Over()), |old(pipe.turns)|, got != old(got))
      ensures old(Open()) ==> Waits()
      ensures old(reader.dec) != null ==> reader.dec != null
    {
      hide Channel.Fair, Settled, Layout, CryptoReader.Valid, CryptoReader.Explained, Polled, Seen, ReplayWindow.Run;
      hide BloomContext.Valid, BloomContext.State;
      ghost var before := pipe.taken;
      var r, put := reader.PollRead(pipe, room);
      SliceJoin(pipe.sent, 0, before, pipe.taken);
      got := got + put;
      idle, heard := r.Pending?, r;
    }

    method Step(action: Action)
      requires Valid()
      modifies this, writer, writer.cipher, writer.cipher.nonce, reader, reader.context, reader.parts, pipe
      ensures Valid() && old(got) <= got && fresh(reader.parts - old(reader.parts)) && Spent(old(pipe.pushes), pipe.pushes)
      ensures stopped == (old(stopped) || Faulty(Used(old(pipe.pushes), pipe.pushes)))
    {
      hide Valid, Sender, Taken, Receiver, Channel.Fair, Faulty, Used, Spent, Offered, Heard, Open, Waits;
      ApartStill(this);
      SpentNothing(pipe.pushes);
      match action
      case Send(n) => Send(n);
      case Receive(room) => if room > 0 { Receive(room); }
    }

    /** Any schedule of polls. The sender stops exactly when a write meets a faulty turn. */
    method Run(actions: seq<Action>)
      requires Valid()
      modifies this, writer, writer.cipher, writer.cipher.nonce, reader, reader.context, reader.parts, pipe
      ensures Valid() && old(got) <= got && fresh(reader.parts - old(reader.parts)) && Spent(old(pipe.pushes), pipe.pushes)
      ensures stopped == (old(stopped) || Faulty(Used(old(pipe.pushes), pipe.pushes)))
      ensures got <= app
      ensures Drained() ==> accepted <= |app| && got == app[..accepted]
    {
      hide Valid, Sender, Taken, Receiver, Drained, Channel.Fair, Faulty, Used, Spent;
      SpentNothing(pipe.pushes);
      for i := 0 to |actions|
        invariant Valid() && old(got) <= got && fresh(reader.parts - old(reader.parts)) && Spent(old(pipe.pushes), pipe.pushes)
        invariant stopped == (old(stopped) || Faulty(Used(old(pipe.pushes), pipe.pushes)))
      {
        ghost var mid := pipe.pushes;
        Step(actions[i]);
        SpentTwice(old(pipe.pushes), mid, pipe.pushes);
      }
      Delivery(this);
    }

    /** The receiver is neither at an end nor about to refuse the sender's salt. */
    ghost predicate Alive()
      reads reader, reader.dec, reader.context
    {
      if reader.dec != null then !reader.Over() else Open()
    }

    /** One poll of the sender over a transport that is ready for some bytes. */
    method Speak(n: nat, pushes: seq<Turn>)
      requires Valid() && !stopped && Healthy(pushes) && n > 0
      modifies `accepted, `offer, `stopped, writer, writer.cipher, writer.cipher.nonce
      modifies pipe`sent, pipe`turns, pipe`pushes, pipe`last, pipe`mark
      ensures Valid() && !stopped
      ensures writer.writing ==> accepted == old(accepted) && |pipe.sent| > |old(pipe.sent)|
      ensures !writer.writing ==> accepted == old(accepted) + |Capped(MAX_PACKET_SIZE, offer)|
      ensures old(writer.writing) ==> offer == old(offer) && writer.chunks == old(writer.chunks)
      ensures !old(writer.writing) && old(accepted) < |app| ==> offer != []
    {
      hide Sender, Receiver, Faulty, Used, Spent, Capped, EncryptedWriter.Valid, CryptoReader.Valid;
      pipe.Supply([], pushes);
      SpentNothing(pushes);
      Send(n);
      FaultyPart(pushes, pipe.pushes);
    }

    /** Over a transport that is ready for some bytes whenever it is asked, the sender gets everything out. */
    method SendAll(pushes: nat -> seq<Turn>)
      requires Valid() && !stopped && forall i: nat :: Healthy(pushes(i))
      modifies `accepted, `offer, `stopped, writer, writer.cipher, writer.cipher.nonce
      modifies pipe`sent, pipe`turns, pipe`pushes, pipe`last, pipe`mark
      ensures Valid() && !stopped && !writer.writing && accepted == |app|
    {
      hide Receiver, Faulty, EncodeAll, EncryptedWriter.Valid, CryptoReader.Valid, Channel.Fair, Healthy, AllValid;
      var i := 0;
      while writer.writing
        invariant Valid() && !stopped
        decreases writer.writing, |Wire()| - |pipe.sent|
      {
        Speak(1, pushes(i));
        i := i + 1;
      }
      while accepted < |app| || writer.writing
        invariant Valid() && !stopped && (writer.writing ==> offer != [])
        decreases |app| - accepted, !writer.writing, |Wire()| - |pipe.sent|
      {
        Speak(|app| + 1, pushes(i));
        i := i + 1;
      }
    }

    /** One poll of the receiver over a transport that is ready to give some bytes, if it has any. */
    method Hear(turns: seq<Turn>, room: nat)
      requires Valid() && Alive() && !pipe.closed && Healthy(turns) && room > 0
      modifies `got, `idle, `heard, reader, reader.context, reader.parts
      modifies pipe`taken, pipe`turns, pipe`pushes, pipe`last, pipe`mark
      ensures Valid() && Alive() && old(got) <= got && fresh(reader.parts - old(reader.parts))
      ensures old(pipe.taken) <= pipe.taken
      ensures got == old(got) ==> idle && (old(pipe.taken) < pipe.taken || pipe.taken == |pipe.sent|)
    {
      hide Sender, Receiver, Channel.Fair, EncryptedWriter.Valid, CryptoReader.Valid;
      pipe.Supply(turns, []);
      assert Valid() && pipe !in reader.parts;
      hide Valid, Taken, Heard, Waits, Faulty;
      Receive(room);
      GotNow(this);
      HeardWell(this, got != old(got));
    }

    /** Over a transport that is ready whenever it is asked, the receiver gets everything the sender got out. */
    method ReceiveAll(turns: nat -> seq<Turn>, room: nat)
      requires Valid() && Alive() && !pipe.closed && room > 0 && forall i: nat :: Healthy(turns(i))
      requires !stopped && !writer.writing && accepted == |app|
      modifies `got, `idle, `heard, reader, reader.context, reader.parts
      modifies pipe`taken, pipe`turns, pipe`pushes, pipe`last, pipe`mark
      ensures Valid() && got == app && fresh(reader.parts - old(reader.parts))
    {
      hide Valid, Sender, Taken, Receiver, Apart, Alive, Healthy, Drained;
      ApartStill(this);
      AllHeard(this);
      var i := 0;
      while got != app
        invariant Valid() && Alive() && got <= app && fresh(reader.parts - old(reader.parts))
        invariant {this, writer, writer.cipher, writer.cipher.nonce, pipe} !! reader.parts
        invariant pipe.taken <= |pipe.sent|
        decreases |app| - |got|, |pipe.sent| - pipe.taken
      {
        Hear(turns(i), room);
        AllHeard(this);
        i := i + 1;
      }
    }

    /**
     From every state that any schedule of polls can lead to, if neither end has failed, the rest gets through: over a transport
     that is ready to move something whenever it is asked, finitely many polls deliver everything the application writes.
     */
    method Finish(pushes: nat -> seq<Turn>, turns: nat -> seq<Turn>, room: nat)
      requires Valid() && !stopped && Alive() && !pipe.closed && room > 0
      requires forall i: nat :: Healthy(pushes(i)) && Healthy(turns(i))
      modifies this, writer, writer.cipher, writer.cipher.nonce, reader, reader.context, reader.parts, pipe
      ensures Valid() && got == app && fresh(reader.parts - old(reader.parts))
    {
      hide Valid, Alive, Healthy;
      SendAll(pushes);
      ReceiveAll(turns, room);
    }

    /** Every byte accepted has been flushed and taken, and the receiver has asked for more since. */
    ghost predicate Drained()
      reads this, writer, reader, pipe
    {
      idle && reader.dec != null && !writer.writing && !stopped && pipe.taken == |pipe.sent|
    }
  }

  /**
   The stream is the identity: at every moment the bytes received are a prefix of the bytes the application
   wrote, and once the wire is drained they are all the bytes accepted.
   */
  lemma Delivery(s: Session)
    requires s.Valid()
    ensures s.got <= s.app
    ensures s.Drained() ==> s.accepted <= |s.app| && s.got == s.app[..s.accepted]
  {
    hide Consistent, Settled, EncodeAll;
    EndToEnd(s.reader, s.writer.salt, s.writer.chunks);
    ProgressIs(MAX_PACKET_SIZE, s.app, s.accepted, s.offer, s.writer.chunks, s.writer.writing, s.stopped);
    if s.Drained() && s.writer.chunks != [] {
      BooksWire(Packets(s.writer.cipher.aead), s.writer.salt, s.writer.Now(), false);
    }
  }

  lemma ApartStill(s: Session)
    requires s.Valid()
    ensures {s, s.writer, s.writer.cipher, s.writer.cipher.nonce, s.pipe} !! s.reader.parts
  {
  }

  lemma GotNow(s: Session)
    requires s.Valid()
    ensures s.reader.dec == null ==> s.got == []
  {
  }

  /**
   A receiver that is asked while the wire is open and not to fail stays alive; if it hands over nothing, it is waiting for more,
   and has taken something unless there was nothing to take.
   */
  lemma HeardWell(s: Session, more: bool)
    requires s.Valid() && !s.pipe.closed && (more ==> s.reader.dec != null)
    requires s.pipe.mark.pushes == [] && Healthy(s.pipe.mark.turns) && s.pipe.mark.sent == |s.pipe.sent|
    requires s.Heard(false, |s.pipe.mark.turns|, more) && (s.reader.dec == null ==> s.Waits())
    ensures s.Alive() && (!more ==> s.idle && (s.pipe.mark.taken < s.pipe.taken || s.pipe.taken == |s.pipe.sent|))
  {
    hide Consistent, Settled, EncodeAll;
    EndToEnd(s.reader, s.writer.salt, s.writer.chunks);
    if s.reader.dec == null && |s.reader.salt| == s.reader.saltLen {
      assert s.reader.salt == s.pipe.sent[..s.pipe.taken][..s.reader.saltLen] == s.Wire()[..|s.writer.salt|] == s.writer.salt;
    }
  }

  /** Once everything is out and has been taken, a receiver that waits for more has handed over everything. */
  lemma AllHeard(s: Session)
    requires s.Valid() && !s.stopped && !s.writer.writing && s.accepted == |s.app|
    ensures s.got <= s.app && s.pipe.taken <= |s.pipe.sent|
    ensures s.idle && s.pipe.taken == |s.pipe.sent| ==> s.got == s.app
    ensures {s, s.writer, s.writer.cipher, s.writer.cipher.nonce, s.pipe} !! s.reader.parts
  {
    Delivery(s);
    ProgressIs(MAX_PACKET_SIZE, s.app, s.accepted, s.offer, s.writer.chunks, s.writer.writing, s.stopped);
    if s.app != [] {
      BooksWire(Packets(s.writer.cipher.aead), s.writer.salt, s.writer.Now(), false);
      FramesShow(s.writer.cipher.aead, s.writer.chunks);
    }
  }

  lemma FramesShow(a: Aead, chunks: seq<bytes>)
    requires a.Sound() && chunks != []
    ensures EncodeAll(Framer(a), 0, chunks) != []
  {
    assert Framer(a)(0, chunks[0]) == Frame(a, 0, chunks[0]);
  }
}
