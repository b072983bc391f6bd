/** A Trojan sender and receiver of datagrams joined by one channel, driven by an arbitrary schedule of polls. */
module TrojanSession {
  import opened Bytes
  import opened Framing
  import opened Pipe
  import opened Address
  import opened TrojanUdp
  import opened TrojanStream

  /** One poll: the sender offers its next datagram, or the receiver has `room` for one; or the sender closes. */
  datatype Action = Send | Receive(room: nat) | Close

  /** The datagrams begun are the first ones of the application's list: those sent, and at most one under way or given up. */
  ghost predicate Progress(app: seq<Datagram>, next: nat, log: seq<Datagram>, open: bool) {
    next + (if open then 1 else 0) <= |app| && log == app[..next + (if open then 1 else 0)]
  }

  lemma ProgressBegin(app: seq<Datagram>, next: nat, log: seq<Datagram>, open: bool)
    requires Progress(app, next, log, open) && next < |app|
    ensures var after := if open then log else log + [app[next]];
            && Progress(app, next, after, true) && Progress(app, next + 1, after, false)
            && after != [] && after[|after| - 1] == app[next]
  {
  }

  /** Every receive has room for every datagram. */
  ghost predicate Roomy(app: seq<Datagram>, room: nat) {
    forall d <- app :: |d.payload| <= room
  }

  class Session {
    const app: seq<Datagram>
    const writer: TrojanUdpWriter
    const reader: TrojanUdpReader
    const pipe: Channel
    /** How many datagrams have been reported as sent. */
    var next: nat
    var got: seq<Datagram>
    /** A write has failed, so no more is offered. */
    var stopped: bool
    /** The receiver's last poll found nothing more to deliver. */
    var idle: bool
    /** How that poll ended. */
    ghost var heard: Poll<()>

    /** What the sender has done. */
    ghost predicate Sender()
      reads `next, `stopped, writer, pipe`sent
    {
      && writer.Valid() && writer.state != WriteState.Ended && pipe.sent == writer.wire
      && AllValid(app, Sendable) && Progress(app, next, writer.log, stopped || writer.Now().Busy())
      && (stopped ==> writer.broken && !writer.Now().Busy())
    }

    /** What the receiver has received and delivered. */
    ghost predicate Receiver()
      reads `got, `idle, reader, pipe
    {
      && reader.Valid() && pipe.Valid()
      && reader.received == pipe.sent[..pipe.taken] && got == reader.delivered
      && (idle ==> Settled(reader.Now()))
    }

    ghost predicate Valid()
      reads this, writer, reader, pipe
    {
      Sender() && Receiver()
    }

    constructor (app: seq<Datagram>, pipe: Channel)
      requires AllValid(app, Sendable) && pipe.Valid() && pipe.sent == []
      ensures Valid() && this.app == app && this.pipe == pipe && fresh(writer) && fresh(reader)
      ensures next == 0 && got == [] && !stopped && !writer.broken && !reader.split
    {
      this.app, this.pipe := app, pipe;
      writer := new TrojanUdpWriter();
      reader := new TrojanUdpReader();
      next, got, stopped, idle, heard := 0, [], false, false, Ready(());
    }

    /** The next datagram is offered, or the one under way again. */
    method Send()
      requires Valid()
      modifies `next, `stopped, writer, pipe`sent, pipe`pushes, pipe`last
      ensures Valid() && next >= old(next) && Spent(old(pipe.pushes), pipe.pushes)
      ensures writer.broken == (old(writer.broken) || Faulty(Used(old(pipe.pushes), pipe.pushes)))
      ensures !old(stopped) && !pipe.closed && old(next) < |app| && !writer.broken ==>
                Offered(old(next), old(writer.Now().Busy()), old(writer.log), |old(pipe.pushes)|)
    {
      SpentNothing(pipe.pushes);
      hide Offered, Channel.Fair, Faulty, Used, Spent, TrojanUdpReader.Valid, Settled;
      if stopped || pipe.closed || next == |app| {
        return;
      }
      Offer();
    }

    /** What a poll of the sender has done, if no write has failed: the datagram is out, or it waits for the transport. */
    ghost predicate Offered(next0: nat, busy0: bool, log0: seq<Datagram>, pushes0: nat)
      reads `next, writer, pipe`pushes
    {
      && next == next0 + (if writer.Now().Busy() then 0 else 1)
      && (busy0 ==> writer.log == log0)
      && Polled(writer.Now().Busy(), |pipe.pushes|, pushes0)
    }

    method Offer()
      requires Sender() && !stopped && next < |app| && pipe.Valid()
      modifies `next, `stopped, writer, pipe`sent, pipe`pushes, pipe`last
      ensures Sender() && pipe.Valid() && next >= old(next) && old(pipe.sent) <= pipe.sent && Spent(old(pipe.pushes), pipe.pushes)
      ensures writer.broken == (old(writer.broken) || Faulty(Used(old(pipe.pushes), pipe.pushes)))
      ensures !writer.broken ==> Offered(old(next), old(writer.Now().Busy()), old(writer.log), |old(pipe.pushes)|)
    {
      hide Channel.Fair, Progress, AllValid, Faulty, Used, Spent, TornAt, TrojanUdpWriter.Valid, Honest, Polled, Grew, More;
      ProgressBegin(app, next, writer.log, writer.Now().Busy());
      AllSendable(app, next);
      var r := writer.PollSendTo(pipe, app[next].payload, app[next].address);
      GrewPrefix(old(pipe.sent), pipe.sent);
      if r.Ready? {
        next := next + 1;
      }
      stopped := r.Failed?;
    }

    method Receive(room: nat)
      requires Valid() && room > 0
      modifies `got, `idle, `heard, reader, pipe`taken, pipe`turns, pipe`last
      ensures Valid() && old(pipe.taken) <= pipe.taken && old(got) <= got && |got| <= |old(got)| + 1
      ensures Heard(old(reader.state == ReadState.Finished), |old(pipe.turns)|, got != old(got))
      ensures Roomy(app, room) && !writer.broken && !old(reader.split) ==> !reader.split
    {
      hide Sender, Receiver, Heard;
      Take(room);
      if !writer.broken && reader.items != [] {
        LastWasSent(this);
      }
    }

    /** What a poll of a receiver that had not ended has told it; `more` says that it has handed over something. */
    ghost predicate Heard(over: bool, turns0: nat, more: bool)
      reads `idle, `heard, reader, pipe
    {
      !over ==>
        && (!more ==> reader.Explained(heard, pipe) && idle == !heard.Failed?)
        && (reader.state == ReadState.Finished <==> !heard.Pending? && !more)
        && Polled(heard.Pending?, |pipe.turns|, turns0)
    }

    method Take(room: nat)
      requires Receiver() && room > 0
      modifies `got, `idle, `heard, reader, pipe`taken, pipe`turns, pipe`last
      ensures Receiver() && old(pipe.taken) <= pipe.taken && old(got) <= got && |got| <= |old(got)| + 1
      ensures Heard(old(reader.state == ReadState.Finished), |old(pipe.turns)|, got != old(got))
      ensures reader.split && !old(reader.split) ==>
                reader.items != [] && |reader.items[|reader.items| - 1].payload| > room
    {
      hide Channel.Fair, TrojanUdpReader.Valid, Settled;
      ghost var before := pipe.taken;
      var r, put, from := reader.PollRecvFrom(pipe, room);
      SliceJoin(pipe.sent, 0, before, pipe.taken);
      if put != [] {
        got := got + [Datagram(from, put)];
      }
      idle, heard := put == [] && !r.Failed?, r;
    }

    /** The sender closes its side between two datagrams. */
    method Close()
      requires Valid()
      modifies pipe`closed
      ensures Valid()
    {
      pipe.closed := pipe.closed || writer.state == WriteState.Idle;
    }
  
    method Step(action: Action)
      requires Valid()
      modifies this, writer, reader, pipe
      ensures Valid() && old(got) <= got && Spent(old(pipe.pushes), pipe.pushes)
      ensures writer.broken == (old(writer.broken) || Faulty(Used(old(pipe.pushes), pipe.pushes)))
      ensures (action.Receive? ==> Roomy(app, action.room)) && !writer.broken && !old(reader.split) ==> !reader.split
    {
      SpentNothing(pipe.pushes);
      hide Valid, Roomy, Faulty, Used, Spent;
      match action
      case Send => Send();
      case Receive(room) => if room > 0 { Receive(room); }
      case Close => Close();
    }

    /**
     Any schedule of polls. The writer is broken exactly if a turn of its was faulty. Until then what arrives is what was sent; and
     if every receive has room for a datagram, it arrives datagram by datagram, all of them once the wire is drained.
     */
    method Run(actions: seq<Action>)
      requires Valid()
      modifies this, writer, reader, pipe
      ensures Valid() && old(got) <= got && Spent(old(pipe.pushes), pipe.pushes)
      ensures writer.broken == (old(writer.broken) || Faulty(Used(old(pipe.pushes), pipe.pushes)))
      ensures !writer.broken ==> Content(got) <= Content(app)
      ensures !writer.broken && !old(reader.split) && AllRoomy(app, actions) ==>
                got <= app && (Drained() ==> next <= |app| && got == app[..next])
    {
      SpentNothing(pipe.pushes);
      hide Valid, Roomy, Drained, Faulty, Used, Spent, Content;
      for i := 0 to |actions|
        invariant Valid() && old(got) <= got && Spent(old(pipe.pushes), pipe.pushes)
        invariant writer.broken == (old(writer.broken) || Faulty(Used(old(pipe.pushes), pipe.pushes)))
        invariant !writer.broken && !old(reader.split) && AllRoomy(app, actions) ==> !reader.split
      {
        ghost var mid := pipe.pushes;
        Step(actions[i]);
        SpentTwice(old(pipe.pushes), mid, pipe.pushes);
      }
      if !writer.broken {
        Delivery(this);
      }
    }

    /** One poll of the sender over a transport that is ready for some bytes. */
    method Speak(pushes: seq<Turn>)
      requires Valid() && !writer.broken && !pipe.closed && Healthy(pushes) && next < |app|
      modifies `next, `stopped, writer, pipe`sent, pipe`turns, pipe`pushes, pipe`last, pipe`mark
      ensures Valid() && !writer.broken
      ensures writer.Now().Busy() ==> next == old(next) && |pipe.sent| > |old(pipe.sent)|
      ensures !writer.Now().Busy() ==> next == old(next) + 1
      ensures old(writer.Now().Busy()) ==> writer.log == old(writer.log)
    {
      hide Faulty, Used, Spent, Progress, AllValid, Settled, TrojanUdpReader.Valid, TrojanUdpWriter.Valid;
      pipe.Supply([], pushes);
      SpentNothing(pushes);
      Send();
      FaultyPart(pushes, pipe.pushes);
    }

    /** Over a transport that is ready for some bytes whenever it is asked, the sender gets every datagram out. */
    method SendAll(pushes: nat -> seq<Turn>)
      requires Valid() && !writer.broken && !pipe.closed && forall i: nat :: Healthy(pushes(i))
      modifies `next, `stopped, writer, pipe`sent, pipe`turns, pipe`pushes, pipe`last, pipe`mark
      ensures Valid() && !writer.broken && next == |app|
    {
      hide Valid, Healthy, EncodeAll;
      var i := 0;
      SentSoFar(this);
      while next < |app|
        invariant Valid() && !writer.broken && next <= |app|
        invariant |pipe.sent| <= |EncodeAll(Framer(), 0, writer.log)|
        decreases |app| - next, !writer.Now().Busy(), |EncodeAll(Framer(), 0, writer.log)| - |pipe.sent|
      {
        Speak(pushes(i));
        SentSoFar(this);
        i := i + 1;
      }
    }

    /** One poll of the receiver over a transport that is ready to give some bytes, if it has any. */
    method Hear(turns: seq<Turn>, room: nat)
      requires Valid() && !writer.broken && Alive(room) && Healthy(turns) && room > 0
      modifies `got, `idle, `heard, reader, pipe`taken, pipe`turns, pipe`pushes, pipe`last, pipe`mark
      ensures Valid() && Alive(room) && old(pipe.taken) <= pipe.taken && old(got) <= got
      ensures got == old(got) ==> idle && (old(pipe.taken) < pipe.taken || pipe.taken == |pipe.sent|)
    {
      hide Sender, Settled, Channel.Fair, TrojanUdpReader.Valid;
      pipe.Supply(turns, []);
      assert Valid();
      hide Valid, Heard, Faulty, Roomy;
      Receive(room);
      HeardWell(this, got != old(got));
    }

    /** The receiver has not ended, has split no datagram and has room for every one, and the sender has not closed. */
    ghost predicate Alive(room: nat)
      reads reader, pipe`closed
    {
      reader.state != ReadState.Finished && !reader.split && Roomy(app, room) && !pipe.closed
    }

    /** Over a transport that is ready whenever it is asked, the receiver gets every datagram the sender got out. */
    method ReceiveAll(turns: nat -> seq<Turn>, room: nat)
      requires Valid() && !writer.broken && Alive(room) && room > 0 && next == |app| && forall i: nat :: Healthy(turns(i))
      modifies `got, `idle, `heard, reader, pipe`taken, pipe`turns, pipe`pushes, pipe`last, pipe`mark
      ensures Valid() && got == app
    {
      hide Valid, Sender, Receiver, Healthy;
      AllHeard(this);
      var i := 0;
      while got != app
        invariant Valid() && Alive(room) && got <= app && pipe.taken <= |pipe.sent|
        decreases |app| - |got|, |pipe.sent| - pipe.taken
      {
        Hear(turns(i), room);
        AllHeard(this);
        i := i + 1;
      }
    }

    /**
     From every state that any schedule of polls can lead to, if neither end has failed, the rest gets through: over a transport
     that is ready to move something whenever it is asked, finitely many polls deliver every datagram, one each.
     */
    method Finish(pushes: nat -> seq<Turn>, turns: nat -> seq<Turn>, room: nat)
      requires Valid() && !writer.broken && Alive(room) && room > 0
      requires forall i: nat :: Healthy(pushes(i)) && Healthy(turns(i))
      modifies this, writer, reader, pipe
      ensures Valid() && got == app
    {
      hide Valid, Healthy;
      SendAll(pushes);
      ReceiveAll(turns, room);
    }

    /** Every datagram reported as sent has been taken, and the receiver has asked for more since. */
    ghost predicate Drained()
      reads this, writer, pipe
    {
      idle && !writer.Now().Busy() && pipe.taken == |pipe.sent|
    }
  }

  ghost predicate AllRoomy(app: seq<Datagram>, actions: seq<Action>) {
    forall a <- actions :: a.Receive? ==> Roomy(app, a.room)
  }

  lemma AllSendable(app: seq<Datagram>, i: nat)
    requires AllValid(app, Sendable) && i < |app|
    ensures Sendable(app[i])
  {
  }

  lemma SentSoFar(s: Session)
    requires s.Valid() && !s.writer.broken
    ensures s.next <= |s.app| && |s.pipe.sent| <= |EncodeAll(Framer(), 0, s.writer.log)|
  {
    hide EncodeAll, Consistent, Settled, Good;
    SendPath(s.writer);
  }

  /**
   A receiver that is asked while the wire is not to fail stays alive; if it hands over nothing, it is waiting for more, and has
   taken something unless there was nothing to take.
   */
  lemma HeardWell(s: Session, more: bool)
    requires s.Valid() && !s.writer.broken && !s.pipe.closed
    requires s.pipe.mark.pushes == [] && Healthy(s.pipe.mark.turns) && s.pipe.mark.sent == |s.pipe.sent|
    requires s.Heard(false, |s.pipe.mark.turns|, more)
    ensures s.reader.state != ReadState.Finished
    ensures !more ==> s.idle && (s.pipe.mark.taken < s.pipe.taken || s.pipe.taken == |s.pipe.sent|)
  {
    hide Consistent, Settled, EncodeAll, Good;
    SendPath(s.writer);
    ReceivePath(s.reader, s.writer.log);
  }

  /** Once everything is out and has been taken, a receiver that waits for more has handed over everything. */
  lemma AllHeard(s: Session)
    requires s.Valid() && !s.writer.broken && !s.reader.split && s.next == |s.app|
    ensures s.got <= s.app && s.pipe.taken <= |s.pipe.sent|
    ensures s.idle && s.pipe.taken == |s.pipe.sent| ==> s.got == s.app
  {
    hide Consistent, Settled, Good, Content;
    Delivery(s);
  }

  /** The last datagram the receiver has recognised is one of the application's. */
  lemma LastWasSent(s: Session)
    requires s.Valid() && !s.writer.broken && s.reader.items != []
    ensures s.reader.items[|s.reader.items| - 1] in s.app
  {
    hide Consistent, Good, Settled, Content;
    SendPath(s.writer);
    DatagramsStable();
    FramesInverse();
    assert AllValid(s.writer.log, Sendable);
    HonestPrefix(Datagrams(), Framer(), Sendable, s.writer.log, s.reader.received);
    ItemsReceived(s.reader.Now());
    assert s.reader.items <= s.writer.log <= s.app;
  }

  /** Of a writer whose transport has not failed, what arrives is what was sent. */
  lemma Delivery(s: Session)
    requires s.Valid() && !s.writer.broken
    ensures Content(s.got) <= Content(s.app)
    ensures !s.reader.split ==> s.got <= s.app && (s.Drained() ==> s.next <= |s.app| && s.got == s.app[..s.next])
  {
    var open := s.stopped || s.writer.Now().Busy();
    ProgressSo(s.app, s.next, s.writer.log, open);
    assert s.reader.received <= s.writer.wire;
    assert s.pipe.taken == |s.pipe.sent| ==> s.reader.received == s.writer.wire;
    assert !s.stopped;
    hide Consistent, Good, Settled, Content, Progress, AllValid, TrojanUdpWriter.Valid, TrojanUdpReader.Valid;
    EndToEnd(s.writer, s.reader);
  }

  /** What has been begun is sound, and a prefix of everything. */
  lemma ProgressSo(app: seq<Datagram>, next: nat, log: seq<Datagram>, open: bool)
    requires Progress(app, next, log, open) && AllValid(app, Sendable)
    ensures AllValid(log, Sendable) && log <= app && Content(log) <= Content(app)
    ensures next <= |app| && (!open ==> log == app[..next])
  {
    hide Content;
    ContentAppend(log, app[|log|..]);
    assert app == log + app[|log|..];
  }

  /**
   One datagram, polled until it is done or `polls` runs out. If it is reported as sent, its frame is on the wire exactly when no
   turn used for it was faulty; in the other case a proper prefix of its head is, and then its payload.
   */
  method SendDatagram(w: TrojanUdpWriter, pipe: Channel, d: Datagram, polls: nat) returns (r: Poll<nat>)
    requires w.Valid() && pipe.Valid() && w.state == WriteState.Idle && d.payload != []
    modifies w, pipe`sent, pipe`pushes, pipe`last
    ensures w.Valid() && pipe.Valid() && Spent(old(pipe.pushes), pipe.pushes)
    ensures w.broken == (old(w.broken) || Faulty(Used(old(pipe.pushes), pipe.pushes)))
    ensures r.Ready? ==> r.value == |d.payload|
    ensures r.Ready? ==> (w.wire == old(w.wire) + Frame(d) <==> !Faulty(Used(old(pipe.pushes), pipe.pushes)))
    ensures r.Ready? && Faulty(Used(old(pipe.pushes), pipe.pushes)) ==>
              w.cut < |Head(d)| && w.wire == old(w.wire) + Head(d)[..w.cut] + d.payload
  {
    hide TrojanUdpWriter.Valid, TornAt, Faulty, Used, Spent, Head, Polled, Honest;
    SpentNothing(pipe.pushes);
    r := Pending;
    for k := 0 to polls
      invariant w.Valid() && pipe.Valid() && r.Pending? && Spent(old(pipe.pushes), pipe.pushes)
      invariant w.broken == (old(w.broken) || Faulty(Used(old(pipe.pushes), pipe.pushes)))
      invariant if k == 0 then w.state == WriteState.Idle && pipe.pushes == old(pipe.pushes) && w.wire == old(w.wire)
                else w.Now().Busy()
      invariant k > 0 ==> w.log != [] && w.Now().Pending() == d && w.start == old(w.wire)
                          && w.spent == Used(old(pipe.pushes), pipe.pushes)
    {
      ghost var mid := pipe.pushes;
      r := w.PollSendTo(pipe, d.payload, d.address);
      SpentTwice(old(pipe.pushes), mid, pipe.pushes);
      if !r.Pending? {
        if r.Ready? { SentWholeIff(w.Now()); }
        return;
      }
    }
  }
}
