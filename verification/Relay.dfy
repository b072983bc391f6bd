/** The relay loop between two transports, which copies through one buffer and counts what passes. */
module Relay {
  import opened Bytes
  import opened Pipe

  /**
   `CopyWithCapacity` and its atomic twin. The first keeps only the outgoing count; the second also counts
   what comes in, and is otherwise the same.
   */
  class CopyWithCapacity {
    const reader: Channel
    const writer: Channel
    const buf: array<byte>
    var readDone: bool
    var pos: nat
    var cap: nat
    var amtIn: nat
    var amtOut: nat
    ghost const from: nat         // where reading started
    ghost const before: bytes     // what the writer already held
    ghost const paidIn: nat       // the counters at the start
    ghost const paidOut: nat
    ghost var moved: bytes

    /** Nothing is lost, repeated or reordered: what was read is what was written and what waits in the buffer. */
    ghost predicate Conserved()
      reads this, reader`sent, reader`taken, writer`sent, buf
      requires pos <= cap <= buf.Length && from <= reader.taken <= |reader.sent|
    {
      && reader.sent[from..reader.taken] == moved + buf[pos..cap]
      && writer.sent == before + moved
    }

    ghost predicate Valid()
      reads this, reader, writer, buf
    {
      && reader != writer && reader.Bounded() && writer.Bounded()
      && pos <= cap <= buf.Length && from <= reader.taken
      && Conserved()
      && amtIn == paidIn + |moved| + (cap - pos) && amtOut == paidOut + |moved|
      && (buf.Length == 0 ==> moved == [])
      && (readDone ==> pos == cap && (buf.Length > 0 ==> reader.closed && reader.taken == |reader.sent|))
    }

    constructor (reader: Channel, writer: Channel, capacity: nat, amtIn: nat, amtOut: nat)
      requires reader != writer && reader.Bounded() && writer.Bounded()
      ensures Valid() && fresh(buf) && this.reader == reader && this.writer == writer
      ensures buf.Length == capacity && !readDone && moved == []
      ensures from == reader.taken && before == writer.sent && paidIn == amtIn && paidOut == amtOut
    {
      this.reader, this.writer, this.amtIn, this.amtOut := reader, writer, amtIn, amtOut;
      buf := new byte[capacity](_ => 0);
      readDone, pos, cap := false, 0, 0;
      from, before, paidIn, paidOut, moved := reader.taken, writer.sent, amtIn, amtOut, [];
    }

    /** One read into the empty buffer; reading nothing means the end of the source. */
    method Fill() returns (r: Poll<()>)
      requires Valid() && pos == cap && !readDone
      modifies `readDone, `pos, `cap, `amtIn, buf, reader`taken, reader`turns, reader`last
      ensures Valid() && |reader.turns| <= |old(reader.turns)|
      ensures r.Ready? ==> |reader.turns| < |old(reader.turns)|
      ensures Polled(r.Pending?, |reader.turns|, |old(reader.turns)|)
      ensures !r.Ready? ==> reader.last == r
    {
      ghost var start := reader.taken;
      var got := reader.PollRead(buf.Length);
      match got
      case Pending => return Pending;
      case Failed(_) => return Failed(Transport);
      case Ready(more) =>
        SliceJoin(reader.sent, from, start, reader.taken);
        Store(more);
        amtIn := amtIn + |more|;
        if |more| == 0 {
          readDone := true;
        } else {
          pos, cap := 0, |more|;
        }
        r := Ready(());
    }

    method Store(more: bytes)
      requires |more| <= buf.Length
      modifies buf
      ensures buf[..|more|] == more
    {
      for i := 0 to |more|
        invariant buf[..i] == more[..i]
      {
        buf[i] := more[i];
      }
    }

    /** Writes what the buffer holds until the writer has it all, stalls or fails. */
    method Drain() returns (r: Poll<()>)
      requires Valid()
      modifies `pos, `amtOut, `moved, writer`sent, writer`pushes, writer`last
      ensures Valid() && |writer.pushes| <= |old(writer.pushes)|
      ensures r.Ready? ==> pos == cap
      ensures Honest(r, writer) && Polled(r.Pending?, |writer.pushes|, |old(writer.pushes)|)
    {
      while pos < cap
        invariant Valid() && |writer.pushes| <= |old(writer.pushes)|
        decreases |writer.pushes|
      {
        var got := writer.PollWrite(buf[pos..cap]);
        match got
        case Pending => return Pending;
        case Failed(_) => return Failed(Transport);
        case Ready(i) =>
          if i == 0 {
            return Failed(WriteZero);
          }
          Pass(i);
      }
      r := Ready(());
    }

    /** Accounts for `i` more bytes that the writer has taken. */
    method Pass(i: nat)
      requires reader != writer && reader.Bounded() && writer.Bounded()
      requires pos + i <= cap <= buf.Length && from <= reader.taken && !readDone
      requires reader.sent[from..reader.taken] == moved + buf[pos..cap]
      requires writer.sent == before + moved + buf[pos..cap][..i]
      requires amtIn == paidIn + |moved| + (cap - pos) && amtOut == paidOut + |moved|
      requires buf.Length == 0 ==> moved == []
      modifies `pos, `amtOut, `moved
      ensures Valid() && pos == old(pos) + i
    {
      ghost var rest := buf[pos..cap];
      Advance(moved, rest, i);
      assert buf[pos + i..cap] == rest[i..];
      moved := moved + rest[..i];
      pos := pos + i;
      amtOut := amtOut + i;
    }

    static lemma Advance(moved: bytes, rest: bytes, i: nat)
      requires i <= |rest|
      ensures moved + rest == (moved + rest[..i]) + rest[i..]
    {
    }

    /**
     `poll`. It is ready only when the source has ended and all of it has been written, in order - or, when the capacity is
     zero, at once and with nothing copied.
     */
    method PollCopy() returns (r: Poll<nat>)
      requires Valid()
      modifies this, buf, reader`taken, reader`turns, reader`last
      modifies writer`sent, writer`pushes, writer`last, writer`asked, writer`flushed
      ensures Valid()
      ensures r.Ready? <==> writer.asked > old(writer.asked) && writer.last == Ready(())
      ensures r.Ready? ==> writer.flushed == |writer.sent|
      ensures writer.asked > old(writer.asked) ==> writer.asked == old(writer.asked) + 1 && Outcome(r) == writer.last
      ensures writer.asked == old(writer.asked) ==> writer.flushed == old(writer.flushed)
      ensures r.Ready? ==>
                && writer.sent == before + reader.sent[from..reader.taken]
                && r.value == amtOut == paidOut + (reader.taken - from) && amtIn - paidIn == amtOut - paidOut
                && (if buf.Length > 0 then reader.closed && reader.taken == |reader.sent| else reader.taken == from)
      ensures r.Pending? ==>
                || (reader.last == Pending && Polled(true, |reader.turns|, |old(reader.turns)|))
                || (writer.last == Pending && Polled(true, |writer.pushes|, |old(writer.pushes)|))
      ensures r.Failed? ==> Honest(r, writer) || reader.last == Failed(r.error)
    {
      hide Conserved, Channel.Fair;
      while true
        invariant Valid() && |reader.turns| <= |old(reader.turns)| && |writer.pushes| <= |old(writer.pushes)|
        invariant writer.asked == old(writer.asked) && writer.flushed == old(writer.flushed)
        decreases |reader.turns|, cap - pos
      {
        ghost var left := cap - pos;
        if pos == cap && !readDone {
          var got := Fill();
          match got
          case Pending => return Pending;
          case Failed(e) => return Failed(e);
          case Ready(_) =>
        }
        var written := Drain();
        match written
        case Pending => return Pending;
        case Failed(e) => return Failed(e);
        case Ready(_) =>
          if pos == cap && readDone {
            AllMoved(this);
            r := Flush();
            return;
          }
      }
    }

    /** Everything has been written: the answer is that of the flush. */
    method Flush() returns (r: Poll<nat>)
      requires reader != writer
      modifies writer`pushes, writer`last, writer`asked, writer`flushed
      ensures writer.asked == old(writer.asked) + 1 && Outcome(r) == writer.last
      ensures Polled(r.Pending?, |writer.pushes|, |old(writer.pushes)|) && (r.Failed? ==> r.error == Transport)
      ensures r.Ready? ==> r.value == amtOut && writer.flushed == |writer.sent|
    {
      var flushed := writer.PollFlush();
      match flushed
      case Pending => r := Pending;
      case Failed(e) => r := Failed(e);
      case Ready(_) => r := Ready(amtOut);
    }
  }

  /** At the end of the source, with an empty buffer, everything read has been written. */
  lemma AllMoved(c: CopyWithCapacity)
    requires c.Valid() && c.pos == c.cap && c.readDone
    ensures c.from <= c.reader.taken <= |c.reader.sent| && c.writer.sent == c.before + c.reader.sent[c.from..c.reader.taken]
    ensures c.amtOut == c.paidOut + (c.reader.taken - c.from) && c.amtIn - c.paidIn == c.amtOut - c.paidOut
    ensures if c.buf.Length > 0 then c.reader.closed && c.reader.taken == |c.reader.sent| else c.reader.taken == c.from
  {
    assert c.buf[c.pos..c.cap] == [] && c.moved + [] == c.moved;
    assert |c.reader.sent[c.from..c.reader.taken]| == c.reader.taken - c.from;
  }
}
