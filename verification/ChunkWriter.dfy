/**
 Writers of sealed frames, Shadowsocks or VMess alike: a head, then one frame per chunk. This is the bookkeeping of such
 a writer as a resumable machine; the two writer classes are proved against it.
 */
module ChunkWriter {
  import opened Bytes
  import opened Framing

  /** How chunk number `n` is framed, and which chunks a frame can carry. */
  datatype Coding = Coding(enc: (nat, bytes) -> bytes, valid: bytes -> bool)

  /** A writer between two steps, with the bytes the transport has accepted and the chunks framed so far. */
  datatype Outbox = Outbox(writing: bool, buf: bytes, pos: nat, wire: bytes, chunks: seq<bytes>) {
    function Unsent(): bytes {
      if writing && pos <= |buf| then buf[pos..] else buf
    }
  }

  /** The wire and the unsent rest of the buffer are the head and then one frame per chunk, in order. */
  ghost predicate Accounted(c: Coding, head: bytes, o: Outbox) {
    && (o.writing ==> o.pos <= |o.buf|)
    && AllValid(o.chunks, c.valid)
    && (!o.writing && o.chunks != [] ==> o.buf == [])
    && o.wire + o.Unsent() == head + EncodeAll(c.enc, 0, o.chunks)
  }

  lemma AccountedFrame(c: Coding, head: bytes, o: Outbox, data: bytes)
    requires Accounted(c, head, o) && !o.writing && c.valid(data)
    ensures Accounted(c, head, o.(writing := true, buf := o.buf + c.enc(|o.chunks|, data), pos := 0,
                                  chunks := o.chunks + [data]))
  {
    hide EncodeAll, AllValid;
    var frame, all := c.enc(|o.chunks|, data), EncodeAll(c.enc, 0, o.chunks);
    EncodeAllSnoc(c.enc, 0, o.chunks, data);
    AllValidSnoc(o.chunks, c.valid, data);
    assert (o.buf + frame)[0..] == o.buf + frame;
    calc {
      o.wire + (o.buf + frame);
      (o.wire + o.buf) + frame;
      (head + all) + frame;
      head + (all + frame);
    }
  }

  lemma AccountedWrite(c: Coding, head: bytes, o: Outbox, pos: nat)
    requires Accounted(c, head, o) && o.writing && o.pos <= pos <= |o.buf|
    ensures Accounted(c, head, o.(pos := pos, wire := o.wire + o.buf[o.pos..pos]))
    ensures pos == |o.buf| ==>
              Accounted(c, head, o.(writing := false, buf := [], pos := pos, wire := o.wire + o.buf[o.pos..pos]))
  {
    assert o.buf[o.pos..] == o.buf[o.pos..pos] + o.buf[pos..];
  }

  lemma FlushedWire(c: Coding, head: bytes, o: Outbox)
    requires Accounted(c, head, o) && !o.writing && (o.buf == [] || o.chunks != [])
    ensures o.wire == head + EncodeAll(c.enc, 0, o.chunks)
  {
    assert o.wire + [] == o.wire;
  }

  lemma AccountedPrefix(c: Coding, head: bytes, o: Outbox)
    requires Accounted(c, head, o)
    ensures o.wire <= head + EncodeAll(c.enc, 0, o.chunks)
  {
  }

  /** Bytes of the head and the frames have been lost: what is out and what is to come is shorter than they are. */
  ghost predicate Short(c: Coding, head: bytes, o: Outbox) {
    && (o.writing ==> o.pos <= |o.buf|)
    && |o.wire| + |o.Unsent()| < |head + EncodeAll(c.enc, 0, o.chunks)|
  }

  /** The books of a writer, before and after its first failed write. */
  ghost predicate Books(c: Coding, head: bytes, o: Outbox, failed: bool) {
    if failed then Short(c, head, o) else Accounted(c, head, o)
  }

  lemma BooksFrame(c: Coding, head: bytes, o: Outbox, failed: bool, data: bytes)
    requires Books(c, head, o, failed) && !o.writing && c.valid(data)
    ensures Books(c, head, o.(writing := true, buf := o.buf + c.enc(|o.chunks|, data), pos := 0, chunks := o.chunks + [data]), failed)
  {
    if failed {
      hide EncodeAll;
      EncodeAllSnoc(c.enc, 0, o.chunks, data);
    } else {
      AccountedFrame(c, head, o, data);
    }
  }

  /** Bytes written stay in the books; to give up with bytes left to write is to lose them. */
  lemma BooksWrite(c: Coding, head: bytes, o: Outbox, failed: bool, pos: nat)
    requires Books(c, head, o, failed) && o.writing && o.pos <= pos <= |o.buf|
    ensures var after := o.(pos := pos, wire := o.wire + o.buf[o.pos..pos]);
            && Books(c, head, after, failed)
            && Books(c, head, after.(writing := false, buf := []), failed || pos < |o.buf|)
            && (!failed ==> after.wire <= head + EncodeAll(c.enc, 0, o.chunks))
  {
    hide EncodeAll, AllValid;
    if !failed {
      AccountedWrite(c, head, o, pos);
      var after := o.(pos := pos, wire := o.wire + o.buf[o.pos..pos]);
      AccountedPrefix(c, head, after);
      assert |after.wire + after.Unsent()| == |head + EncodeAll(c.enc, 0, o.chunks)|;
    }
  }

  /** Between two writes, the wire is the head and all frames exactly if no write has failed. */
  lemma BooksWire(c: Coding, head: bytes, o: Outbox, failed: bool)
    requires Books(c, head, o, failed) && !o.writing && (o.buf == [] || o.chunks != [])
    ensures o.wire == head + EncodeAll(c.enc, 0, o.chunks) <==> !failed
  {
    if !failed {
      FlushedWire(c, head, o);
    }
  }
}
