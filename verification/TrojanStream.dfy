/** The resumable reader and writer of Trojan datagrams. */
module TrojanStream {
  import opened Bytes
  import opened Framing
  import opened Pipe
  import opened Address
  import opened TrojanUdp

  datatype ReadState = AwaitKind | AwaitHead | AwaitPayload | Putting | Finished

  /** The payload bytes of a list of datagrams. */
  function Content(ds: seq<Datagram>): bytes {
    if ds == [] then [] else Content(ds[..|ds| - 1]) + ds[|ds| - 1].payload
  }

  lemma ContentSnoc(ds: seq<Datagram>, d: Datagram)
    ensures Content(ds + [d]) == Content(ds) + d.payload
  {
    assert (ds + [d])[..|ds|] == ds;
  }

  lemma NonEmptySnoc(ds: seq<Datagram>, d: Datagram)
    ensures NonEmpty(ds + [d]) == NonEmpty(ds) + (if d.payload == [] then [] else [d])
  {
    assert (ds + [d])[..|ds|] == ds;
  }

  /**
   A reader between two steps: its fields, and its history. `items` are the datagrams recognised so far, `delivered` what the
   caller was given, one entry per successful call. `split` records that some call had room for only part of a payload.
   */
  datatype View = View(state: ReadState, buffer: bytes, dataLength: nat, addr: Address, received: bytes,
                       items: seq<Datagram>, delivered: seq<Datagram>, head: bytes, split: bool)
  {
    function Residual(): bytes {
      if state == Putting && dataLength <= |buffer| then buffer[..dataLength] else []
    }

    function Wanted(): nat {
      if state == AwaitKind then 2 else dataLength
    }

    predicate Waiting() { state == AwaitKind || state == AwaitHead || state == AwaitPayload }

    function Fill(more: bytes): View {
      this.(buffer := buffer + more, received := received + more)
    }

    function Stop(): View { this.(state := Finished) }
  }

  /** Every datagram that has been recognised has been delivered whole, or is about to be. */
  ghost predicate Whole(v: View) {
    if v.state == Putting then
      && v.items != [] && v.dataLength <= |v.buffer|
      && (|| (v.dataLength == 0 && v.delivered == NonEmpty(v.items))
          || (v.items[|v.items| - 1] == Datagram(v.addr, v.buffer[..v.dataLength])
              && v.delivered == NonEmpty(v.items[..|v.items| - 1])))
    else v.delivered == NonEmpty(v.items)
  }

  /** The reader's invariant. */
  ghost predicate Consistent(v: View) {
    && Stable(Datagrams())
    && Content(v.items) == Content(v.delivered) + v.Residual()
    && (!v.split ==> Whole(v))
    && match v.state {
         case AwaitKind => Resumes(Datagrams(), v.received, v.items, v.buffer)
         case AwaitHead =>
           && Resumes(Datagrams(), v.received, v.items, v.buffer)
           && |v.buffer| >= 2 && HeadLen(v.buffer) == Item(v.dataLength, 2)
         case AwaitPayload =>
           && Resumes(Datagrams(), v.received, v.items, v.head + v.buffer)
           && |v.head| >= 2 && HeadLen(v.head) == Item(|v.head|, 2)
           && Parse(v.head) == Parsed(v.addr, |v.head| - 4)
           && v.dataLength == FromBigEndian16(v.head[|v.head| - 4..])
         case Putting =>
           |v.buffer| >= v.dataLength && Resumes(Datagrams(), v.received, v.items, v.buffer[v.dataLength..])
         case Finished => Decode(Datagrams(), 0, v.received).items == v.items
       }
  }

  ghost predicate Settled(v: View) {
    && Decode(Datagrams(), 0, v.received).items == v.items && Content(v.delivered) == Content(v.items)
    && (!v.split ==> v.delivered == NonEmpty(v.items))
  }

  lemma ConsistentFresh()
    ensures Consistent(View(AwaitKind, [], 0, DUMMY, [], [], [], [], false))
  {
    DatagramsStable();
    ResumesFromStart(Datagrams());
  }

  lemma ConsistentFill(v: View, more: bytes)
    requires Consistent(v) && v.Waiting()
    ensures Consistent(v.Fill(more))
  {
    hide Resumes, Stable, Parse;
    if v.state == AwaitPayload {
      ResumesMore(Datagrams(), v.received, v.items, v.head + v.buffer, more);
      assert v.head + v.buffer + more == v.head + (v.buffer + more);
    } else {
      ResumesMore(Datagrams(), v.received, v.items, v.buffer, more);
      if v.state == AwaitHead {
        assert HeadLen(v.buffer + more) == HeadLen(v.buffer);
      }
    }
  }

  /** A reader that is short of bytes holds back nothing, and may stop for good. */
  lemma ConsistentShort(v: View)
    requires Consistent(v) && v.Waiting() && |v.buffer| < v.Wanted()
    ensures Settled(v) && Settled(v.Stop()) && Consistent(v.Stop())
  {
    hide Resumes, Stable, Parse;
    if v.state == AwaitPayload {
      NextDatagramBody(v.head, v.buffer, v.addr);
      ResumesStuck(Datagrams(), v.received, v.items, v.head + v.buffer);
    } else {
      ResumesStuck(Datagrams(), v.received, v.items, v.buffer);
    }
    assert Content(v.delivered) + [] == Content(v.delivered);
  }

  lemma ConsistentKind(v: View)
    requires Consistent(v) && v.state == AwaitKind && |v.buffer| >= 2
    ensures var kind := HeadLen(v.buffer);
            && !kind.NeedMore?
            && (kind.Item? ==> Consistent(v.(state := AwaitHead, dataLength := kind.value)))
            && (kind.Broken? ==>
                  && Settled(v.Stop()) && Consistent(v.Stop())
                  && Decode(Datagrams(), 0, v.received).fault == Some(kind.why))
  {
    hide Resumes, Stable, Parse;
    if HeadLen(v.buffer).Broken? {
      ResumesStuck(Datagrams(), v.received, v.items, v.buffer);
      assert Content(v.delivered) + [] == Content(v.delivered);
    }
  }

  /** Reading the address, the length and the CRLF off a complete head. */
  lemma ConsistentHead(v: View)
    requires Consistent(v) && v.state == AwaitHead && |v.buffer| >= v.dataLength
    ensures v.dataLength >= 6
    ensures Parse(v.buffer).Parsed? ==>
              var used := Parse(v.buffer).used;
              && used == v.dataLength - 4
              && Consistent(v.(state := AwaitPayload, addr := Parse(v.buffer).address, head := v.buffer[..used + 4],
                               buffer := v.buffer[used + 4..], dataLength := FromBigEndian16(v.buffer[used..])))
    ensures Parse(v.buffer).Malformed? ==>
              && Settled(v.Stop()) && Consistent(v.Stop())
              && Decode(Datagrams(), 0, v.received).fault == Some(Parse(v.buffer).why)
  {
    hide Resumes, Stable, Parse;
    var h := v.dataLength;
    ParseOfHead(v.buffer, h);
    assert v.buffer[..h] + v.buffer[h..] == v.buffer;
    assert HeadLen(v.buffer[..h]) == HeadLen(v.buffer);
    if Parse(v.buffer).Malformed? {
      ResumesStuck(Datagrams(), v.received, v.items, v.buffer);
      assert Content(v.delivered) + [] == Content(v.delivered);
    } else {
      assert FromBigEndian16(v.buffer[..h][h - 4..]) == FromBigEndian16(v.buffer[h - 4..]);
    }
  }

  lemma ConsistentPayload(v: View)
    requires Consistent(v) && v.state == AwaitPayload && |v.buffer| >= v.dataLength
    ensures Consistent(v.(state := Putting, items := v.items + [Datagram(v.addr, v.buffer[..v.dataLength])]))
  {
    hide Resumes, Stable, Parse;
    var d, whole, used := Datagram(v.addr, v.buffer[..v.dataLength]), v.head + v.buffer, |v.head| + v.dataLength;
    NextDatagramBody(v.head, v.buffer, v.addr);
    ResumesFrame(Datagrams(), v.received, v.items, whole, d, used);
    assert whole[used..] == v.buffer[v.dataLength..];
    ContentSnoc(v.items, d);
    assert Content(v.delivered) + [] == Content(v.delivered);
    assert (v.items + [d])[..|v.items|] == v.items;
  }

  lemma ConsistentPut(v: View, m: nat)
    requires Consistent(v) && v.state == Putting && 0 < m <= v.dataLength
    ensures |v.buffer| >= v.dataLength
    ensures Consistent(v.(buffer := v.buffer[m..], dataLength := v.dataLength - m, addr := DUMMY,
                          delivered := v.delivered + [Datagram(v.addr, v.buffer[..m])],
                          split := v.split || m < v.dataLength))
  {
    hide Resumes, Stable, Whole, NonEmpty, Content, Parse, Decode, HeadLen;
    var d, rest := Datagram(v.addr, v.buffer[..m]), v.buffer[m..];
    assert rest[v.dataLength - m..] == v.buffer[v.dataLength..];
    assert v.buffer[..v.dataLength] == d.payload + rest[..v.dataLength - m];
    ContentSnoc(v.delivered, d);
    Associates(Content(v.delivered), d.payload, rest[..v.dataLength - m]);
    if !v.split && m == v.dataLength {
      WholePut(v);
    }
  }

  lemma Associates(a: bytes, b: bytes, c: bytes)
    ensures a + (b + c) == a + b + c
  {
  }

  /** What a reader that has never split a datagram is about to deliver is the last datagram it recognised. */
  lemma LastOfPut(v: View, m: nat)
    requires Consistent(v) && v.state == Putting && 0 < m <= v.dataLength
    ensures |v.buffer| >= v.dataLength
    ensures !v.split ==>
              && v.items != []
              && v.items[|v.items| - 1] == Datagram(v.addr, v.buffer[..m] + v.buffer[m..][..v.dataLength - m])
  {
    hide Resumes, Stable, Content, NonEmpty, Parse, Decode, HeadLen;
    assert |v.buffer| >= v.dataLength;
    assert v.buffer[..v.dataLength] == v.buffer[..m] + v.buffer[m..][..v.dataLength - m];
  }

  lemma WholePut(v: View)
    requires v.state == Putting && 0 < v.dataLength && Whole(v)
    ensures Whole(v.(buffer := v.buffer[v.dataLength..], dataLength := 0, addr := DUMMY,
                     delivered := v.delivered + [Datagram(v.addr, v.buffer[..v.dataLength])]))
  {
    hide NonEmpty;
    var d, before := Datagram(v.addr, v.buffer[..v.dataLength]), v.items[..|v.items| - 1];
    assert v.items == before + [d];
    NonEmptySnoc(before, d);
  }

  /** The next datagram can be awaited exactly when nothing of this one is left to deliver. */
  lemma ConsistentNext(v: View)
    requires Consistent(v) && v.state == Putting
    ensures Consistent(v.(state := AwaitKind)) <==> v.dataLength == 0
  {
    hide Resumes, Stable;
    if v.dataLength == 0 {
      assert v.buffer[0..] == v.buffer && v.buffer[..0] == [];
    } else {
      assert |Content(v.delivered) + v.Residual()| > |Content(v.delivered) + []|;
    }
  }

  lemma ItemsReceived(v: View)
    requires Consistent(v)
    ensures v.items <= Decode(Datagrams(), 0, v.received).items
  {
    match v.state {
      case AwaitKind => ResumesDone(Datagrams(), v.received, v.items, v.buffer);
      case AwaitHead => ResumesDone(Datagrams(), v.received, v.items, v.buffer);
      case AwaitPayload => ResumesDone(Datagrams(), v.received, v.items, v.head + v.buffer);
      case Putting => ResumesDone(Datagrams(), v.received, v.items, v.buffer[v.dataLength..]);
      case Finished =>
    }
  }

  lemma WholePrefix(v: View)
    requires Whole(v)
    ensures v.delivered <= NonEmpty(v.items)
  {
    if v.items != [] {
      var last := v.items[|v.items| - 1];
      assert v.items == v.items[..|v.items| - 1] + [last];
      NonEmptySnoc(v.items[..|v.items| - 1], last);
    }
  }

  /** What has been delivered is a prefix of what was received, as payload bytes and, if never split, as datagrams. */
  lemma ConsistentPrefix(v: View)
    requires Consistent(v)
    ensures Content(v.delivered) <= Content(Decode(Datagrams(), 0, v.received).items)
    ensures !v.split ==> v.delivered <= NonEmpty(Decode(Datagrams(), 0, v.received).items)
  {
    hide Resumes, Stable, Decode, Whole, NonEmpty, Content, Parse;
    ItemsReceived(v);
    var all := Decode(Datagrams(), 0, v.received).items;
    assert all == v.items + all[|v.items|..];
    ContentAppend(v.items, all[|v.items|..]);
    NonEmptyAppend(v.items, all[|v.items|..]);
    if !v.split {
      WholePrefix(v);
    }
  }

  lemma {:induction false} ContentAppend(a: seq<Datagram>, b: seq<Datagram>)
    ensures Content(a + b) == Content(a) + Content(b)
  {
    if b == [] {
      assert a + b == a;
    } else {
      assert (a + b)[..|a + b| - 1] == a + b[..|b| - 1];
      ContentAppend(a, b[..|b| - 1]);
    }
  }

  /** `TrojanUdpReader` */
  class TrojanUdpReader {
    var state: ReadState
    var addr: Address
    var buffer: bytes
    var dataLength: nat
    var readZero: bool
    ghost var received: bytes
    ghost var items: seq<Datagram>
    ghost var delivered: seq<Datagram>
    ghost var head: bytes
    ghost var split: bool

    ghost function Now(): View
      reads this
    {
      View(state, buffer, dataLength, addr, received, items, delivered, head, split)
    }

    ghost predicate Valid()
      reads this
    {
      Consistent(Now())
    }

    constructor ()
      ensures Valid() && state == AwaitKind && received == [] && delivered == [] && !split
    {
      state, addr, buffer, dataLength, readZero := AwaitKind, DUMMY, [], 0, false;
      received, items, delivered, head, split := [], [], [], [], false;
      new;
      ConsistentFresh();
    }

    /** `co_await(self.read_at_least(..))` and the error handling behind it. */
    method Fill(pipe: Channel) returns (r: Poll<()>)
      requires Valid() && pipe.Valid() && Now().Waiting()
      modifies `buffer, `readZero, `received, `state, pipe`taken, pipe`turns, pipe`last
      ensures Polled(r.Pending?, |pipe.turns|, |old(pipe.turns)|)
      ensures Valid() && pipe.Valid() && Took(pipe, old(pipe.taken), |old(pipe.turns)|, old(received))
      ensures !r.Failed? ==> state == old(state)
      ensures r.Ready? <==> Now().Waiting() && |buffer| >= Now().Wanted()
      ensures r.Pending? ==> pipe.last == Pending
      ensures r.Failed? ==> state == Finished && (readZero || (r.error == Transport && pipe.last == r))
      ensures !r.Ready? ==> Settled(Now())
      ensures r.Failed? && readZero ==> pipe.closed && pipe.taken == |pipe.sent|
      ensures |pipe.turns| == |old(pipe.turns)| ==> buffer == old(buffer)
    {
      hide Channel.Fair, Consistent, Settled;
      ghost var v := Now();
      var length := if state == AwaitKind then 2 else dataLength;
      r, buffer, readZero := Pipe.ReadAtLeast(pipe, buffer, length);
      ghost var more := pipe.sent[old(pipe.taken)..pipe.taken];
      received := received + more;
      assert Now() == v.Fill(more);
      ConsistentFill(v, more);
      if !r.Ready? {
        ConsistentShort(v.Fill(more));
      }
      if r.Failed? {
        state := Finished;
        assert Now() == v.Fill(more).Stop();
      }
    }

    method ReadKind() returns (fault: Option<Fault>)
      requires Valid() && state == AwaitKind && |buffer| >= 2
      modifies `state, `dataLength
      ensures Valid() && (fault == None ==> state == AwaitHead)
      ensures fault.Some? ==> state == Finished && Settled(Now())
      ensures fault.Some? ==> Decode(Datagrams(), 0, received).fault == fault
    {
      hide Consistent, Settled, Decode;
      ConsistentKind(Now());
      ghost var v := Now();
      var kind := HeadLen(buffer);
      if kind.Broken? {
        state := Finished;
        assert Now() == v.Stop();
        return Some(kind.why);
      }
      dataLength, state := kind.value, AwaitHead;
      fault := None;
    }

    method ReadHead() returns (fault: Option<Fault>)
      requires Valid() && state == AwaitHead && |buffer| >= dataLength
      modifies `state, `dataLength, `addr, `buffer, `head
      ensures Valid() && (fault == None ==> state == AwaitPayload && |buffer| < |old(buffer)|)
      ensures fault.Some? ==> state == Finished && Settled(Now())
      ensures fault.Some? ==> Decode(Datagrams(), 0, received).fault == fault
    {
      hide Consistent, Settled, Decode, Parse;
      ghost var v := Now();
      ConsistentHead(v);
      var parsed := Parse(buffer);
      if parsed.Malformed? {
        state := Finished;
        assert Now() == v.Stop();
        return Some(parsed.why);
      }
      addr := parsed.address;
      head := buffer[..parsed.used + 4];
      dataLength := FromBigEndian16(buffer[parsed.used..]);
      buffer := buffer[parsed.used + 4..];
      state := AwaitPayload;
      fault := None;
    }

    /** The last datagram recognised starts with `put`, came from `from`, and goes on with what is left in the buffer. */
    ghost predicate LastIs(put: bytes, from: Address)
      reads this
    {
      items != [] && dataLength <= |buffer| && items[|items| - 1] == Datagram(from, put + buffer[..dataLength])
    }

    /** Hands out payload bytes together with the address, which is taken, not copied. */
    method Put(room: nat) returns (put: bytes, from: Address)
      requires Valid() && state == Putting
      modifies `buffer, `dataLength, `state, `delivered, `addr, `split
      ensures Valid() <==> room > 0 || old(dataLength) == 0
      ensures |put| == Least(old(dataLength), room) && dataLength == old(dataLength) - |put|
      ensures put == [] ==> state == AwaitKind && buffer == old(buffer) && delivered == old(delivered) && split == old(split)
      ensures put != [] ==> state == Putting && delivered == old(delivered) + [Datagram(from, put)]
      ensures split == (old(split) || (put != [] && dataLength > 0))
      ensures put != [] && !old(split) ==> LastIs(put, from)
    {
      hide Consistent;
      ghost var v := Now();
      var minimal := if dataLength < room then dataLength else room;
      if minimal == 0 {
        ConsistentNext(v);
        state := AwaitKind;
        return [], DUMMY;
      }
      ConsistentPut(v, minimal);
      LastOfPut(v, minimal);
      put, from := buffer[..minimal], addr;
      split := split || minimal < dataLength;
      delivered := delivered + [Datagram(addr, put)];
      dataLength := dataLength - minimal;
      buffer := buffer[minimal..];
      addr := DUMMY;
    }

    ghost predicate Took(pipe: Channel, taken: nat, turns: nat, before: bytes)
      reads this, pipe
    {
      && taken <= pipe.taken <= |pipe.sent| && |pipe.turns| <= turns
      && (|pipe.turns| == turns ==> pipe.taken == taken)
      && received == before + pipe.sent[taken..pipe.taken]
    }

    /** What the result of a call that hands over nothing tells the caller. */
    ghost predicate Explained(r: Poll<()>, pipe: Channel)
      reads this, pipe
    {
      && Settled(Now())
      && (r.Ready? ==> readZero && pipe.closed && pipe.taken == |pipe.sent|)
      && (r.Pending? ==> pipe.last == Pending)
      && (r.Failed? ==> r.error.Protocol? || (r.error.Transport? && pipe.last == r))
      && (r.Failed? && r.error.Protocol? ==> Decode(Datagrams(), 0, received).fault == Some(r.error.why))
    }

    /** Reads on until a state is complete; the order of the states within one frame. */
    function Rank(): nat
      reads `state
    {
      match state
      case AwaitPayload => 3
      case Putting => 2
      case AwaitKind => 1
      case _ => 0
    }

    method Step(pipe: Channel, room: nat) returns (r: Option<Poll<()>>, put: bytes, from: Address)
      requires Valid() && pipe.Valid() && room > 0 && state != Finished
      modifies this, pipe`taken, pipe`turns, pipe`last
      ensures Polled(r == Some(Poll.Pending), |pipe.turns|, |old(pipe.turns)|)
      ensures Valid() && pipe.Valid() && Took(pipe, old(pipe.taken), |old(pipe.turns)|, old(received))
      ensures delivered == old(delivered) + (if put == [] then [] else [Datagram(from, put)])
      ensures |put| <= room && split == (old(split) || (put != [] && dataLength > 0))
      ensures put != [] && !old(split) ==> LastIs(put, from)
      ensures put != [] ==> r == Some(Ready(())) && (|put| == room || (state == Putting && dataLength == 0))
      ensures r.Some? && put == [] ==> Explained(r.value, pipe)
      ensures r.Some? ==> (state == Finished <==> !r.value.Pending? && put == [])
      ensures r == None ==> state != Finished
      ensures r == None && |pipe.turns| == |old(pipe.turns)| ==>
                || |buffer| < |old(buffer)|
                || (|buffer| == |old(buffer)| && Rank() < old(Rank()))
    {
      hide Channel.Fair, Consistent, Settled;
      put, from := [], DUMMY;
      if state == Putting {
        put, from := Put(room);
        return if put == [] then None else Some(Ready(())), put, from;
      }
      var filled := Fill(pipe);
      if !filled.Ready? {
        return Some(if readZero && filled.Failed? then Ready(()) else filled), [], DUMMY;
      }
      var fault: Option<Fault> := None;
      match state {
        case AwaitKind => fault := ReadKind();
        case AwaitHead => fault := ReadHead();
        case AwaitPayload => OpenPayload();
      }
      r := if fault.Some? then Some(Failed(Protocol(fault.value))) else None;
    }

    /** The whole payload is in the buffer. */
    method OpenPayload()
      requires Valid() && state == AwaitPayload && |buffer| >= dataLength
      modifies `state, `items
      ensures Valid() && state == Putting
    {
      hide Consistent;
      ConsistentPayload(Now());
      items := items + [Datagram(addr, buffer[..dataLength])];
      state := Putting;
    }

    /** `poll_recv_from`: a successful call hands over payload bytes and the address they came with. */
    method PollRecvFrom(pipe: Channel, room: nat) returns (r: Poll<()>, put: bytes, from: Address)
      requires Valid() && pipe.Valid() && room > 0
      modifies this, pipe`taken, pipe`turns, pipe`last
      ensures Polled(r.Pending?, |pipe.turns|, |old(pipe.turns)|)
      ensures Valid() && pipe.Valid() && Took(pipe, old(pipe.taken), |old(pipe.turns)|, old(received))
      ensures delivered == old(delivered) + (if put == [] then [] else [Datagram(from, put)])
      ensures |put| <= room && split == (old(split) || (put != [] && dataLength > 0))
      ensures put != [] && !old(split) ==> LastIs(put, from)
      ensures put != [] ==> r == Ready(()) && (|put| == room || (state == Putting && dataLength == 0))
      ensures put == [] && old(state) != Finished ==> Explained(r, pipe)
      ensures old(state) != Finished ==> (state == Finished <==> !r.Pending? && put == [])
      ensures old(state) == Finished ==> r == Failed(UnexpectedEof) && put == []
    {
      hide Channel.Fair, Consistent, Settled;
      put, from := [], DUMMY;
      if state == Finished {
        return Failed(UnexpectedEof), [], DUMMY;
      }
      var outcome: Option<Poll<()>> := None;
      while outcome == None
        invariant Valid() && pipe.Valid() && Took(pipe, old(pipe.taken), |old(pipe.turns)|, old(received))
        invariant delivered == old(delivered) + (if put == [] then [] else [Datagram(from, put)])
        invariant |put| <= room && split == (old(split) || (put != [] && dataLength > 0))
        invariant put != [] && !old(split) ==> LastIs(put, from)
        invariant put != [] ==> outcome == Some(Ready(())) && (|put| == room || (state == Putting && dataLength == 0))
        invariant Polled(outcome == Some(Poll.Pending), |pipe.turns|, |old(pipe.turns)|)
        invariant outcome == None ==> state != Finished
        invariant outcome.Some? && put == [] ==> Explained(outcome.value, pipe)
        invariant outcome.Some? ==> (state == Finished <==> !outcome.value.Pending? && put == [])
        decreases outcome == None, |pipe.turns|, |buffer|, Rank()
      {
        outcome, put, from := Step(pipe, room);
      }
      r := outcome.value;
    }
  }

  /**
   The receive path end to end, on any part of an honest wire: payload bytes arrive in order, and as long as no call was short
   of room the calls deliver the datagrams sent, one each, with their own addresses; all of them once the wire is drained.
   */
  lemma ReceivePath(r: TrojanUdpReader, sent: seq<Datagram>)
    requires r.Valid() && AllValid(sent, Sendable) && r.received <= EncodeAll(Framer(), 0, sent)
    ensures Content(r.delivered) <= Content(sent)
    ensures !r.split ==> r.delivered <= sent
    ensures Decode(Datagrams(), 0, r.received).fault == None
    ensures (&& !r.split && r.received == EncodeAll(Framer(), 0, sent) && Settled(r.Now())) ==> r.delivered == sent
  {
    hide Consistent, NonEmpty, Content;
    DatagramsStable();
    FramesInverse();
    HonestPrefix(Datagrams(), Framer(), Sendable, sent, r.received);
    ConsistentPrefix(r.Now());
    NonEmptyOfSendable(sent);
    var got := Decode(Datagrams(), 0, r.received).items;
    assert sent == got + sent[|got|..];
    ContentAppend(got, sent[|got|..]);
    NonEmptyAppend(got, sent[|got|..]);
  }

  datatype WriteState = Idle | WriteHead | WriteBody | Ended

  /** The wire `start` with the first `cut` bytes of a datagram's head, and `pos` of its payload, behind it. */
  function Torn(start: bytes, d: Datagram, cut: nat, pos: nat): bytes
    requires cut <= |Head(d)| && pos <= |d.payload|
  {
    start + Head(d)[..cut] + d.payload[..pos]
  }

  /** Torn anywhere in its head, a datagram is not the frame it should be. */
  lemma TornIff(start: bytes, d: Datagram, cut: nat)
    requires cut <= |Head(d)|
    ensures Torn(start, d, cut, |d.payload|) == start + Frame(d) <==> cut == |Head(d)|
  {
    hide Head;
    assert d.payload[..|d.payload|] == d.payload;
    if cut == |Head(d)| {
      assert Head(d)[..cut] == Head(d);
      assert start + Head(d) + d.payload == start + (Head(d) + d.payload);
    } else {
      assert |Torn(start, d, cut, |d.payload|)| < |start + Frame(d)|;
    }
  }

  lemma TornMore(start: bytes, d: Datagram, cut: nat, pos: nat, pos': nat)
    requires cut <= |Head(d)| && pos <= pos' <= |d.payload|
    ensures Torn(start, d, cut, pos) + d.payload[pos..pos'] == Torn(start, d, cut, pos')
  {
    hide Head;
    assert d.payload[..pos'] == d.payload[..pos] + d.payload[pos..pos'];
  }

  lemma TornHead(start: bytes, d: Datagram, pos: nat, pos': nat)
    requires pos <= pos' <= |Head(d)|
    ensures Torn(start, d, pos, 0) + Head(d)[pos..pos'] == Torn(start, d, pos', 0)
  {
    hide Head;
    assert Head(d)[..pos'] == Head(d)[..pos] + Head(d)[pos..pos'];
  }

  /**
   A writer between two steps: its fields, and its history. `log` are the datagrams begun, `broken` says that the transport has
   failed, or taken nothing, in some write. Of the last datagram begun, `start` is the wire before it, `cut` how much of its head
   got out, and `spent` the turns used for it.
   */
  datatype Outgoing = Outgoing(state: WriteState, buffer: bytes, pos: nat, dataLen: nat, wire: bytes, log: seq<Datagram>,
                               broken: bool, start: bytes, cut: nat, spent: seq<Turn>)
  {
    function Pending(): Datagram
      requires log != []
    {
      log[|log| - 1]
    }

    predicate Busy() { state == WriteHead || state == WriteBody }

    /** After a write that moved `more` and used `used`. */
    function Wrote(more: bytes, used: seq<Turn>, failed: bool): Outgoing {
      this.(pos := pos + |more|, wire := wire + more, spent := spent + used, broken := broken || failed)
    }

    function BodyNext(): Outgoing { this.(state := WriteBody, buffer := [], cut := pos, pos := 0) }

    function Done(): Outgoing { this.(state := Idle, pos := 0) }

    function Begun(d: Datagram): Outgoing {
      this.(state := WriteHead, buffer := Head(d), dataLen := |d.payload|, log := log + [d], start := wire, cut := 0, spent := [])
    }
  }

  /** The outcome of a step: the writer after it, what is returned, and what it added to the wire. */
  datatype Sent = Sent(o: Outgoing, r: Poll<nat>, more: bytes, turns: seq<Turn>)

  /** The head phase: it ends when the head is out, but also, without a word, when the transport fails. */
  function SendHead(o: Outgoing, turns: seq<Turn>): Sent
    requires o.pos <= |o.buffer|
  {
    var p := Pushing(turns, |o.buffer| - o.pos);
    var more := o.buffer[o.pos..o.pos + p.moved];
    var o' := o.Wrote(more, Used(turns, p.turns), p.r.Failed?);
    if p.r.Pending? then Sent(o', Poll.Pending, more, p.turns) else Sent(o'.BodyNext(), Ready(0), more, p.turns)
  }

  function SendBody(o: Outgoing, data: bytes, turns: seq<Turn>): Sent
    requires o.pos <= |data|
  {
    var p := Pushing(turns, |data| - o.pos);
    var more := data[o.pos..o.pos + p.moved];
    var o' := o.Wrote(more, Used(turns, p.turns), p.r.Failed?);
    match p.r
    case Pending => Sent(o', Poll.Pending, more, p.turns)
    case Ready(_) => Sent(o'.Done(), Ready(o.dataLen), more, p.turns)
    case Failed(e) => Sent(o'.Done(), Failed(e), more, p.turns)
  }

  /** One poll with a datagram under way. */
  function Send(o: Outgoing, data: bytes, turns: seq<Turn>): Sent
    requires o.Busy() && (if o.state == WriteHead then o.pos <= |o.buffer| else o.pos <= |data|)
  {
    if o.state == WriteBody then SendBody(o, data, turns) else
    var h := SendHead(o, turns);
    if h.r.Pending? then h else
    var b := SendBody(h.o, data, h.turns);
    b.(more := h.more + b.more)
  }

  /** What is out of the datagram under way: its head is whole exactly as long as no turn used for it was faulty. */
  ghost predicate Out(o: Outgoing) {
    && o.log != [] && o.dataLen == |o.Pending().payload| && (Faulty(o.spent) ==> o.broken)
    && (!o.broken ==> o.start == EncodeAll(Framer(), 0, o.log[..|o.log| - 1]))
    && if o.state == WriteHead then
         && o.buffer == Head(o.Pending()) && o.pos <= |o.buffer|
         && o.wire == Torn(o.start, o.Pending(), o.pos, 0) && !Faulty(o.spent)
       else o.buffer == [] && o.pos <= |o.Pending().payload| && TornAt(o, o.pos)
  }

  /** The last datagram is out up to byte `pos` of its payload, its head torn if and only if a turn used for it was faulty. */
  ghost predicate TornAt(o: Outgoing, pos: nat)
    requires o.log != [] && pos <= |o.Pending().payload|
  {
    && o.cut <= |Head(o.Pending())| && o.wire == Torn(o.start, o.Pending(), o.cut, pos)
    && (o.cut < |Head(o.Pending())| <==> Faulty(o.spent))
  }

  /** The writer's invariant. */
  ghost predicate Good(o: Outgoing) {
    if o.Busy() then Out(o)
    else (o.state == Idle ==> o.buffer == [] && o.pos == 0) && (!o.broken ==> o.wire == EncodeAll(Framer(), 0, o.log))
  }

  /** What a step does to the history, apart from the bytes. */
  ghost predicate Kept(o: Outgoing, s: Sent, turns: seq<Turn>) {
    && s.o.log == o.log && s.o.start == o.start && s.o.wire == o.wire + s.more
    && Spent(turns, s.turns) && s.o.spent == o.spent + Used(turns, s.turns)
    && s.o.broken == (o.broken || Faulty(Used(turns, s.turns)))
  }

  lemma GoodBegun(o: Outgoing, d: Datagram)
    requires Good(o) && o.state == Idle
    ensures Good(o.Begun(d))
  {
    hide EncodeAll, Head;
    assert (o.log + [d])[..|o.log|] == o.log;
    assert o.wire == Torn(o.wire, d, 0, 0);
  }

  lemma SendHeadGood(o: Outgoing, turns: seq<Turn>)
    requires Good(o) && o.state == WriteHead
    ensures o.pos <= |o.buffer|
    ensures var s := SendHead(o, turns);
            Good(s.o) && Kept(o, s, turns) && s.o.Pending() == o.Pending()
            && s.o.state == if s.r.Pending? then WriteHead else WriteBody
  {
    hide EncodeAll, Head, Pushing, Faulty, Used, Spent, Torn;
    var p := Pushing(turns, |o.buffer| - o.pos);
    PushingFails(turns, |o.buffer| - o.pos);
    FaultyAppend(o.spent, Used(turns, p.turns));
    TornHead(o.start, o.Pending(), o.pos, o.pos + p.moved);
  }

  lemma SendBodyGood(o: Outgoing, turns: seq<Turn>)
    requires Good(o) && o.state == WriteBody
    ensures o.log != [] && o.pos <= |o.Pending().payload|
    ensures var s := SendBody(o, o.Pending().payload, turns);
            && Good(s.o) && Kept(o, s, turns) && s.o.Pending() == o.Pending()
            && (s.r.Failed? <==> Faulty(Used(turns, s.turns)))
            && (s.r.Ready? ==> s.r.value == |o.Pending().payload| && TornAt(s.o, |o.Pending().payload|))
  {
    hide EncodeAll, Head, Pushing, Faulty, Used, Spent, Torn;
    var d := o.Pending();
    var p := Pushing(turns, |d.payload| - o.pos);
    PushingFails(turns, |d.payload| - o.pos);
    FaultyAppend(o.spent, Used(turns, p.turns));
    TornMore(o.start, d, o.cut, o.pos, o.pos + p.moved);
    if p.r.Ready? {
      TornIff(o.start, d, o.cut);
      EncodeAllSnoc(Framer(), 0, o.log[..|o.log| - 1], d);
      assert o.log == o.log[..|o.log| - 1] + [d];
      assert Framer()(|o.log| - 1, d) == Frame(d);
    }
  }

  lemma KeptTwice(o: Outgoing, h: Sent, b: Sent, turns: seq<Turn>)
    requires Kept(o, h, turns) && Kept(h.o, b, h.turns)
    ensures Kept(o, b.(more := h.more + b.more), turns)
  {
    hide Faulty, Used, Spent;
    SpentTwice(turns, h.turns, b.turns);
    assert o.wire + (h.more + b.more) == o.wire + h.more + b.more;
    assert o.spent + Used(turns, h.turns) + Used(h.turns, b.turns) == o.spent + (Used(turns, h.turns) + Used(h.turns, b.turns));
  }

  /** One poll with a datagram under way keeps the accounts, however it goes. */
  lemma SendGood(o: Outgoing, turns: seq<Turn>)
    requires Good(o) && o.Busy()
    ensures o.log != [] && (if o.state == WriteHead then o.pos <= |o.buffer| else o.pos <= |o.Pending().payload|)
    ensures var s := Send(o, o.Pending().payload, turns);
            && Good(s.o) && Kept(o, s, turns) && s.o.Pending() == o.Pending()
            && (s.r.Pending? <==> s.o.Busy()) && (!s.r.Pending? ==> s.o.state == Idle) && (s.r.Failed? ==> s.o.broken)
            && (s.r.Ready? ==> s.r.value == |o.Pending().payload| && TornAt(s.o, |o.Pending().payload|))
  {
    hide EncodeAll, Head, Pushing, Faulty, Used, Spent, Torn, TornAt, Kept;
    if o.state == WriteBody {
      SendBodyGood(o, turns);
    } else {
      SendHeadGood(o, turns);
      var h := SendHead(o, turns);
      if !h.r.Pending? {
        SendBodyGood(h.o, turns := h.turns);
        var b := SendBody(h.o, o.Pending().payload, h.turns);
        KeptTwice(o, h, b, turns);
      }
    }
  }

  /** `TrojanUdpWriter` */
  class TrojanUdpWriter {
    var state: WriteState
    var buffer: bytes
    var pos: nat
    var dataLen: nat
    ghost var wire: bytes
    ghost var log: seq<Datagram>
    ghost var broken: bool
    ghost var start: bytes
    ghost var cut: nat
    ghost var spent: seq<Turn>

    ghost function Now(): Outgoing
      reads this
    {
      Outgoing(state, buffer, pos, dataLen, wire, log, broken, start, cut, spent)
    }

    ghost predicate Valid()
      reads this
    {
      Good(Now())
    }

    constructor ()
      ensures Valid() && state == Idle && wire == [] && log == [] && !broken
    {
      state, buffer, pos, dataLen := Idle, [], 0, 0;
      wire, log, broken, start, cut, spent := [], [], false, [], 0, [];
    }

    /** The head; an error of the transport ends this phase like a success does, and is not reported. */
    method PushHead(pipe: Channel) returns (pending: bool)
      requires pipe.Valid() && state == WriteHead && pos <= |buffer|
      modifies this, pipe`sent, pipe`pushes, pipe`last
      ensures var s := SendHead(old(Now()), old(pipe.pushes));
              Now() == s.o && pending == s.r.Pending? && Moved(pipe, s, old(pipe.sent))
      ensures Polled(pending, |pipe.pushes|, |old(pipe.pushes)|) && (pending ==> pipe.last == Poll.Pending)
    {
      hide Channel.Fair, Pushing, Used, Polled;
      ghost var o, turns := Now(), pipe.pushes;
      var r: Poll<()>;
      r, pos := WriteRest(pipe, buffer, pos);
      ghost var more := o.buffer[o.pos..pos];
      wire, spent, broken := wire + more, spent + Used(turns, pipe.pushes), broken || r.Failed?;
      assert Now() == o.Wrote(more, Used(turns, pipe.pushes), r.Failed?);
      pending := r.Pending?;
      if !pending {
        EndHead();
      }
    }

    method EndHead()
      modifies `state, `buffer, `pos, `cut
      ensures Now() == old(Now()).BodyNext()
    {
      cut := pos;
      pos, buffer, state := 0, [], WriteBody;
    }

    /** The payload, which the caller provides anew on every poll. */
    method PushBody(pipe: Channel, data: bytes) returns (r: Poll<nat>)
      requires pipe.Valid() && state == WriteBody && pos <= |data|
      modifies this, pipe`sent, pipe`pushes, pipe`last
      ensures var s := SendBody(old(Now()), data, old(pipe.pushes));
              Now() == s.o && r == s.r && Moved(pipe, s, old(pipe.sent))
      ensures Polled(r.Pending?, |pipe.pushes|, |old(pipe.pushes)|) && Honest(r, pipe)
    {
      hide Channel.Fair, Pushing, Used, Polled;
      ghost var o, turns := Now(), pipe.pushes;
      var rest: Poll<()>;
      rest, pos := WriteRest(pipe, data, pos);
      ghost var more := data[o.pos..pos];
      wire, spent, broken := wire + more, spent + Used(turns, pipe.pushes), broken || rest.Failed?;
      assert Now() == o.Wrote(more, Used(turns, pipe.pushes), rest.Failed?);
      match rest
      case Pending => r := Poll.Pending;
      case Ready(_) =>
        pos, state := 0, Idle;
        r := Ready(dataLen);
      case Failed(e) =>
        pos, state := 0, Idle;
        r := Failed(e);
    }

    /** The transport after a step. */
    static ghost predicate Moved(pipe: Channel, s: Sent, before: bytes)
      reads pipe
    {
      pipe.Valid() && pipe.pushes == s.turns && pipe.sent == before + s.more
    }

    /** Head and payload, as far as this poll gets. */
    method Push(pipe: Channel, data: bytes) returns (r: Poll<nat>)
      requires pipe.Valid() && Now().Busy() && (if state == WriteHead then pos <= |buffer| else pos <= |data|)
      modifies this, pipe`sent, pipe`pushes, pipe`last
      ensures var s := Send(old(Now()), data, old(pipe.pushes));
              Now() == s.o && r == s.r && Moved(pipe, s, old(pipe.sent))
      ensures Polled(r.Pending?, |pipe.pushes|, |old(pipe.pushes)|) && Honest(r, pipe)
    {
      hide Channel.Fair, Pushing, Used;
      ghost var before := pipe.sent;
      ghost var h := SendHead(if state == WriteHead then Now() else Now().(pos := 0), pipe.pushes);
      if state == WriteHead {
        var pending := PushHead(pipe);
        if pending {
          return Poll.Pending;
        }
      }
      ghost var b := SendBody(Now(), data, pipe.pushes);
      assert before + (h.more + b.more) == before + h.more + b.more;
      r := PushBody(pipe, data);
    }

    /** One poll with a datagram under way. */
    method Resume(pipe: Channel, data: bytes) returns (r: Poll<nat>)
      requires Valid() && pipe.Valid() && Now().Busy() && log != [] && data == Now().Pending().payload
      requires if state == WriteHead then pos <= |buffer| else pos <= |data|
      modifies this, pipe`sent, pipe`pushes, pipe`last
      ensures Valid() && pipe.Valid() && Polled(r.Pending?, |pipe.pushes|, |old(pipe.pushes)|) && Honest(r, pipe)
      ensures var s := Send(old(Now()), data, old(pipe.pushes)); r == s.r && pipe.sent == old(pipe.sent) + s.more
      ensures Grew(old(pipe.sent), pipe.sent) && wire == old(wire) + More(old(pipe.sent), pipe.sent)
      ensures log == old(log) && start == old(start) && spent == old(spent) + Used(old(pipe.pushes), pipe.pushes)
      ensures (if r.Pending? then Now().Busy() else state == Idle) && Now().Pending().payload == data
      ensures Spent(old(pipe.pushes), pipe.pushes)
      ensures broken == (old(broken) || Faulty(Used(old(pipe.pushes), pipe.pushes))) && (r.Failed? ==> broken)
      ensures r.Ready? ==> r.value == |data| && TornAt(Now(), |data|)
    {
      hide Channel.Fair, Good, TornAt, Send, Faulty, Spent, Used, Head, Grew, More;
      SendGood(Now(), pipe.pushes);
      GrewBy(pipe.sent, Send(Now(), data, pipe.pushes).more);
      r := Push(pipe, data);
    }

    /** A datagram under way is still within its head or its payload. */
    lemma InRange()
      requires Valid() && Now().Busy()
      ensures log != [] && if state == WriteHead then pos <= |buffer| else pos <= |Now().Pending().payload|
    {
    }

    /**
     `poll_send_to`. The caller polls again with the same payload after `Pending`. An empty payload ends the generator for good.
     An error of the transport in the head is lost and the datagram reported as sent; `SentWholeIff` says when it was. The last
     clause gives a schedule on which that happens.
     */
    method PollSendTo(pipe: Channel, data: bytes, addr: Address) returns (r: Poll<nat>)
      requires Valid() && pipe.Valid()
      requires state == WriteHead || state == WriteBody ==> log != [] && data == Now().Pending().payload
      modifies this, pipe`sent, pipe`pushes, pipe`last
      ensures Valid() && pipe.Valid() && Polled(r.Pending?, |pipe.pushes|, |old(pipe.pushes)|) && (state != Ended ==> Honest(r, pipe))
      ensures Grew(old(pipe.sent), pipe.sent) && wire == old(wire) + More(old(pipe.sent), pipe.sent)
      ensures log == if old(state) == Idle && data != [] then old(log) + [Datagram(addr, data)] else old(log)
      ensures state == Ended <==> old(state) == Ended || (old(state) == Idle && data == [])
      ensures old(state) == Ended ==> r == Failed(UnexpectedEof)
      ensures old(state) == Idle && data == [] ==> r == Ready(0)
      ensures state != Ended ==> if r.Pending? then Now().Busy() else state == Idle
      ensures r.Failed? && state != Ended ==> broken
      ensures Spent(old(pipe.pushes), pipe.pushes)
      ensures broken == (old(broken) || Faulty(Used(old(pipe.pushes), pipe.pushes)))
      ensures state != Ended ==>
                && start == (if old(state) == Idle then old(wire) else old(start))
                && spent == (if old(state) == Idle then [] else old(spent)) + Used(old(pipe.pushes), pipe.pushes)
      ensures state != Ended ==> log != [] && Now().Pending().payload == data
      ensures r.Ready? && state != Ended ==> r.value == |data| && TornAt(Now(), |data|)
      ensures (&& old(state) == Idle && data != [] && |old(pipe.pushes)| >= 2 && old(pipe.pushes)[0].Fail?
               && old(pipe.pushes)[1].Move? && old(pipe.pushes)[1].n >= |data|) ==>
                r == Ready(|data|) && pipe.sent == old(pipe.sent) + data
    {
      assert state == Idle ==> pos == 0;
      GrewNothing(pipe.sent);
      hide Channel.Fair, Good, TornAt, Send, Faulty, Spent, Used, Head, Grew, More;
      SpentNothing(pipe.pushes);
      if state == Ended {
        return Failed(UnexpectedEof);
      }
      if state == Idle {
        if |data| == 0 {
          EndedGood(Now());
          dataLen, state := 0, Ended;
          return Ready(0);
        }
        LostHead(Now(), Datagram(addr, data), pipe.pushes);
        Begin(data, addr);
      }
      InRange();
      r := Resume(pipe, data);
    }

    method Begin(data: bytes, addr: Address)
      requires Valid() && state == Idle
      modifies this
      ensures Valid() && Now() == old(Now()).Begun(Datagram(addr, data))
    {
      GoodBegun(Now(), Datagram(addr, data));
      log, start, cut, spent := log + [Datagram(addr, data)], wire, 0, [];
      dataLen := |data|;
      buffer := buffer + (Serialize(addr) + BigEndian16(|data|) + CRLF);
      state := WriteHead;
    }
  }

  /**
   A datagram reported as sent is on the wire as its frame if and only if no turn used for it, over however many polls, was
   faulty; otherwise a proper prefix of its head is there, with the payload behind it.
   */
  lemma SentWholeIff(o: Outgoing)
    requires o.log != [] && TornAt(o, |o.Pending().payload|)
    ensures o.wire == o.start + Frame(o.Pending()) <==> !Faulty(o.spent)
    ensures Faulty(o.spent) ==>
              o.cut < |Head(o.Pending())| && o.wire == o.start + Head(o.Pending())[..o.cut] + o.Pending().payload
  {
    hide Head, Faulty;
    TornIff(o.start, o.Pending(), o.cut);
    assert o.Pending().payload[..|o.Pending().payload|] == o.Pending().payload;
  }

  lemma EndedGood(o: Outgoing)
    requires Good(o) && o.state == Idle
    ensures Good(o.(dataLen := 0, state := Ended))
  {
  }

  /** The transport fails at once and then takes everything: the head never gets out, and the datagram counts as sent. */
  lemma LostHead(o: Outgoing, d: Datagram, turns: seq<Turn>)
    requires o.pos == 0 && d.payload != []
    ensures |turns| >= 2 && turns[0].Fail? && turns[1].Move? && turns[1].n >= |d.payload| ==>
              var s := Send(o.Begun(d), d.payload, turns);
              s.r == Ready(|d.payload|) && s.more == d.payload
  {
    if |turns| >= 2 && turns[0].Fail? && turns[1].Move? && turns[1].n >= |d.payload| {
      PushingStep(turns, |Head(d)|);
      PushingStep(turns[1..], |d.payload|);
      PushingNothing(turns[1..][1..]);
      hide Pushing, Head;
      assert turns[1..][0] == turns[1];
      assert d.payload[0..|d.payload|] == d.payload && [] + d.payload == d.payload;
    }
  }

  /** Until a transport error, the wire is a prefix of one frame per datagram; between calls it is all of them. */
  lemma SendPath(w: TrojanUdpWriter)
    requires w.Valid() && !w.broken
    ensures w.wire <= EncodeAll(Framer(), 0, w.log)
    ensures !w.Now().Busy() ==> w.wire == EncodeAll(Framer(), 0, w.log)
  {
    if w.Now().Busy() {
      WirePrefix(w.Now());
    }
  }

  lemma WirePrefix(o: Outgoing)
    requires Out(o) && !o.broken
    ensures o.wire <= EncodeAll(Framer(), 0, o.log)
  {
    hide EncodeAll, Head, Faulty, Torn;
    var d, before := o.Pending(), o.log[..|o.log| - 1];
    EncodeAllSnoc(Framer(), 0, before, d);
    assert o.log == before + [d];
    assert Framer()(|before|, d) == Frame(d);
    TornPrefix(o.start, d, if o.state == WriteHead then o.pos else o.cut, if o.state == WriteHead then 0 else o.pos);
  }

  lemma TornPrefix(start: bytes, d: Datagram, cut: nat, pos: nat)
    requires cut <= |Head(d)| && pos <= |d.payload| && (cut == |Head(d)| || pos == 0)
    ensures Torn(start, d, cut, pos) <= start + Frame(d)
  {
    hide Head;
    assert Torn(start, d, cut, pos) == (start + Frame(d))[..|start| + cut + pos];
  }

  /** From one end to the other: a reader fed any part of an unbroken writer's wire. */
  lemma EndToEnd(w: TrojanUdpWriter, r: TrojanUdpReader)
    requires w.Valid() && r.Valid() && !w.broken && AllValid(w.log, Sendable) && r.received <= w.wire
    ensures Content(r.delivered) <= Content(w.log)
    ensures !r.split ==> r.delivered <= w.log
    ensures (&& !r.split && !w.Now().Busy() && r.received == w.wire && Settled(r.Now())) ==> r.delivered == w.log
  {
    hide Consistent, Good, Settled, Content;
    SendPath(w);
    ReceivePath(r, w.log);
  }
}
