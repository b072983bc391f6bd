/**
 Readers of sealed frames, Shadowsocks or VMess alike: a head that announces the size of the body, then a body
 that opens to the payload and ends in a 16-byte tag. This is the theory of such a reader as a
 resumable machine; the two reader classes are proved against it.
 */
module ChunkReader {
  import opened Bytes
  import opened Framing

  /** How frame number `n` is laid out: what its head says, and what its body opens to. */
  datatype Format = Format(headLen: nat, bodyLen: (nat, bytes) -> Step<nat>, open: (nat, bytes) -> Step<bytes>) {
    ghost predicate Good() {
      && headLen > 0
      && (forall n: nat, head: bytes {:trigger bodyLen(n, head)} :: !bodyLen(n, head).NeedMore?)
      && (forall n: nat, body: bytes {:trigger open(n, body)} ::
            && !open(n, body).NeedMore?
            && (open(n, body).Item? ==> |body| >= TAG_LEN && |open(n, body).value| == |body| - TAG_LEN))
    }
  }

  /** The first frame of `w`, read as frame number `n`. */
  function NextFrame(f: Format, n: nat, w: bytes): Step<bytes> {
    if |w| < f.headLen then NeedMore else
    match f.bodyLen(n, w[..f.headLen])
    case Broken(why) => Broken(why)
    case NeedMore => NeedMore
    case Item(len, _) =>
      if |w| < f.headLen + len then NeedMore else
      match f.open(n, w[f.headLen..f.headLen + len])
      case Broken(why) => Broken(why)
      case NeedMore => NeedMore
      case Item(data, _) => Item(data, f.headLen + len)
  }

  function Frames(f: Format): Parser<bytes> { (n, w) => NextFrame(f, n, w) }

  lemma NextFrameStable(f: Format, n: nat, w: bytes, x: bytes)
    requires f.Good()
    ensures NextFrame(f, n, w).Broken? ==> NextFrame(f, n, w + x) == NextFrame(f, n, w)
    ensures NextFrame(f, n, w).Item? ==>
              0 < NextFrame(f, n, w).used <= |w| && NextFrame(f, n, w + x) == NextFrame(f, n, w)
  {
    if |w| >= f.headLen {
      assert (w + x)[..f.headLen] == w[..f.headLen];
      var len := f.bodyLen(n, w[..f.headLen]);
      if len.Item? && |w| >= f.headLen + len.value {
        assert (w + x)[f.headLen..f.headLen + len.value] == w[f.headLen..f.headLen + len.value];
      }
    }
  }

  lemma FramesStable(f: Format)
    requires f.Good()
    ensures Stable(Frames(f))
  {
    forall n: nat, w: bytes, x: bytes
      ensures && (Frames(f)(n, w).Broken? ==> Frames(f)(n, w + x) == Frames(f)(n, w))
              && (Frames(f)(n, w).Item? ==>
                    0 < Frames(f)(n, w).used <= |w| && Frames(f)(n, w + x) == Frames(f)(n, w))
    {
      NextFrameStable(f, n, w, x);
    }
  }

  /** The second half of `NextFrame`, for a reader that has already consumed the head. */
  lemma NextFrameBody(f: Format, n: nat, head: bytes, buffer: bytes, len: nat)
    requires |head| == f.headLen && f.bodyLen(n, head).Item? && f.bodyLen(n, head).value == len
    ensures |buffer| < len ==> NextFrame(f, n, head + buffer) == NeedMore
    ensures |buffer| >= len ==>
              var body := f.open(n, buffer[..len]);
              NextFrame(f, n, head + buffer) == if body.Item? then Item(body.value, f.headLen + len) else body
  {
    var w := head + buffer;
    assert w[..f.headLen] == head;
    if |buffer| >= len {
      assert w[f.headLen..f.headLen + len] == buffer[..len];
    }
  }

  /** Where the generator will resume. */
  datatype ReadState = AwaitLength | AwaitBody | Putting | Finished

  /**
   A reader between two steps: its fields, and the history they stand for, namely every byte taken from the
   transport, every byte handed to the caller, the frames opened so far and the sealed
   length of the frame under way.
   */
  datatype View = View(state: ReadState, buffer: bytes, dataLength: nat,
                       received: bytes, delivered: bytes, frames: seq<bytes>, head: bytes)
  {
    /** Plaintext of the current frame not yet handed to the caller. */
    function Residual(): bytes {
      if state == Putting && dataLength <= |buffer| then buffer[..dataLength] else []
    }

    /** How many buffered bytes the state is waiting for. */
    function Wanted(headLen: nat): nat {
      if state == AwaitLength then headLen else dataLength
    }

    function Stop(): View { this.(state := Finished) }

    /** The current frame's payload opened in place; its tag stays behind it in the buffer. */
    function Open(plain: bytes): View
      requires TAG_LEN <= dataLength <= |buffer|
    {
      this.(state := Putting, dataLength := dataLength - TAG_LEN,
            buffer := plain + buffer[dataLength - TAG_LEN..], frames := frames + [plain])
    }

    predicate Waiting() { state == AwaitLength || state == AwaitBody }

    function Fill(more: bytes): View {
      this.(buffer := buffer + more, received := received + more)
    }
  }

  /** The reader's invariant. */
  ghost predicate Consistent(f: Format, v: View) {
    && f.Good() && Stable(Frames(f))
    && Flatten(v.frames) == v.delivered + v.Residual()
    && match v.state {
         case AwaitLength =>
           Resumes(Frames(f), v.received, v.frames, v.buffer)
         case AwaitBody =>
           && |v.head| == f.headLen
           && f.bodyLen(|v.frames|, v.head).Item? && f.bodyLen(|v.frames|, v.head).value == v.dataLength
           && Resumes(Frames(f), v.received, v.frames, v.head + v.buffer)
         case Putting =>
           && |v.buffer| >= v.dataLength + TAG_LEN
           && Resumes(Frames(f), v.received, v.frames, v.buffer[v.dataLength + TAG_LEN..])
         case Finished =>
           Decode(Frames(f), 0, v.received).items == v.frames
       }
  }

  /** Every complete frame received has been delivered in full. */
  ghost predicate Settled(f: Format, v: View) {
    Decode(Frames(f), 0, v.received).items == v.frames && v.delivered == Flatten(v.frames)
  }

  lemma ConsistentFresh(f: Format)
    requires f.Good()
    ensures Consistent(f, View(AwaitLength, [], 0, [], [], [], []))
  {
    FramesStable(f);
    ResumesFromStart(Frames(f));
  }

  lemma ConsistentFill(f: Format, v: View, more: bytes)
    requires Consistent(f, v) && v.Waiting()
    ensures Consistent(f, v.Fill(more))
  {
    hide Resumes, Stable;
    if v.state == AwaitLength {
      ResumesMore(Frames(f), v.received, v.frames, v.buffer, more);
    } else {
      ResumesMore(Frames(f), v.received, v.frames, v.head + v.buffer, more);
      assert v.head + v.buffer + more == v.head + (v.buffer + more);
    }
  }

  /** A reader that is short of bytes holds back nothing, and may stop for good. */
  lemma ConsistentShort(f: Format, v: View)
    requires Consistent(f, v) && v.Waiting() && |v.buffer| < v.Wanted(f.headLen)
    ensures Settled(f, v) && Settled(f, v.Stop()) && Consistent(f, v.Stop())
  {
    hide Resumes, Stable;
    if v.state == AwaitLength {
      ResumesStuck(Frames(f), v.received, v.frames, v.buffer);
    } else {
      NextFrameBody(f, |v.frames|, v.head, v.buffer, v.dataLength);
      ResumesStuck(Frames(f), v.received, v.frames, v.head + v.buffer);
    }
  }

  lemma ConsistentLength(f: Format, v: View, len: Step<nat>)
    requires Consistent(f, v) && v.state == AwaitLength && |v.buffer| >= f.headLen
    requires len == f.bodyLen(|v.frames|, v.buffer[..f.headLen])
    ensures len.Item? ==>
              Consistent(f, v.(state := AwaitBody, head := v.buffer[..f.headLen], buffer := v.buffer[f.headLen..],
                                         dataLength := len.value))
    ensures len.Broken? ==>
              && Settled(f, v.Stop()) && Decode(Frames(f), 0, v.received).fault == Some(len.why)
              && Consistent(f, v.Stop())
  {
    hide Resumes, Stable;
    assert v.buffer[..f.headLen] + v.buffer[f.headLen..] == v.buffer;
    if len.Broken? {
      ResumesStuck(Frames(f), v.received, v.frames, v.buffer);
    }
  }

  lemma ConsistentBody(f: Format, v: View, plain: Step<bytes>)
    requires Consistent(f, v) && v.state == AwaitBody && |v.buffer| >= v.dataLength
    requires plain == f.open(|v.frames|, v.buffer[..v.dataLength])
    ensures plain.Broken? ==>
              && Settled(f, v.Stop()) && Decode(Frames(f), 0, v.received).fault == Some(plain.why)
              && Consistent(f, v.Stop())
    ensures plain.Item? ==>
              && |plain.value| == v.dataLength - TAG_LEN && v.dataLength >= TAG_LEN
              && Consistent(f, v.Open(plain.value))
  {
    hide Resumes, Stable;
    var p, whole := Frames(f), v.head + v.buffer;
    NextFrameBody(f, |v.frames|, v.head, v.buffer, v.dataLength);
    if plain.Broken? {
      ResumesStuck(p, v.received, v.frames, whole);
    } else {
      ResumesFrame(p, v.received, v.frames, whole, plain.value, f.headLen + v.dataLength);
      FlattenSnoc(v.frames, plain.value);
      var buffer := plain.value + v.buffer[v.dataLength - TAG_LEN..];
      assert whole[f.headLen + v.dataLength..] == v.buffer[v.dataLength..] == buffer[v.dataLength..];
      assert buffer[..v.dataLength - TAG_LEN] == plain.value;
      assert v.delivered + [] == v.delivered;
    }
  }

  lemma ConsistentPut(f: Format, v: View, m: nat)
    requires Consistent(f, v) && v.state == Putting && m <= v.dataLength
    ensures |v.buffer| >= v.dataLength + TAG_LEN
    ensures Consistent(f, v.(buffer := v.buffer[m..], dataLength := v.dataLength - m,
                                   delivered := v.delivered + v.buffer[..m]))
    ensures v.dataLength == 0 ==> Consistent(f, v.(state := AwaitLength, buffer := v.buffer[TAG_LEN..]))
  {
    hide Resumes, Stable;
    assert v.buffer[m..][v.dataLength - m + TAG_LEN..] == v.buffer[v.dataLength + TAG_LEN..];
    assert v.buffer[..v.dataLength] == v.buffer[..m] + v.buffer[m..][..v.dataLength - m];
    if v.dataLength == 0 {
      assert v.buffer[..0] == [] && v.delivered + [] == v.delivered;
    }
  }

  /**
   A call whose destination has no room ends the loop as if the frame were done: the tag's length is skipped and a new frame
   is awaited. The stream survives that exactly when nothing of the frame was left to deliver.
   */
  lemma ZeroRoomSafeIff(f: Format, v: View)
    requires Consistent(f, v) && v.state == Putting
    ensures |v.buffer| >= TAG_LEN
    ensures Consistent(f, v.(state := AwaitLength, buffer := v.buffer[TAG_LEN..])) <==> v.dataLength == 0
  {
    ConsistentPut(f, v, 0);
    if v.dataLength > 0 {
      assert |v.delivered + v.Residual()| > |v.delivered + []|;
    }
  }

  /** What is left in the fields of a reader that has stopped no longer matters. */
  lemma ConsistentScraps(f: Format, v: View, buffer: bytes, dataLength: nat, head: bytes)
    requires Consistent(f, v) && v.state == Finished
    ensures Consistent(f, v.(buffer := buffer, dataLength := dataLength, head := head))
    ensures Settled(f, v) ==> Settled(f, v.(buffer := buffer, dataLength := dataLength, head := head))
  {
  }

  /** The reader never delivers anything but the plaintext of the frames it has received, in order. */
  lemma ConsistentPrefix(f: Format, v: View)
    requires Consistent(f, v)
    ensures v.delivered <= Flatten(Decode(Frames(f), 0, v.received).items)
  {
    var p, all := Frames(f), Decode(Frames(f), 0, v.received).items;
    match v.state {
      case AwaitLength => ResumesDone(p, v.received, v.frames, v.buffer);
      case AwaitBody => ResumesDone(p, v.received, v.frames, v.head + v.buffer);
      case Putting => ResumesDone(p, v.received, v.frames, v.buffer[v.dataLength + TAG_LEN..]);
      case Finished =>
    }
    FlattenPrefix(v.frames, all);
  }
}
