/**
 One direction of a transport. The scheduler of `turns` and `pushes` decides at every poll how many bytes move, if
 any: quantifying over all pipes is quantifying over every fragmentation, every
 partial write and every interleaving of `Pending`.
 */
module Pipe {
  import opened Bytes

  /** `Stall` is `Poll::Pending`; `Fail` is an I/O error; `Move(n)` moves at most `n` bytes. */
  datatype Turn = Stall | Move(n: nat) | Fail

  datatype IoError = UnexpectedEof | WriteZero | Transport | Protocol(why: Fault)

  datatype Poll<+T> = Pending | Ready(value: T) | Failed(error: IoError)

  /** What a channel was given, and how far it was then. */
  datatype Mark = Mark(turns: seq<Turn>, pushes: seq<Turn>, sent: nat, taken: nat)

  class Channel {
    var sent: bytes
    var taken: nat
    var closed: bool
    /** What the next reads and the next writes will meet. */
    var turns: seq<Turn>
    var pushes: seq<Turn>
    /** How often the channel has been asked to flush, and how much of `sent` it had flushed by then. */
    var asked: nat
    var flushed: nat
    /** How the last poll ended. */
    ghost var last: Poll<()>
    /** The channel when it was last supplied with turns. */
    ghost var mark: Mark

    ghost predicate Valid()
      reads `sent, `taken, `turns, `pushes, `last, `mark
    {
      Bounded() && Fair()
    }

    ghost predicate Bounded()
      reads `sent, `taken
    {
      taken <= |sent|
    }

    /**
     Since it was last supplied with turns, of which the first was to move something, the channel has moved a byte or has not
     been asked; and nothing has failed that was not to fail.
     */
    ghost predicate Fair()
      reads `sent, `taken, `turns, `pushes, `last, `mark
    {
      && mark.sent <= |sent| && mark.taken <= taken
      && (Moves(Next(mark.pushes)) ==> pushes == mark.pushes || mark.sent < |sent|)
      && (Moves(Next(mark.turns)) ==> turns == mark.turns || mark.taken < taken || mark.sent <= taken)
      && (Fail !in mark.pushes ==> Fail !in pushes) && (Fail !in mark.turns ==> Fail !in turns)
      && (last == Failed(Transport) ==> Fail in mark.pushes || Fail in mark.turns)
    }

    constructor (turns: seq<Turn>, pushes: seq<Turn>)
      ensures Valid() && sent == [] && taken == 0 && !closed && this.turns == turns && this.pushes == pushes
    {
      sent, taken, closed, this.turns, this.pushes, last := [], 0, false, turns, pushes, Pending;
      mark := Mark(turns, pushes, 0, 0);
      asked, flushed := 0, 0;
    }

    /** The transport becomes ready for more. */
    method Supply(turns: seq<Turn>, pushes: seq<Turn>)
      requires Bounded()
      modifies `turns, `pushes, `last, `mark
      ensures Valid() && this.turns == turns && this.pushes == pushes && mark == Mark(turns, pushes, |sent|, taken)
    {
      this.turns, this.pushes, last, mark := turns, pushes, Pending, Mark(turns, pushes, |sent|, taken);
    }

    /** `AsyncWrite::poll_write`: accepts some prefix of `data`, possibly none. */
    method PollWrite(data: bytes) returns (r: Poll<nat>)
      requires Bounded()
      modifies `sent, `pushes, `last
      ensures Bounded() && pushes == Rest(old(pushes)) && last == Outcome(r)
      ensures old(Fair()) && data != [] ==> Fair()
      ensures r == match Next(old(pushes))
                   case Stall => Pending
                   case Fail => Failed(Transport)
                   case Move(n) => Ready(Least(n, |data|))
      ensures sent == if r.Ready? then old(sent) + data[..r.value] else old(sent)
    {
      var turn := Next(pushes);
      pushes := Rest(pushes);
      match turn {
        case Stall => r := Pending;
        case Fail => r := Failed(Transport);
        case Move(n) =>
          var k := Least(n, |data|);
          sent := sent + data[..k];
          r := Ready(k);
      }
      last := Outcome(r);
    }

    /** `AsyncWrite::poll_flush` */
    method PollFlush() returns (r: Poll<()>)
      modifies `pushes, `last, `asked, `flushed
      ensures pushes == Rest(old(pushes)) && last == r
      ensures r == match Next(old(pushes)) case Stall => Pending case Fail => Failed(Transport) case Move(_) => Ready(())
      ensures asked == old(asked) + 1 && flushed == if r.Ready? then |sent| else old(flushed)
    {
      asked := asked + 1;
      var turn := Next(pushes);
      pushes := Rest(pushes);
      match turn {
        case Stall => r := Pending;
        case Fail => r := Failed(Transport);
        case Move(_) =>
          flushed := |sent|;
          r := Ready(());
      }
      last := r;
    }

    /**
     `AsyncRead::poll_read` into a buffer with `room` free bytes. As long as the other end is open and has sent nothing new, the
     poll stalls; once it has closed, an empty result is the end of file.
     */
    method PollRead(room: nat) returns (r: Poll<bytes>)
      requires Bounded()
      modifies `taken, `turns, `last
      ensures Bounded() && old(taken) <= taken && turns == Rest(old(turns)) && last == Outcome(r)
      ensures old(Fair()) && room > 0 ==> Fair()
      ensures r == match Next(old(turns))
                   case Stall => Pending
                   case Fail => Failed(Transport)
                   case Move(n) =>
                     if old(taken) == |sent| && !closed && room > 0 then Pending else Ready(sent[old(taken)..taken])
      ensures r.Ready? ==> |r.value| <= room && (r.value == [] && room > 0 ==> closed && taken == |sent|)
      ensures !r.Ready? ==> taken == old(taken)
    {
      var turn := Next(turns);
      turns := Rest(turns);
      match turn {
        case Stall => r := Pending;
        case Fail => r := Failed(Transport);
        case Move(n) =>
          if taken == |sent| && !closed && room > 0 {
            r := Pending;
          } else {
            var k := Least(Least(if n == 0 then 1 else n, |sent| - taken), room);
            r := Ready(sent[taken..taken + k]);
            taken := taken + k;
          }
      }
      last := Outcome(r);
    }
  }

  /** The turn a poll gets; a schedule that has run out stalls. */
  function Next(turns: seq<Turn>): Turn { if turns == [] then Stall else turns[0] }

  function Rest(turns: seq<Turn>): seq<Turn> { if turns == [] then [] else turns[1..] }

  /** A turn that moves at least one byte. */
  predicate Moves(t: Turn) { t.Move? && t.n > 0 }

  /** Turns that start by moving something and go wrong nowhere; they may stall. */
  ghost predicate Healthy(turns: seq<Turn>) { Moves(Next(turns)) && !Faulty(turns) && Fail !in turns }

  function Least(a: nat, b: nat): nat { if a < b then a else b }

  function Outcome<T>(r: Poll<T>): Poll<()> {
    match r
    case Pending => Pending
    case Ready(_) => Ready(())
    case Failed(e) => Failed(e)
  }

  /** A turn that makes a write go wrong: an error, or a transport that takes nothing. */
  predicate IsFault(t: Turn) { t.Fail? || t == Move(0) }

  predicate Faulty(turns: seq<Turn>) { exists i :: 0 <= i < |turns| && IsFault(turns[i]) }

  /** The turns used between two moments of a schedule. */
  function Used(before: seq<Turn>, after: seq<Turn>): seq<Turn> {
    if |after| <= |before| then before[..|before| - |after|] else []
  }

  /** `after` is what is left of the schedule `before`. */
  predicate Spent(before: seq<Turn>, after: seq<Turn>) {
    |after| <= |before| && before[|before| - |after|..] == after
  }

  lemma FaultyAppend(a: seq<Turn>, b: seq<Turn>)
    ensures Faulty(a + b) <==> Faulty(a) || Faulty(b)
  {
    if Faulty(a) {
      var i :| 0 <= i < |a| && IsFault(a[i]);
      assert IsFault((a + b)[i]);
    }
    if Faulty(b) {
      var i :| 0 <= i < |b| && IsFault(b[i]);
      assert IsFault((a + b)[|a| + i]);
    }
  }

  /** One stretch of a schedule after another. */
  lemma SpentTwice(a: seq<Turn>, b: seq<Turn>, c: seq<Turn>)
    requires Spent(a, b) && Spent(b, c)
    ensures Spent(a, c) && Used(a, c) == Used(a, b) + Used(b, c)
    ensures Faulty(Used(a, c)) <==> Faulty(Used(a, b)) || Faulty(Used(b, c))
  {
    FaultyAppend(Used(a, b), Used(b, c));
    assert a[|a| - |b|..][|b| - |c|..] == a[|a| - |c|..];
    assert Used(a, c) == Used(a, b) + Used(b, c);
  }

  lemma SpentNothing(a: seq<Turn>)
    ensures Spent(a, a) && Used(a, a) == [] && !Faulty(Used(a, a))
  {
  }

  lemma FaultyPart(before: seq<Turn>, after: seq<Turn>)
    requires !Faulty(before)
    ensures !Faulty(Used(before, after))
  {
    forall i | 0 <= i < |Used(before, after)| ensures !IsFault(Used(before, after)[i]) {
      assert Used(before, after)[i] == before[i];
    }
  }

  lemma SpentOne(turns: seq<Turn>)
    ensures Spent(turns, Rest(turns))
    ensures Used(turns, Rest(turns)) == if turns == [] then [] else [turns[0]]
    ensures Faulty(Used(turns, Rest(turns))) <==> IsFault(Next(turns))
  {
    if turns != [] {
      assert Used(turns, Rest(turns)) == [turns[0]];
      assert IsFault(turns[0]) ==> IsFault(Used(turns, Rest(turns))[0]);
    }
  }

  /** A call never gives up without having asked: one that is pending has polled the transport since it had `turns` left. */
  predicate Polled(pending: bool, left: nat, turns: nat) {
    left <= turns && (pending && turns > 0 ==> left < turns)
  }

  /** A result that blames the transport rightly: a stall only if it stalled, an error only if it failed or took nothing. */
  ghost predicate Honest<T>(r: Poll<T>, pipe: Channel)
    reads pipe
  {
    match r
    case Pending => pipe.last == Pending
    case Failed(e) => (e == Transport && pipe.last == Failed(Transport)) || (e == WriteZero && pipe.last == Ready(()))
    case Ready(_) => true
  }

  /**
   `read_at_least`: reads into `buffer` until it holds `length` bytes. Every read takes what the transport
   offers, which may run past `length`. End of file is reported as an error with `readZero` set.
   */
  method ReadAtLeast(pipe: Channel, buffer: bytes, length: nat)
    returns (r: Poll<()>, filled: bytes, readZero: bool)
    requires pipe.Valid()
    modifies pipe`taken, pipe`turns, pipe`last
    ensures Polled(r.Pending?, |pipe.turns|, |old(pipe.turns)|)
    ensures pipe.Valid() && old(pipe.taken) <= pipe.taken && |pipe.turns| <= |old(pipe.turns)|
    ensures filled == buffer + pipe.sent[old(pipe.taken)..pipe.taken]
    ensures r.Ready? ==> |filled| >= length
    ensures |buffer| >= length ==> pipe.taken == old(pipe.taken)
    ensures r.Pending? || r.Failed? ==> |filled| < length
    ensures readZero ==> r == Failed(UnexpectedEof) && pipe.closed && pipe.taken == |pipe.sent|
    ensures r.Pending? ==> pipe.last == Pending
    ensures r.Failed? && !readZero ==> r.error == Transport && pipe.last == r
    ensures |filled| > |buffer| ==> |pipe.turns| < |old(pipe.turns)|
  {
    hide Channel.Fair;
    filled, readZero := buffer, false;
    while |filled| < length
      invariant pipe.Valid() && old(pipe.taken) <= pipe.taken
      invariant filled == buffer + pipe.sent[old(pipe.taken)..pipe.taken]
      invariant |buffer| >= length ==> pipe.taken == old(pipe.taken)
      invariant |pipe.turns| <= |old(pipe.turns)|
      invariant |filled| > |buffer| ==> |pipe.turns| < |old(pipe.turns)|
      decreases |pipe.turns|
    {
      ghost var before := pipe.taken;
      var spare: nat :| spare > 0;  // a growable buffer always has some spare room
      var got := pipe.PollRead(spare);
      match got
      case Pending => return Pending, filled, false;
      case Failed(_) => return Failed(Transport), filled, false;
      case Ready(more) =>
        SliceJoin(pipe.sent, old(pipe.taken), before, pipe.taken);
        filled := filled + more;
        if more == [] {
          return Failed(UnexpectedEof), filled, true;
        }
    }
    r := Ready(());
  }

  /** How a write of `left` bytes goes: its result, the bytes moved, and the turns left over. */
  datatype Push = Push(r: Poll<()>, moved: nat, turns: seq<Turn>)

  function Pushing(turns: seq<Turn>, left: nat): (p: Push)
    ensures p.moved <= left && (p.r.Ready? <==> p.moved == left)
    decreases |turns|
  {
    if left == 0 then Push(Ready(()), 0, turns) else
    match Next(turns)
    case Stall => Push(Pending, 0, Rest(turns))
    case Fail => Push(Failed(Transport), 0, Rest(turns))
    case Move(n) =>
      if n == 0 then Push(Failed(WriteZero), 0, Rest(turns)) else
      var k := Least(n, left);
      var p := Pushing(Rest(turns), left - k);
      p.(moved := k + p.moved)
  }

  /** A write fails exactly when it uses a faulty turn; it stalls or fails on the last turn it uses. */
  lemma {:induction false} PushingFails(turns: seq<Turn>, left: nat)
    ensures var p := Pushing(turns, left);
            Spent(turns, p.turns) && (p.r.Failed? <==> Faulty(Used(turns, p.turns)))
    decreases |turns|
  {
    hide Faulty, Used, Spent;
    SpentNothing(turns);
    SpentOne(turns);
    if left > 0 && Next(turns).Move? && Next(turns).n > 0 {
      var k := Least(Next(turns).n, left);
      PushingFails(Rest(turns), left - k);
      SpentTwice(turns, Rest(turns), Pushing(Rest(turns), left - k).turns);
    }
  }

  lemma SliceMore(buf: bytes, i: nat, j: nat, n: nat)
    requires i <= j && j + n <= |buf|
    ensures buf[i..j] + buf[j..][..n] == buf[i..j + n]
  {
  }

  /** One poll of a write. */
  lemma PushingStep(turns: seq<Turn>, left: nat)
    requires left > 0
    ensures match Next(turns)
            case Stall => Pushing(turns, left) == Push(Pending, 0, Rest(turns))
            case Fail => Pushing(turns, left) == Push(Failed(Transport), 0, Rest(turns))
            case Move(n) =>
              var k := Least(n, left);
              var p := Pushing(Rest(turns), left - k);
              Pushing(turns, left) == if n == 0 then Push(Failed(WriteZero), 0, Rest(turns)) else p.(moved := k + p.moved)
  {
  }

  lemma PushingNothing(turns: seq<Turn>)
    ensures Pushing(turns, 0) == Push(Ready(()), 0, turns)
  {
  }

  /**
   `write_data`: writes `buf` from `pos` on until the transport has taken all of it, stalls or fails. The
   position survives a stall, so the next call goes on where this one stopped.
   */
  method WriteRest(pipe: Channel, buf: bytes, pos: nat) returns (r: Poll<()>, pos': nat)
    requires pipe.Valid() && pos <= |buf|
    modifies pipe`sent, pipe`pushes, pipe`last
    ensures pipe.Valid() && pos <= pos' <= |buf|
    ensures Pushing(old(pipe.pushes), |buf| - pos) == Push(r, pos' - pos, pipe.pushes)
    ensures pipe.sent == old(pipe.sent) + buf[pos..pos']
    ensures r.Ready? <==> pos' == |buf|
    ensures Honest(r, pipe) && Polled(r.Pending?, |pipe.pushes|, |old(pipe.pushes)|)
  {
    hide Pushing, Channel.Fair;
    pos' := pos;
    while pos' < |buf|
      invariant pipe.Valid() && pos <= pos' <= |buf| && |pipe.pushes| <= |old(pipe.pushes)|
      invariant pipe.sent == old(pipe.sent) + buf[pos..pos']
      invariant Pushing(old(pipe.pushes), |buf| - pos) ==
                  var p := Pushing(pipe.pushes, |buf| - pos'); p.(moved := p.moved + pos' - pos)
      decreases |pipe.pushes|
    {
      PushingStep(pipe.pushes, |buf| - pos');
      var got := pipe.PollWrite(buf[pos'..]);
      match got
      case Pending => return Pending, pos';
      case Failed(_) => return Failed(Transport), pos';
      case Ready(n) =>
        SliceMore(buf, pos, pos', n);
        pos' := pos' + n;
        if n == 0 {
          return Failed(WriteZero), pos';
        }
    }
    PushingNothing(pipe.pushes);
    r := Ready(());
  }

}
