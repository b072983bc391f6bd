/**
 A stream of frames over a byte channel that may be cut anywhere.

 A `Parser` looks at the unread bytes and either asks for more, rejects them, or recognises
 frame number `n`. `Decode` is the reference meaning of a byte string: the frames it holds. The
 Shadowsocks, VMess and Trojan readers are all proved to deliver exactly what `Decode`
 says about the bytes they have received, however those bytes were cut up.
 */
module Framing {
  import opened Bytes

  datatype Step<+T> = NeedMore | Broken(why: Fault) | Item(value: T, used: nat)

  type Parser<!T> = (nat, bytes) -> Step<T>

  /** A verdict on some bytes never changes when more bytes arrive behind them. */
  ghost predicate Stable<T(!new)>(p: Parser<T>) {
    && (forall n: nat {:trigger p(n, [])} :: p(n, []) == NeedMore)
    && (forall n: nat, w: bytes, x: bytes {:trigger p(n, w + x)} ::
          && (p(n, w).Broken? ==> p(n, w + x) == p(n, w))
          && (p(n, w).Item? ==> 0 < p(n, w).used <= |w| && p(n, w + x) == p(n, w)))
  }

  /** The frames in a byte string, the bytes left over, and the fault that stopped the reading, if any. */
  datatype Decoded<T> = Decoded(items: seq<T>, rest: bytes, fault: Option<Fault>)

  function Decode<T>(p: Parser<T>, n: nat, w: bytes): Decoded<T>
    decreases |w|
  {
    match p(n, w)
    case NeedMore => Decoded([], w, None)
    case Broken(why) => Decoded([], w, Some(why))
    case Item(v, used) =>
      if 0 < used <= |w| then Prepend([v], Decode(p, n + 1, w[used..])) else Decoded([], w, None)
  }

  function Prepend<T>(items: seq<T>, d: Decoded<T>): Decoded<T> {
    Decoded(items + d.items, d.rest, d.fault)
  }

  /** The bytes a sender puts on the wire for frames number `n`, `n + 1`, ... */
  function EncodeAll<T>(enc: (nat, T) -> bytes, n: nat, items: seq<T>): bytes
    decreases |items|
  {
    if items == [] then [] else enc(n, items[0]) + EncodeAll(enc, n + 1, items[1..])
  }

  lemma {:induction false} EncodeAllSnoc<T>(enc: (nat, T) -> bytes, n: nat, items: seq<T>, v: T)
    ensures EncodeAll(enc, n, items + [v]) == EncodeAll(enc, n, items) + enc(n + |items|, v)
    decreases |items|
  {
    if items == [] {
      assert [v][1..] == [];
    } else {
      assert (items + [v])[1..] == items[1..] + [v];
      EncodeAllSnoc(enc, n + 1, items[1..], v);
    }
  }

  /** `p` recognises each well-formed frame that `enc` writes, whatever follows it. */
  ghost predicate Inverse<T(!new)>(p: Parser<T>, enc: (nat, T) -> bytes, valid: T -> bool) {
    forall n: nat, v: T, x: bytes {:trigger p(n, enc(n, v) + x)} ::
      valid(v) ==> p(n, enc(n, v) + x) == Item(v, |enc(n, v)|)
  }

  ghost predicate AllValid<T>(items: seq<T>, valid: T -> bool) {
    forall i :: 0 <= i < |items| ==> valid(items[i])
  }

  lemma DecodeFrame<T(!new)>(p: Parser<T>, n: nat, w: bytes, v: T, used: nat)
    requires Stable(p) && p(n, w) == Item(v, used)
    ensures 0 < used <= |w|
    ensures Decode(p, n, w) == Prepend([v], Decode(p, n + 1, w[used..]))
  {
    assert w + [] == w;
    assert p(n, w + []) == p(n, w);
  }

  lemma DecodeEncoded<T(!new)>(p: Parser<T>, enc: (nat, T) -> bytes, valid: T -> bool, n: nat, v: T, x: bytes)
    requires Stable(p) && Inverse(p, enc, valid) && valid(v)
    ensures Decode(p, n, enc(n, v) + x) == Prepend([v], Decode(p, n + 1, x))
  {
    var w := enc(n, v) + x;
    assert p(n, w) == Item(v, |enc(n, v)|);
    DecodeFrame(p, n, w, v, |enc(n, v)|);
    assert w[|enc(n, v)|..] == x;
  }

  lemma PrependTwice<T>(a: seq<T>, b: seq<T>, d: Decoded<T>)
    ensures Prepend(a, Prepend(b, d)) == Prepend(a + b, d)
  {
    assert a + (b + d.items) == a + b + d.items;
  }

  lemma AllValidSnoc<T>(items: seq<T>, valid: T -> bool, v: T)
    requires AllValid(items, valid) && valid(v)
    ensures AllValid(items + [v], valid)
  {
  }

  /** Reading what was written gives back the frames, and leaves what followed them untouched. */
  lemma {:induction false} RoundTrip<T(!new)>(
      p: Parser<T>, enc: (nat, T) -> bytes, valid: T -> bool, n: nat, items: seq<T>, x: bytes)
    requires Stable(p) && Inverse(p, enc, valid) && AllValid(items, valid)
    ensures Decode(p, n, EncodeAll(enc, n, items) + x) == Prepend(items, Decode(p, n + |items|, x))
    decreases |items|
  {
    hide Stable, Inverse, Decode;
    if items == [] {
      assert EncodeAll(enc, n, items) + x == x;
      assert [] + Decode(p, n, x).items == Decode(p, n, x).items;
    } else {
      var first, others := enc(n, items[0]), EncodeAll(enc, n + 1, items[1..]);
      assert (first + others) + x == first + (others + x);
      DecodeEncoded(p, enc, valid, n, items[0], others + x);
      RoundTrip(p, enc, valid, n + 1, items[1..], x);
      PrependTwice([items[0]], items[1..], Decode(p, n + |items|, x));
      assert items == [items[0]] + items[1..];
    }
  }

  /** More bytes can only add frames after the ones already there; a fault is final. */
  lemma {:induction false} DecodeGrows<T(!new)>(p: Parser<T>, n: nat, w: bytes, x: bytes)
    requires Stable(p)
    ensures Decode(p, n, w).items <= Decode(p, n, w + x).items
    ensures Decode(p, n, w).fault.Some? ==>
              Decode(p, n, w + x) == Decode(p, n, w).(rest := Decode(p, n, w).rest + x)
    decreases |w|
  {
    assert w + [] == w;
    match p(n, w)
    case NeedMore =>
    case Broken(_) => assert p(n, w + x) == p(n, w);
    case Item(v, used) =>
      assert p(n, w + x) == p(n, w) && 0 < used <= |w| by { assert p(n, w + x) == p(n, w); }
      assert (w + x)[used..] == w[used..] + x;
      DecodeGrows(p, n + 1, w[used..], x);
  }

  /** Any prefix of an honest wire decodes without fault to a prefix of the frames sent; the whole wire, to all of them. */
  lemma HonestPrefix<T(!new)>(
      p: Parser<T>, enc: (nat, T) -> bytes, valid: T -> bool, items: seq<T>, w: bytes)
    requires Stable(p) && Inverse(p, enc, valid) && AllValid(items, valid)
    requires w <= EncodeAll(enc, 0, items)
    ensures Decode(p, 0, w).items <= items
    ensures Decode(p, 0, w).fault == None
    ensures w == EncodeAll(enc, 0, items) ==> Decode(p, 0, w) == Decoded(items, [], None)
  {
    var wire := EncodeAll(enc, 0, items);
    var x := wire[|w|..];
    assert wire == w + x && wire + [] == wire;
    RoundTrip(p, enc, valid, 0, items, []);
    assert p(|items|, []) == NeedMore;
    assert Decode(p, |items|, []) == Decoded([], [], None);
    DecodeGrows(p, 0, w, x);
  }

  /**
   The state of a resumed reader: having set aside the frames `done` and holding the undigested bytes
   `held`, whatever arrives next will mean exactly what it means to someone reading
   from the start.
   */
  ghost predicate Resumes<T(!new)>(p: Parser<T>, received: bytes, done: seq<T>, held: bytes) {
    forall x: bytes {:trigger Decode(p, 0, received + x)} ::
      Decode(p, 0, received + x) == Prepend(done, Decode(p, |done|, held + x))
  }

  lemma ResumesFromStart<T(!new)>(p: Parser<T>)
    ensures Resumes(p, [], [], [])
  {
    forall x: bytes ensures Decode(p, 0, [] + x) == Prepend([], Decode(p, 0, [] + x)) {
      assert [] + Decode(p, 0, [] + x).items == Decode(p, 0, [] + x).items;
    }
  }

  lemma ResumesMore<T(!new)>(p: Parser<T>, received: bytes, done: seq<T>, held: bytes, y: bytes)
    requires Resumes(p, received, done, held)
    ensures Resumes(p, received + y, done, held + y)
  {
    forall x: bytes
      ensures Decode(p, 0, received + y + x) == Prepend(done, Decode(p, |done|, held + y + x))
    {
      assert received + y + x == received + (y + x);
      assert held + y + x == held + (y + x);
    }
  }

  /** Setting aside a recognised frame. */
  lemma ResumesFrame<T(!new)>(p: Parser<T>, received: bytes, done: seq<T>, held: bytes, v: T, used: nat)
    requires Stable(p) && Resumes(p, received, done, held)
    requires p(|done|, held) == Item(v, used)
    ensures used <= |held|
    ensures Resumes(p, received, done + [v], held[used..])
  {
    assert held + [] == held;
    assert p(|done|, held + []) == p(|done|, held);
    forall x: bytes
      ensures Decode(p, 0, received + x) == Prepend(done + [v], Decode(p, |done + [v]|, held[used..] + x))
    {
      assert p(|done|, held + x) == Item(v, used);
      assert (held + x)[used..] == held[used..] + x;
      var d := Decode(p, |done| + 1, held[used..] + x);
      assert done + ([v] + d.items) == done + [v] + d.items;
    }
  }

  /** A reader stuck on `NeedMore` or on a fault has delivered every frame in what it received. */
  lemma ResumesStuck<T(!new)>(p: Parser<T>, received: bytes, done: seq<T>, held: bytes)
    requires Resumes(p, received, done, held)
    requires !p(|done|, held).Item?
    ensures Decode(p, 0, received).items == done
    ensures Decode(p, 0, received).rest == held
    ensures Decode(p, 0, received).fault == (if p(|done|, held).Broken? then Some(p(|done|, held).why) else None)
  {
    assert received + [] == received && held + [] == held;
    assert done + [] == done;
  }

  lemma ResumesDone<T(!new)>(p: Parser<T>, received: bytes, done: seq<T>, held: bytes)
    requires Resumes(p, received, done, held)
    ensures done <= Decode(p, 0, received).items
  {
    assert received + [] == received;
  }
}
