/** Bytes, big- and little-endian numbers, and the result types shared by the other modules. */
module Bytes {
  type byte = x: int | 0 <= x < 256
  type u16 = x: int | 0 <= x < 0x1_0000
  type bytes = seq<byte>

  /** Every AEAD in use has 16-byte tags. */
  const TAG_LEN := 16

  /** Why a reader rejects what it received; `Panic` stands for an abort of the original program. */
  datatype Fault = InvalidTag | LengthTooLarge | BadHeader | BadAddressType | TooShort | BadEncoding | Panic

  datatype Option<+T> = None | Some(value: T)

  /** The two bytes `put_u16` writes; the argument is truncated to 16 bits, as `as u16` does. */
  function BigEndian16(n: nat): (r: bytes)
    ensures |r| == 2
  {
    [n / 256 % 256, n % 256]
  }

  /** What `get_u16` reads off the front of `b`. */
  function FromBigEndian16(b: bytes): (r: u16)
    requires |b| >= 2
  {
    (b[0] as int) * 256 + (b[1] as int)
  }

  /** Reading back a 16-bit number truncates it, so it is unchanged exactly when it fits. */
  lemma BigEndian16RoundTrip(n: nat, tail: bytes)
    ensures FromBigEndian16(BigEndian16(n) + tail) == n % 0x1_0000
    ensures FromBigEndian16(BigEndian16(n) + tail) == n <==> n < 0x1_0000
  {
    assert (BigEndian16(n) + tail)[0] == n / 256 % 256;
    assert (BigEndian16(n) + tail)[1] == n % 256;
    TwoBytes(n);
  }

  lemma TwoBytes(n: nat)
    ensures n / 256 % 256 * 256 + n % 256 == n % 0x1_0000
  {
    var high, low := n / 256, n % 256;
    assert n == 256 * high + low;
    assert high == 256 * (high / 256) + high % 256;
    OneRemainder(high / 256, high % 256 * 256 + low, n / 0x1_0000, n % 0x1_0000);
  }

  lemma OneRemainder(q: int, r: int, q': int, r': int)
    requires 0 <= r < 0x1_0000 && 0 <= r' < 0x1_0000
    requires 0x1_0000 * q + r == 0x1_0000 * q' + r'
    ensures r == r'
  {
    assert q == q';
  }

  lemma BigEndian16OfRead(b: bytes)
    requires |b| >= 2
    ensures BigEndian16(FromBigEndian16(b)) == b[..2]
  {
  }

  /** The `len` low-order bytes of `n`, least significant first. */
  function LittleEndian(len: nat, n: nat): (r: bytes)
    ensures |r| == len
  {
    if len == 0 then [] else [n % 256] + LittleEndian(len - 1, n / 256)
  }

  function Power256(k: nat): (r: nat)
    ensures r > 0
  {
    if k == 0 then 1 else 256 * Power256(k - 1)
  }

  /** Concatenation of a list of byte strings. */
  function Flatten(parts: seq<bytes>): bytes {
    if parts == [] then [] else parts[0] + Flatten(parts[1..])
  }

  lemma {:induction false} FlattenAppend(a: seq<bytes>, b: seq<bytes>)
    ensures Flatten(a + b) == Flatten(a) + Flatten(b)
  {
    if a == [] {
      assert a + b == b;
    } else {
      assert (a + b)[1..] == a[1..] + b;
      FlattenAppend(a[1..], b);
    }
  }

  lemma FlattenSnoc(a: seq<bytes>, v: bytes)
    ensures Flatten(a + [v]) == Flatten(a) + v
  {
    FlattenAppend(a, [v]);
    assert [v][1..] == [];
    assert Flatten([v]) == v;
  }

  /** A prefix of the parts flattens to a prefix of the whole. */
  lemma FlattenPrefix(a: seq<bytes>, b: seq<bytes>)
    requires a <= b
    ensures Flatten(a) <= Flatten(b)
  {
    assert b == a + b[|a|..];
    FlattenAppend(a, b[|a|..]);
  }

  lemma SliceJoin(s: bytes, i: nat, j: nat, k: nat)
    requires i <= j <= k <= |s|
    ensures s[i..j] + s[j..k] == s[i..k]
  {
  }

  /** A log that grew twice. */
  lemma Grown(a: bytes, b: bytes, c: bytes)
    requires |a| <= |b| <= |c| && b[..|a|] == a && c[..|b|] == b
    ensures c[..|a|] == a && c[|a|..] == b[|a|..] + c[|b|..]
  {
    assert c[..|a|] == b[..|a|];
  }

  /** `after` is `before` and something behind it, which `More` gives. */
  predicate Grew(before: bytes, after: bytes) { |before| <= |after| && after[..|before|] == before }

  function More(before: bytes, after: bytes): bytes { if |before| <= |after| then after[|before|..] else [] }

  lemma SameTail(head: bytes, a: bytes, b: bytes)
    ensures head + a == head + b <==> a == b
  {
    assert (head + a)[|head|..] == a && (head + b)[|head|..] == b;
  }

  lemma GrewTwice(a: bytes, b: bytes, c: bytes)
    requires Grew(a, b) && Grew(b, c)
    ensures Grew(a, c) && More(a, c) == More(a, b) + More(b, c)
  {
    Grown(a, b, c);
  }

  lemma GrewNothing(a: bytes)
    ensures Grew(a, a) && More(a, a) == []
  {
  }

  lemma GrewPrefix(before: bytes, after: bytes)
    requires Grew(before, after)
    ensures before <= after && after == before + More(before, after)
  {
    assert after == after[..|before|] + after[|before|..];
  }

  lemma GrewBy(before: bytes, more: bytes)
    ensures Grew(before, before + more) && More(before, before + more) == more
  {
  }
}
