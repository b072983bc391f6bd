/** Bitwise arithmetic on naturals, by halving. */
module Bits {
  function Pow2(k: nat): (r: nat)
    ensures r > 0
  {
    if k == 0 then 1 else 2 * Pow2(k - 1)
  }

  lemma {:induction false} Pow2Twice(k: nat)
    ensures Pow2(2 * k) == Pow2(k) * Pow2(k)
  {
    if k > 0 {
      Pow2Twice(k - 1);
      assert Pow2(2 * k) == 2 * Pow2(2 * k - 1) && Pow2(2 * k - 1) == 2 * Pow2(2 * (k - 1));
    }
  }

  /** `x & y` */
  function And(x: nat, y: nat): (r: nat) {
    if x == 0 || y == 0 then 0 else 2 * And(x / 2, y / 2) + (if x % 2 == 1 && y % 2 == 1 then 1 else 0)
  }

  /** `x ^ y` */
  function Xor(x: nat, y: nat): (r: nat) {
    if x == 0 && y == 0 then 0 else 2 * Xor(x / 2, y / 2) + (if x % 2 != y % 2 then 1 else 0)
  }

  /** `x >> k` */
  function Shr(x: nat, k: nat): (r: nat) {
    if k == 0 then x else Shr(x / 2, k - 1)
  }

  /** `x << k`, where nothing overflows */
  function Shl(x: nat, k: nat): (r: nat) {
    if k == 0 then x else 2 * Shl(x, k - 1)
  }

  /** The low `n` bits of `x`. */
  function Low(x: nat, n: nat): (r: nat) {
    if n == 0 then 0 else 2 * Low(x / 2, n - 1) + x % 2
  }

  predicate Bit(x: nat, j: nat) {
    if j == 0 then x % 2 == 1 else Bit(x / 2, j - 1)
  }

  lemma {:induction false} LowIsRemainder(x: nat, n: nat)
    ensures Low(x, n) == x % Pow2(n)
  {
    if n > 0 {
      LowIsRemainder(x / 2, n - 1);
      HalfRemainder(x, Pow2(n - 1));
    }
  }

  lemma HalfRemainder(x: nat, m: nat)
    requires m > 0
    ensures x % (2 * m) == 2 * (x / 2 % m) + x % 2
  {
    var q, r := x / 2 / m, x / 2 % m;
    assert x == 2 * (x / 2) + x % 2;
    assert x / 2 == m * q + r;
    assert 2 * (m * q) == 2 * m * q;
    UniqueRemainder(x, 2 * m, q, 2 * r + x % 2);
  }

  lemma UniqueRemainder(i: nat, m: nat, q: nat, r: nat)
    requires m > 0 && i == m * q + r && r < m
    ensures i % m == r && i / m == q
  {
    var d := i / m - q;
    assert i == m * (i / m) + i % m;
    assert m * d == r - i % m;
    assert m * d < m && m * d + m > 0;
    assert d == 0;
  }

  /** `>>` divides by a power of two. */
  lemma {:induction false} ShrIsQuotient(x: nat, k: nat)
    ensures Shr(x, k) == x / Pow2(k)
  {
    if k > 0 {
      ShrIsQuotient(x / 2, k - 1);
      HalfQuotient(x, Pow2(k - 1));
    }
  }

  lemma HalfQuotient(x: nat, m: nat)
    requires m > 0
    ensures x / 2 / m == x / (2 * m)
  {
    var q, r := x / 2 / m, x / 2 % m;
    assert x == 2 * (x / 2) + x % 2 && x / 2 == m * q + r;
    assert 2 * (m * q) == 2 * m * q && 2 * r <= 2 * (m - 1);
    assert x == 2 * m * q + (2 * r + x % 2) && 2 * r + x % 2 < 2 * m;
    UniqueRemainder(x, 2 * m, q, 2 * r + x % 2);
  }

  /** A bit of a number is the parity of a quotient. */
  lemma {:induction false} BitIs(x: nat, j: nat)
    ensures Bit(x, j) <==> x / Pow2(j) % 2 == 1
  {
    if j > 0 {
      BitIs(x / 2, j - 1);
      HalfQuotient(x, Pow2(j - 1));
    }
  }

  /** Each bit of `x ^ y` says whether those of `x` and `y` differ, and each bit of `x & y` whether both are set. */
  lemma {:induction false} XorBit(x: nat, y: nat, j: nat)
    ensures Bit(Xor(x, y), j) <==> Bit(x, j) != Bit(y, j)
  {
    XorHalves(x, y);
    if j > 0 {
      XorBit(x / 2, y / 2, j - 1);
    }
  }

  lemma XorHalves(x: nat, y: nat)
    ensures Xor(x, y) / 2 == Xor(x / 2, y / 2) && (Xor(x, y) % 2 == 1 <==> x % 2 != y % 2)
  {
    var r, b := Xor(x / 2, y / 2), if x % 2 != y % 2 then 1 else 0;
    if x == 0 && y == 0 {
      assert r == 0;
    } else {
      assert Xor(x, y) == 2 * r + b;
    }
  }

  lemma {:induction false} ShlIsProduct(x: nat, k: nat)
    ensures Shl(x, k) == x * Pow2(k)
  {
    if k > 0 {
      ShlIsProduct(x, k - 1);
    }
  }

  lemma BitOfDouble(h: nat, c: nat, j: nat)
    requires c <= 1
    ensures Bit(2 * h + c, j) <==> if j == 0 then c == 1 else Bit(h, j - 1)
  {
    Halve(h, c);
  }

  lemma Halve(h: nat, c: nat)
    requires c <= 1
    ensures (2 * h + c) / 2 == h && (2 * h + c) % 2 == c
  {
  }

  /** `And` with a single bit tests that bit. */
  lemma {:induction false} AndBit(x: nat, j: nat)
    ensures And(x, Pow2(j)) != 0 <==> Bit(x, j)
  {
    if j > 0 {
      AndBit(x / 2, j - 1);
      if x == 0 {
        ZeroBit(j);
      }
    }
  }

  lemma {:induction false} ZeroBit(j: nat)
    ensures !Bit(0, j)
  {
    if j > 0 {
      ZeroBit(j - 1);
    }
  }

  lemma {:induction false} OnesBit(w: nat, j: nat)
    ensures Bit(Pow2(w) - 1, j) <==> j < w
  {
    if w == 0 {
      ZeroBit(j);
    } else {
      BitOfDouble(Pow2(w - 1) - 1, 1, j);
      if j > 0 {
        OnesBit(w - 1, j - 1);
      }
    }
  }

  lemma {:induction false} XorZero(x: nat)
    ensures Xor(0, x) == x
  {
    if x > 0 {
      XorZero(x / 2);
    }
  }

  /** Complementing the low `s` ones leaves a mask of the bits from `s` up. */
  lemma {:induction false} MaskBit(w: nat, s: nat, j: nat)
    requires s <= w
    ensures Bit(Xor(Pow2(s) - 1, Pow2(w) - 1), j) <==> s <= j < w
  {
    hide Xor, Bit;
    if s == 0 {
      XorZero(Pow2(w) - 1);
      OnesBit(w, j);
    } else {
      var x, y := Pow2(s - 1) - 1, Pow2(w - 1) - 1;
      assert Pow2(s) - 1 == 2 * x + 1 && Pow2(w) - 1 == 2 * y + 1;
      XorOdd(x, y);
      BitOfDouble(Xor(x, y), 0, j);
      if j > 0 {
        MaskBit(w - 1, s - 1, j - 1);
      }
    }
  }

  lemma XorOdd(x: nat, y: nat)
    ensures Xor(2 * x + 1, 2 * y + 1) == 2 * Xor(x, y)
  {
    Halve(x, 1);
    Halve(y, 1);
  }

  lemma {:induction false} ShrStep(x: nat, k: nat)
    ensures Shr(x, k) == 2 * Shr(x, k + 1) + (if Bit(x, k) then 1 else 0)
  {
    if k > 0 {
      ShrStep(x / 2, k - 1);
    }
  }

  lemma {:induction false} ShrAll(x: nat, w: nat)
    requires x < Pow2(w)
    ensures Shr(x, w) == 0
  {
    if w > 0 {
      ShrAll(x / 2, w - 1);
    }
  }

  lemma {:induction false} ShrShl(x: nat, k: nat)
    ensures Shr(Shl(x, k), k) == x
  {
    if k > 0 {
      assert Shl(x, k) / 2 == Shl(x, k - 1);
      ShrShl(x, k - 1);
    }
  }

  lemma {:induction false} ShlBit(x: nat, k: nat, j: nat)
    ensures Bit(Shl(x, k), j) <==> j >= k && Bit(x, j - k)
  {
    if k > 0 {
      BitOfDouble(Shl(x, k - 1), 0, j);
      if j > 0 {
        ShlBit(x, k - 1, j - 1);
      }
    }
  }

  lemma {:induction false} LowBit(x: nat, n: nat, j: nat)
    ensures Bit(Low(x, n), j) <==> j < n && Bit(x, j)
  {
    if n == 0 {
      ZeroBit(j);
    } else {
      BitOfDouble(Low(x / 2, n - 1), x % 2, j);
      if j > 0 {
        LowBit(x / 2, n - 1, j - 1);
      }
    }
  }

  lemma {:induction false} LowBound(x: nat, n: nat)
    ensures Low(x, n) < Pow2(n)
  {
    if n > 0 {
      LowBound(x / 2, n - 1);
    }
  }

  lemma {:induction false} LowWhole(x: nat, n: nat)
    requires x < Pow2(n)
    ensures Low(x, n) == x
  {
    if n > 0 {
      LowWhole(x / 2, n - 1);
    }
  }

  lemma {:induction false} ShlBound(x: nat, n: nat, k: nat)
    requires x < Pow2(n)
    ensures Shl(x, k) < Pow2(n + k)
  {
    if k > 0 {
      ShlBound(x, n, k - 1);
    }
  }

  /** The bit a walk tests at depth `d`, having started at bit `s` and shifted right once a step. */
  function WalkBit(s: nat, d: nat): nat {
    if d <= s then Pow2(s - d) else 0
  }

  lemma WalkShift(s: nat, d: nat)
    ensures WalkBit(s, d) / 2 == WalkBit(s, d + 1)
  {
    if d < s {
      assert Pow2(s - d) == 2 * Pow2(s - d - 1);
    }
  }

  /** The branches a walk of `w` steps from bit `s` takes. */
  function WalkBits(w: nat, s: nat, x: nat): (r: seq<bool>)
    ensures |r| == w
  {
    seq(w, d requires 0 <= d => And(x, WalkBit(s, d)) != 0)
  }

  /** The `w` bits of `x`, most significant first. */
  function KeyBits(w: nat, x: nat): (r: seq<bool>)
    requires w > 0
    ensures |r| == w
  {
    WalkBits(w, w - 1, x)
  }

  /** The path of a key: the bit at depth `d` is that of weight 2^(w - 1 - d). */
  lemma KeyBitsAre(w: nat, x: nat, d: nat)
    requires d < w
    ensures KeyBits(w, x)[d] <==> x / Pow2(w - 1 - d) % 2 == 1
  {
    AndBit(x, w - 1 - d);
    BitIs(x, w - 1 - d);
    hide And, Bit, Pow2;
  }

  /** Two numbers agree on their first `p` bits exactly when they agree once the other bits are shifted out. */
  lemma {:induction false} SamePrefix(w: nat, p: nat, x: nat, y: nat)
    requires 0 < w && p <= w && x < Pow2(w) && y < Pow2(w)
    ensures KeyBits(w, x)[..p] == KeyBits(w, y)[..p] <==> Shr(x, w - p) == Shr(y, w - p)
    decreases p
  {
    if p == 0 {
      ShrAll(x, w);
      ShrAll(y, w);
    } else {
      SamePrefix(w, p - 1, x, y);
      ShrStep(x, w - p);
      ShrStep(y, w - p);
      AndBit(x, w - p);
      AndBit(y, w - p);
      assert KeyBits(w, x)[..p] == KeyBits(w, x)[..p - 1] + [KeyBits(w, x)[p - 1]];
      assert KeyBits(w, y)[..p] == KeyBits(w, y)[..p - 1] + [KeyBits(w, y)[p - 1]];
    }
  }

  /** The key whose bits a walk from bit `s` of a `w`-bit trie follows: the low `s + 1` bits, moved to the top. */
  function Shifted(w: nat, s: nat, x: nat): nat
    requires s < w
  {
    Shl(Low(x, s + 1), w - 1 - s)
  }

  /** Walking `x` from bit `s` takes the branches of the full key `Shifted(w, s, x)`. */
  lemma WalkIsShiftedKey(w: nat, s: nat, x: nat)
    requires s < w
    ensures WalkBits(w, s, x) == KeyBits(w, Shifted(w, s, x))
    ensures Shifted(w, s, x) < Pow2(w)
  {
    forall d: nat | d < w
      ensures WalkBits(w, s, x)[d] == KeyBits(w, Shifted(w, s, x))[d]
    {
      AndBit(Shifted(w, s, x), w - 1 - d);
      ShlBit(Low(x, s + 1), w - 1 - s, w - 1 - d);
      if d <= s {
        LowBit(x, s + 1, s - d);
        AndBit(x, s - d);
      } else {
        assert And(x, 0) == 0;
      }
    }
    LowBound(x, s + 1);
    ShlBound(Low(x, s + 1), s + 1, w - 1 - s);
  }

  /** A walk from the top bit follows the key itself. */
  lemma ShiftedFromTop(w: nat, x: nat)
    requires w > 0 && x < Pow2(w)
    ensures Shifted(w, w - 1, x) == x
  {
    LowWhole(x, w);
  }

  /** Shifting the low bits to the top changes every key but zero. */
  lemma ShiftedFixpoint(w: nat, s: nat, x: nat)
    requires s < w && s + 1 <= w - 1 - s
    ensures Shifted(w, s, x) == x <==> x == 0
  {
    var k := w - 1 - s;
    if x == 0 {
      LowWhole(0, s + 1);
      ShlIsProduct(0, k);
    } else if Shifted(w, s, x) == x {
      LowOfShl(Low(x, s + 1), k, s + 1);
      ShlIsProduct(0, k);
    }
  }

  /** Shifting the low bits to the top twice leaves nothing. */
  lemma ShiftedTwice(w: nat, s: nat, x: nat)
    requires s < w && s + 1 <= w - 1 - s
    ensures Shifted(w, s, Shifted(w, s, x)) == 0
  {
    LowOfShl(Low(x, s + 1), w - 1 - s, s + 1);
    ShlIsProduct(0, w - 1 - s);
  }

  lemma {:induction false} LowOfShl(x: nat, k: nat, n: nat)
    requires n <= k
    ensures Low(Shl(x, k), n) == 0
  {
    if n > 0 {
      assert Shl(x, k) / 2 == Shl(x, k - 1);
      LowOfShl(x, k - 1, n - 1);
    }
  }
}
