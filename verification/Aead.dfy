/** AEAD ciphers as an abstract pair of functions, and the cipher object with its counting nonce. */
module Aead {
  import opened Bytes
  import opened Bits

  /** An AEAD under one key: `seal` and `open` take the nonce and the text; the tag is part of the sealed text. */
  datatype Aead = Aead(seal: (bytes, bytes) -> bytes, open: (bytes, bytes) -> Option<bytes>) {
    /** All that is assumed of the cipher: opening undoes sealing, and the tag is 16 bytes. */
    ghost predicate Sound() {
      && (forall nonce: bytes, plain: bytes {:trigger seal(nonce, plain)} ::
            |seal(nonce, plain)| == |plain| + TAG_LEN && open(nonce, seal(nonce, plain)) == Some(plain))
      && (forall nonce: bytes, text: bytes {:trigger open(nonce, text)} ::
            open(nonce, text).Some? && |text| >= TAG_LEN ==> |open(nonce, text).value| == |text| - TAG_LEN)
    }
  }

  datatype CipherKind = NoCipher | Aes128Gcm | Aes256Gcm | ChaCha20Poly1305 {
    function KeyLen(): nat {
      match this
      case NoCipher => 0
      case Aes128Gcm => 16
      case Aes256Gcm => 32
      case ChaCha20Poly1305 => 32
    }

    function SaltLen(): nat { KeyLen() }
  }

  /** The length of a salt, in plain numbers. */
  lemma SaltLenIs(kind: CipherKind)
    ensures kind.SaltLen() == match kind case NoCipher => 0 case Aes128Gcm => 16 case Aes256Gcm => 32 case ChaCha20Poly1305 => 32
  {
  }

  /** What is assumed of a cipher, in plain numbers; there are such ciphers. */
  lemma SoundIs(a: Aead, nonce: bytes, plain: bytes)
    requires a.Sound()
    ensures |a.seal(nonce, plain)| == |plain| + 16 && a.open(nonce, a.seal(nonce, plain)) == Some(plain)
  {
  }

  lemma SoundExists() returns (a: Aead)
    ensures a.Sound()
  {
    a := Aead((nonce: bytes, plain: bytes) => plain + seq(TAG_LEN, _ => 0),
              (nonce: bytes, text: bytes) => if |text| >= TAG_LEN then Some(text[..|text| - TAG_LEN]) else None);
    forall nonce: bytes, plain: bytes ensures a.open(nonce, a.seal(nonce, plain)) == Some(plain) {
      assert (plain + seq(TAG_LEN, _ => 0))[..|plain|] == plain;
    }
  }

  const NONCE_LEN := 12

  /** The nonce of the `k`-th use of a cipher: `k`, little endian, in twelve bytes. */
  function Nonce(k: nat): (r: bytes)
    ensures |r| == NONCE_LEN
  {
    LittleEndian(NONCE_LEN, k)
  }

  /** The bytes of the nonce, the lowest first. */
  lemma NonceBytes(k: nat)
    ensures Nonce(k) ==
              [k % 256, k / 0x100 % 256, k / 0x1_0000 % 256, k / 0x100_0000 % 256,
               k / 0x1_0000_0000 % 256, k / 0x100_0000_0000 % 256, k / 0x1_0000_0000_0000 % 256, k / 0x100_0000_0000_0000 % 256,
               k / 0x1_0000_0000_0000_0000 % 256, k / 0x100_0000_0000_0000_0000 % 256,
               k / 0x1_0000_0000_0000_0000_0000 % 256, k / 0x100_0000_0000_0000_0000_0000 % 256]
  {
    forall i | 0 <= i < 12 ensures Nonce(k)[i] == k / Power256(i) % 256 {
      LittleEndianByte(12, k, i);
    }
    hide LittleEndian;
    Powers();
    hide Power256;
  }

  lemma {:induction false} LittleEndianByte(len: nat, k: nat, i: nat)
    requires i < len
    ensures LittleEndian(len, k)[i] == k / Power256(i) % 256
  {
    if i > 0 {
      LittleEndianByte(len - 1, k / 256, i - 1);
      DividedTwice(k, Power256(i - 1));
      assert LittleEndian(len, k)[1..] == LittleEndian(len - 1, k / 256);
    }
  }

  lemma DividedTwice(k: nat, p: nat)
    requires p > 0
    ensures k / 256 / p == k / (256 * p)
  {
    ModSplit(k, p);
    var low := k % (256 * p);
    assert k == 256 * (k / 256) + k % 256 && k / 256 == p * (k / 256 / p) + k / 256 % p;
    var q := k / 256 / p;
    assert 256 * (p * q) == 256 * p * q;
    assert k == 256 * p * q + low;
    UniqueRemainder(k, 256 * p, q, low);
  }

  lemma Powers()
    ensures Power256(0) == 1 && Power256(1) == 0x100 && Power256(2) == 0x1_0000 && Power256(3) == 0x100_0000
    ensures Power256(4) == 0x1_0000_0000 && Power256(5) == 0x100_0000_0000 && Power256(6) == 0x1_0000_0000_0000
    ensures Power256(7) == 0x100_0000_0000_0000 && Power256(8) == 0x1_0000_0000_0000_0000
    ensures Power256(9) == 0x100_0000_0000_0000_0000 && Power256(10) == 0x1_0000_0000_0000_0000_0000
    ensures Power256(11) == 0x100_0000_0000_0000_0000_0000
  {
    assert Power256(4) == 0x1_0000_0000;
    assert Power256(8) == 0x1_0000_0000_0000_0000;
  }

  /** Two uses share a nonce exactly when they are a multiple of 2^96 apart. */
  lemma NoncesRepeat(i: nat, j: nat)
    ensures Nonce(i) == Nonce(j) <==> i % Power256(NONCE_LEN) == j % Power256(NONCE_LEN)
  {
    LittleEndianInjective(NONCE_LEN, i, j);
  }

  lemma FirstNoncesDistinct(i: nat, j: nat)
    requires i < j < 0x1_0000_0000_0000_0000_0000_0000
    ensures Nonce(i) != Nonce(j)
  {
    Power256Of12();
    NoncesRepeat(i, j);
    SmallMod(i, Power256(NONCE_LEN));
    SmallMod(j, Power256(NONCE_LEN));
  }

  lemma SmallMod(a: nat, m: nat)
    requires a < m
    ensures a % m == a
  {
  }

  lemma Power256Of12()
    ensures Power256(NONCE_LEN) == 0x1_0000_0000_0000_0000_0000_0000
  {
    assert Power256(4) == 0x1_0000_0000;
    assert Power256(8) == 0x1_0000_0000_0000_0000;
  }

  lemma {:induction false} LittleEndianInjective(len: nat, i: nat, j: nat)
    ensures LittleEndian(len, i) == LittleEndian(len, j) <==> i % Power256(len) == j % Power256(len)
  {
    if len > 0 {
      LittleEndianInjective(len - 1, i / 256, j / 256);
      ModSplit(i, Power256(len - 1));
      ModSplit(j, Power256(len - 1));
      assert LittleEndian(len, i)[0] == i % 256 && LittleEndian(len, j)[0] == j % 256;
      assert LittleEndian(len, i)[1..] == LittleEndian(len - 1, i / 256);
      assert LittleEndian(len, j)[1..] == LittleEndian(len - 1, j / 256);
    }
  }

  lemma ModSplit(i: nat, p: nat)
    requires p > 0
    ensures i % (256 * p) == 256 * (i / 256 % p) + i % 256
  {
    var q, r := i / 256 / p, i / 256 % p;
    assert i == 256 * (i / 256) + i % 256;
    assert i / 256 == p * q + r;
    assert 256 * (p * q) == 256 * p * q;
    var low := 256 * r + i % 256;
    assert 256 * r <= 256 * (p - 1);
    assert i == 256 * p * q + low && 0 <= low < 256 * p;
    UniqueRemainder(i, 256 * p, q, low);
  }

  /** Adding one to a little-endian number, dropping the final carry. */
  function Increment(s: bytes): (r: bytes)
    ensures |r| == |s|
  {
    if s == [] then [] else if s[0] == 255 then [0] + Increment(s[1..]) else [s[0] + 1] + s[1..]
  }

  lemma {:induction false} IncrementCounts(len: nat, n: nat)
    ensures Increment(LittleEndian(len, n)) == LittleEndian(len, n + 1)
  {
    if len > 0 {
      var s := LittleEndian(len, n);
      assert s[0] == n % 256 && s[1..] == LittleEndian(len - 1, n / 256);
      if s[0] == 255 {
        IncrementCounts(len - 1, n / 256);
        assert (n + 1) / 256 == n / 256 + 1 && (n + 1) % 256 == 0;
      } else {
        assert (n + 1) / 256 == n / 256 && (n + 1) % 256 == n % 256 + 1;
      }
    }
  }

  /** `s` with a pending carry of `c` into its first byte. */
  function Carried(s: bytes, c: nat): bytes {
    if c == 1 then Increment(s) else s
  }

  lemma CarriedWhole(s: bytes)
    ensures s[..0] + Carried(s[0..], 1) == Increment(s)
    ensures forall c: nat {:trigger Carried(s[|s|..], c)} :: s[..|s|] + Carried(s[|s|..], c) == s
  {
    assert s[0..] == s && s[..|s|] == s && s[|s|..] == [];
  }

  lemma CarryFront(x: byte, s: bytes, c: nat)
    requires c <= 1
    ensures Carried([x] + s, c) == [(x + c) % 256] + Carried(s, (x + c) / 256)
  {
    assert ([x] + s)[1..] == s;
  }

  /** One turn of the carry loop moves the carry one byte up. */
  lemma CarryStep(s: bytes, n: nat, c: nat, d: byte)
    requires n < |s| && c <= 1 && d == (s[n] + c) % 256
    ensures s[n := d][..n + 1] + Carried(s[n := d][n + 1..], (s[n] + c) / 256) == s[..n] + Carried(s[n..], c)
  {
    hide Carried;
    CarryFront(s[n], s[n + 1..], c);
    assert s[n..] == [s[n]] + s[n + 1..];
    assert s[n := d][n + 1..] == s[n + 1..];
    assert s[n := d][..n + 1] == s[..n] + [d];
  }

  /** The cipher of one direction of a stream. Its nonce counts the texts sealed or opened so far. */
  class AeadCipher {
    const aead: Aead
    const nonce: array<byte>
    const nlen: nat := NONCE_LEN  // every AEAD kind has twelve-byte nonces
    ghost var uses: nat

    ghost predicate Valid()
      reads this, nonce
    {
      nonce.Length == 24 && nonce[..nlen] == Nonce(uses)
    }

    constructor (aead: Aead)
      ensures Valid() && fresh(nonce) && this.aead == aead && uses == 0
    {
      this.aead := aead;
      nonce := new byte[24](_ => 0);
      uses := 0;
      new;
      ZeroNonce(nonce[..nlen]);
    }

    /** Adds `c` to byte `n`; what overflows the byte is the next carry. */
    method AddAt(n: nat, c: nat) returns (carry: nat)
      requires nonce.Length == 24 && n < nlen && c <= 1
      modifies nonce
      ensures carry <= 1
      ensures nonce[..nlen][..n + 1] + Carried(nonce[..nlen][n + 1..], carry) ==
                old(nonce[..nlen][..n] + Carried(nonce[..nlen][n..], c))
    {
      hide Increment, Carried;
      ghost var s := nonce[..nlen];
      var sum := c + nonce[n];
      CarryStep(s, n, c, sum % 256);
      nonce[n] := sum % 256;
      assert nonce[..nlen] == s[n := sum % 256];
      carry := sum / 256;
    }

    /** The carry loop adds one to the little-endian number in the first `nlen` bytes. */
    method IncreaseNonce()
      requires nonce.Length == 24
      modifies nonce
      ensures nonce[..nlen] == Increment(old(nonce[..nlen]))
    {
      hide Increment, Carried;
      CarriedWhole(nonce[..nlen]);
      var c := AddAt(0, 1);
      var n := 1;
      while n < nlen
        invariant 1 <= n <= nlen && c <= 1
        invariant nonce[..nlen][..n] + Carried(nonce[..nlen][n..], c) == Increment(old(nonce[..nlen]))
      {
        c := AddAt(n, c);
        n := n + 1;
      }
      CarriedWhole(nonce[..nlen]);
    }

    method Encrypt(plain: bytes) returns (sealed: bytes)
      requires Valid()
      modifies `uses, nonce
      ensures Valid() && uses == old(uses) + 1
      ensures sealed == aead.seal(Nonce(old(uses)), plain)
    {
      hide Increment;
      sealed := aead.seal(nonce[..nlen], plain);
      IncreaseNonce();
      IncrementCounts(nlen, uses);
      uses := uses + 1;
    }

    /** A failed opening advances the nonce too. */
    method Decrypt(text: bytes) returns (plain: Option<bytes>)
      requires Valid()
      modifies `uses, nonce
      ensures Valid() && uses == old(uses) + 1
      ensures plain == aead.open(Nonce(old(uses)), text)
    {
      hide Increment;
      plain := aead.open(nonce[..nlen], text);
      IncreaseNonce();
      IncrementCounts(nlen, uses);
      uses := uses + 1;
    }
  }

  lemma ZeroNonce(s: bytes)
    requires forall i :: 0 <= i < |s| ==> s[i] == 0
    ensures s == LittleEndian(|s|, 0)
  {
    if s != [] {
      ZeroNonce(s[1..]);
    }
  }
}
