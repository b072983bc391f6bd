/** The VMess key derivation: HMAC whose hash function is itself an HMAC, three levels deep, as resumable hashers. */
module Kdf {
  import opened Bits
  import opened Bytes

  const BLOCK_LEN := 64
  const DIGEST_LEN := 32
  const IPAD: byte := 0x36
  const OPAD: byte := 0x5C

  type Digest = d: bytes | |d| == DIGEST_LEN witness seq(DIGEST_LEN, _ => 0)

  type Hash = bytes -> Digest

  lemma {:induction false} XorBound(n: nat, x: nat, y: nat)
    requires x < Pow2(n) && y < Pow2(n)
    ensures Xor(x, y) < Pow2(n)
  {
    if n > 0 {
      XorBound(n - 1, x / 2, y / 2);
    }
  }

  function XorByte(x: byte, y: byte): byte {
    assert Pow2(8) == 256;
    XorBound(8, x, y);
    Xor(x, y)
  }

  /** `^` on bytes, bit by bit. */
  lemma XorBits(x: byte, y: byte)
    ensures forall d <- {1, 2, 4, 8, 16, 32, 64, 128} :: XorByte(x, y) / d % 2 == (x / d % 2 + y / d % 2) % 2
  {
    assert Pow2(0) == 1 && Pow2(1) == 2 && Pow2(2) == 4 && Pow2(3) == 8;
    assert Pow2(4) == 16 && Pow2(5) == 32 && Pow2(6) == 64 && Pow2(7) == 128;
    forall j | 0 <= j < 8 ensures XorByte(x, y) / Pow2(j) % 2 == (x / Pow2(j) % 2 + y / Pow2(j) % 2) % 2 {
      XorBitAt(x, y, j);
    }
    hide Pow2, XorByte;
  }

  lemma XorBitAt(x: byte, y: byte, j: nat)
    ensures XorByte(x, y) / Pow2(j) % 2 == (x / Pow2(j) % 2 + y / Pow2(j) % 2) % 2
  {
    hide Bit, Xor, Pow2;
    XorBit(x, y, j);
    BitIs(x, j);
    BitIs(y, j);
    BitIs(Xor(x, y), j);
    Parity(x / Pow2(j), y / Pow2(j), Xor(x, y) / Pow2(j));
  }

  lemma Parity(a: nat, b: nat, c: nat)
    requires c % 2 == 1 <==> (a % 2 == 1) != (b % 2 == 1)
    ensures c % 2 == (a % 2 + b % 2) % 2
  {
  }

  function Masked(k: bytes, mask: byte): (r: bytes)
    ensures |r| == |k|
  {
    seq(|k|, i requires 0 <= i < |k| => XorByte(k[i], mask))
  }

  /** The key brought to the block length: hashed if it is longer, then padded with zeros. */
  function BlockKey(h: Hash, key: bytes): (r: bytes)
    ensures |r| == BLOCK_LEN
  {
    var k := if |key| > BLOCK_LEN then h(key) else key;
    k + seq(BLOCK_LEN - |k|, _ => 0)
  }

  function InnerKey(h: Hash, key: bytes): bytes { Masked(BlockKey(h, key), IPAD) }

  function OuterKey(h: Hash, key: bytes): bytes { Masked(BlockKey(h, key), OPAD) }

  /** Byte `i` of a key brought to the block length. */
  function PaddedByte(h: Hash, key: bytes, i: nat): byte {
    if |key| > 64 then (if i < 32 then h(key)[i] else 0) else if i < |key| then key[i] else 0
  }

  /** The key blocks are 64 bytes long, and byte `i` of each is that of the key, XORed with 0x36 or 0x5C. */
  lemma KeyBlockBytes(h: Hash, key: bytes, i: nat)
    requires i < 64
    ensures |InnerKey(h, key)| == |OuterKey(h, key)| == 64
    ensures forall d <- {1, 2, 4, 8, 16, 32, 64, 128} ::
              && InnerKey(h, key)[i] / d % 2 == (PaddedByte(h, key, i) / d % 2 + 0x36 / d % 2) % 2
              && OuterKey(h, key)[i] / d % 2 == (PaddedByte(h, key, i) / d % 2 + 0x5C / d % 2) % 2
  {
    hide XorByte;
    assert BlockKey(h, key)[i] == PaddedByte(h, key, i);
    XorBits(PaddedByte(h, key, i), 0x36);
    XorBits(PaddedByte(h, key, i), 0x5C);
  }

  /** The two hashes of HMAC: the outer block, then the inner digest; the inner block, then the text. */
  lemma HmacIs(h: Hash, key: bytes, text: bytes)
    ensures Hmac(h, key)(text) == h(OuterKey(h, key) + h(InnerKey(h, key) + text))
  {
  }

  /** HMAC over the hash function `h`, section 2 of RFC 2104. */
  function Hmac(h: Hash, key: bytes): Hash {
    text => h(OuterKey(h, key) + h(InnerKey(h, key) + text))
  }

  /** HMAC under the last key, over HMAC under the key before it, and so on down to `prf`. */
  function Nested(prf: Hash, keys: seq<bytes>): Hash {
    if keys == [] then prf else Hmac(Nested(prf, keys[..|keys| - 1]), keys[|keys| - 1])
  }

  /** A key longer than a block works exactly as its digest does. */
  lemma LongKeyIsHashed(h: Hash, key: bytes, text: bytes)
    requires |key| > BLOCK_LEN
    ensures Hmac(h, key)(text) == Hmac(h, h(key))(text)
  {
    assert BlockKey(h, key) == BlockKey(h, h(key));
    assert InnerKey(h, key) == InnerKey(h, h(key)) && OuterKey(h, key) == OuterKey(h, h(key));
  }

  /**
   A hasher of any depth. At depth zero it is the library's keyed HMAC-SHA256, which remembers the text fed to it. A level
   above it owns two hashers of the level below; they are plain values, and `clone` copies them.
   */
  datatype Hasher = Library(fed: bytes) | Level(okey: bytes, hasher: Hasher, outer: Hasher) {
    function Depth(): nat {
      if Library? then 0 else 1 + if hasher.Depth() > outer.Depth() then hasher.Depth() else outer.Depth()
    }

    /** `update` */
    function Update(m: bytes): (r: Hasher)
      ensures r.Depth() == Depth()
    {
      if Library? then Library(fed + m) else this.(hasher := hasher.Update(m))
    }

    /** `finalize`; `prf` is the library's function. */
    function Finalize(prf: Hash): Digest
      decreases Depth()
    {
      if Library? then prf(fed) else
      var h1 := hasher.Finalize(prf);
      outer.Update(okey).Update(h1).Finalize(prf)
    }
  }

  /** The state of a hasher for `keys` that has seen `text`. */
  function Seen(prf: Hash, keys: seq<bytes>, text: bytes): Hasher {
    if keys == [] then Library(text) else
    var below, key := keys[..|keys| - 1], keys[|keys| - 1];
    var h := Nested(prf, below);
    Level(OuterKey(h, key), Seen(prf, below, InnerKey(h, key) + text), Seen(prf, below, []))
  }

  /** Only the concatenation of what was fed matters. */
  lemma {:induction false} UpdateAppends(prf: Hash, keys: seq<bytes>, text: bytes, m: bytes)
    ensures Seen(prf, keys, text).Update(m) == Seen(prf, keys, text + m)
    decreases |keys|
  {
    if keys != [] {
      var below := keys[..|keys| - 1];
      var ikey := InnerKey(Nested(prf, below), keys[|keys| - 1]);
      UpdateAppends(prf, below, ikey + text, m);
      assert ikey + text + m == ikey + (text + m);
    }
  }

  /** A hasher computes the nested HMAC of all that it has seen, at every depth. */
  lemma {:induction false} FinalizeIsNested(prf: Hash, keys: seq<bytes>, text: bytes)
    ensures Seen(prf, keys, text).Finalize(prf) == Nested(prf, keys)(text)
    decreases |keys|
  {
    hide InnerKey, OuterKey;
    if keys != [] {
      var below, key := keys[..|keys| - 1], keys[|keys| - 1];
      var h := Nested(prf, below);
      FinalizeIsNested(prf, below, InnerKey(h, key) + text);
      var h1 := h(InnerKey(h, key) + text);
      UpdateAppends(prf, below, [], OuterKey(h, key));
      assert [] + OuterKey(h, key) == OuterKey(h, key);
      UpdateAppends(prf, below, OuterKey(h, key), h1);
      FinalizeIsNested(prf, below, OuterKey(h, key) + h1);
    }
  }

  /** `update` once per part. */
  function UpdateAll(h: Hasher, parts: seq<bytes>): Hasher
    decreases |parts|
  {
    if parts == [] then h else UpdateAll(h.Update(parts[0]), parts[1..])
  }

  /** However a text is cut into updates, its digest is the nested HMAC of the whole. */
  lemma {:induction false} SplittingDoesNotMatter(prf: Hash, keys: seq<bytes>, text: bytes, parts: seq<bytes>)
    ensures UpdateAll(Seen(prf, keys, text), parts).Finalize(prf) == Nested(prf, keys)(text + Flatten(parts))
    decreases |parts|
  {
    if parts == [] {
      FinalizeIsNested(prf, keys, text);
      assert text + [] == text;
    } else {
      UpdateAppends(prf, keys, text, parts[0]);
      SplittingDoesNotMatter(prf, keys, text + parts[0], parts[1..]);
      assert text + parts[0] + Flatten(parts[1..]) == text + Flatten(parts);
    }
  }

  /** `new`: the next level over a hasher that has seen nothing yet. */
  method New(prf: Hash, hasher: Hasher, key: bytes, ghost keys: seq<bytes>) returns (r: Hasher)
    requires hasher == Seen(prf, keys, [])
    ensures r == Seen(prf, keys + [key], [])
  {
    hide Nested, Seen, BlockKey;
    ghost var h := Nested(prf, keys);
    var short := key;
    if |key| > BLOCK_LEN {
      UpdateAppends(prf, keys, [], key);
      FinalizeIsNested(prf, keys, key);
      assert [] + key == key;
      short := hasher.Update(key).Finalize(prf);
    }
    ghost var k := BlockKey(h, key);
    BlockKeyOf(h, key, short);
    var inner, outer := KeyBlocks(short, k);
    UpdateAppends(prf, keys, [], inner);
    assert [] + inner == inner;
    r := Level(outer, hasher.Update(inner), hasher);
    NextLevel(prf, keys, key);
  }

  lemma BlockKeyOf(h: Hash, key: bytes, short: bytes)
    requires short == if |key| > BLOCK_LEN then h(key) else key
    ensures |short| <= BLOCK_LEN && BlockKey(h, key) == short + seq(BLOCK_LEN - |short|, _ => 0)
  {
  }

  lemma NextLevel(prf: Hash, keys: seq<bytes>, key: bytes)
    ensures var h := Nested(prf, keys);
            Seen(prf, keys + [key], []) ==
              Level(OuterKey(h, key), Seen(prf, keys, InnerKey(h, key)), Seen(prf, keys, []))
  {
    assert (keys + [key])[..|keys|] == keys;
    assert InnerKey(Nested(prf, keys), key) + [] == InnerKey(Nested(prf, keys), key);
  }

  /** The two key blocks, masked in place. */
  method KeyBlocks(short: bytes, ghost k: bytes) returns (inner: bytes, outer: bytes)
    requires |short| <= BLOCK_LEN && k == short + seq(BLOCK_LEN - |short|, _ => 0)
    ensures inner == Masked(k, IPAD) && outer == Masked(k, OPAD)
  {
    hide XorByte;
    var ikey := new byte[BLOCK_LEN](i => if 0 <= i < |short| then short[i] else 0);
    var okey := new byte[BLOCK_LEN](i => if 0 <= i < |short| then short[i] else 0);
    for idx := 0 to BLOCK_LEN
      invariant forall i :: 0 <= i < idx ==> ikey[i] == XorByte(k[i], IPAD) && okey[i] == XorByte(k[i], OPAD)
      invariant forall i :: idx <= i < BLOCK_LEN ==> ikey[i] == k[i] && okey[i] == k[i]
    {
      ikey[idx] := XorByte(ikey[idx], IPAD);
      okey[idx] := XorByte(okey[idx], OPAD);
    }
    inner, outer := ikey[..], okey[..];
  }

  /** "VMess AEAD KDF" */
  const KDF_SALT: bytes := [86, 77, 101, 115, 115, 32, 65, 69, 65, 68, 32, 75, 68, 70]

  /** The salt, letter by letter. */
  lemma SaltLetters()
    ensures |KDF_SALT| == |"VMess AEAD KDF"| && forall i :: 0 <= i < |KDF_SALT| ==> KDF_SALT[i] as int == "VMess AEAD KDF"[i] as int
  {
  }

  /** `vmess_kdf_1_one_shot`; `HmacSha256::new_from_slice(KDF_SALT)` is the library's HMAC, over the hash function `sha`. */
  method OneShot1(sha: Hash, id: bytes, key1: bytes) returns (r: Digest)
    ensures r == Hmac(Hmac(sha, KDF_SALT), key1)(id)
  {
    hide Hmac;
    var prf := Hmac(sha, KDF_SALT);
    assert [] + [key1] == [key1] && [key1][..0] == [];
    var h := New(prf, Library([]), key1, []);
    r := Digested(prf, h, id, [key1]);
  }

  /** `vmess_kdf_3_one_shot` */
  method OneShot3(sha: Hash, id: bytes, key1: bytes, key2: bytes, key3: bytes) returns (r: Digest)
    ensures r == Hmac(Hmac(Hmac(Hmac(sha, KDF_SALT), key1), key2), key3)(id)
  {
    var prf := Hmac(sha, KDF_SALT);
    ghost var one, two, three := [key1], [key1, key2], [key1, key2, key3];
    assert three[..2] == two && two[..1] == one && one[..0] == [];
    assert Nested(prf, one) == Hmac(prf, key1);
    assert Nested(prf, two) == Hmac(Hmac(prf, key1), key2);
    assert Nested(prf, three) == Hmac(Hmac(Hmac(prf, key1), key2), key3);
    assert Seen(prf, [], []) == Library([]);
    hide Hmac, Nested, Seen;
    assert [] + [key1] == one && one + [key2] == two && two + [key3] == three;
    var h := New(prf, Library([]), key1, []);
    h := New(prf, h, key2, one);
    h := New(prf, h, key3, two);
    r := Digested(prf, h, id, three);
  }

  /** Feeds `id` and finishes. */
  method Digested(prf: Hash, h: Hasher, id: bytes, ghost keys: seq<bytes>) returns (r: Digest)
    requires h == Seen(prf, keys, [])
    ensures r == Nested(prf, keys)(id)
  {
    UpdateAppends(prf, keys, [], id);
    FinalizeIsNested(prf, keys, id);
    assert [] + id == id;
    r := h.Update(id).Finalize(prf);
  }
}
