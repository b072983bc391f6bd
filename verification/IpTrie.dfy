/** The array-encoded binary trie of the CIDR router, and longest-prefix matching over a list of rules. */
module IpTrie {
  import opened Bytes
  import opened Bits

  /** `u32::MAX`, the value of a node without one. */
  const NONE: nat := 0xFFFF_FFFF

  type Path = seq<bool>

  /** The value at the longest prefix of `bits[..d]`, shorter than `d`, that has one. */
  function Lookup(m: map<Path, nat>, bits: Path, d: nat): nat
    requires d <= |bits| + 1
  {
    if d == 0 then NONE
    else if bits[..d - 1] in m then m[bits[..d - 1]]
    else Lookup(m, bits, d - 1)
  }

  /** Where a rule of prefix length `prefix` is stored: the shift that builds its mask wraps, so length 0 acts as `w`. */
  function Depth(w: nat, prefix: nat): (r: nat)
    requires w > 0 && prefix <= w
    ensures 0 < r <= w
  {
    w - (w - prefix) % w
  }

  lemma DepthIs(w: nat, prefix: nat)
    requires w > 0 && prefix <= w
    ensures Depth(w, prefix) == if prefix == 0 then w else prefix
  {
  }

  /** The three parallel vectors, each node's left child, right child and value. */
  datatype Arrays = Arrays(left: seq<nat>, right: seq<nat>, value: seq<nat>) {
    function Child(node: nat, b: bool): nat
      requires node < |left| && node < |right|
    {
      if b then right[node] else left[node]
    }
  }

  /** `$ip_type::MAX`, the index of no node. */
  function Null(w: nat): nat { Pow2(w) - 1 }

  /**
   The trie's invariant: every node stands for exactly one path of at most `w` branches, the paths are closed under prefixes, and a
   child link is `Null` exactly when there is no node for the longer path.
   */
  ghost predicate Shaped(w: nat, a: Arrays, nodes: map<Path, nat>) {
    && w > 0 && |a.left| == |a.right| == |a.value|
    && [] in nodes && nodes[[]] == 0
    && (forall p {:trigger nodes[p]} :: p in nodes ==> |p| <= w && nodes[p] < |a.value| && nodes[p] < Null(w))
    && (forall p, q {:trigger nodes[p], nodes[q]} :: p in nodes && q in nodes && nodes[p] == nodes[q] ==> p == q)
    && (forall p, b {:trigger a.Child(nodes[p], b)} :: p in nodes ==>
          a.Child(nodes[p], b) == if p + [b] in nodes then nodes[p + [b]] else Null(w))
    && (forall p, b {:trigger p + [b]} :: p + [b] in nodes ==> p in nodes)
  }

  /** The values stored, by path. */
  ghost function TableOf(a: Arrays, nodes: map<Path, nat>): map<Path, nat>
    requires forall p {:trigger nodes[p]} :: p in nodes ==> nodes[p] < |a.value|
  {
    map p | p in nodes && a.value[nodes[p]] != NONE :: a.value[nodes[p]]
  }

  /** Following a link leads to the node of the longer path, or finds that there is none. */
  lemma ShapedChild(w: nat, a: Arrays, nodes: map<Path, nat>, p: Path, b: bool)
    requires Shaped(w, a, nodes) && p in nodes
    ensures |p| <= w && nodes[p] < |a.left| == |a.right| == |a.value| && nodes[p] != Null(w)
    ensures p + [b] in nodes ==> a.Child(nodes[p], b) == nodes[p + [b]] != Null(w)
    ensures p + [b] !in nodes ==> a.Child(nodes[p], b) == Null(w)
    ensures |p| == w ==> p + [b] !in nodes
  {
    var c := a.Child(nodes[p], b);
    if p + [b] in nodes {
      assert nodes[p + [b]] < Null(w);
    }
  }

  /** The vectors after `node` has got a new, last, child. */
  function WithChild(a: Arrays, w: nat, node: nat, b: bool): Arrays
    requires node < |a.left| == |a.right| == |a.value|
  {
    var left, right := a.left + [Null(w)], a.right + [Null(w)];
    if b then Arrays(left, right[node := |a.value|], a.value + [NONE])
    else Arrays(left[node := |a.value|], right, a.value + [NONE])
  }

  lemma ShapedWithChild(w: nat, a: Arrays, nodes: map<Path, nat>, p: Path, b: bool)
    requires Shaped(w, a, nodes) && p in nodes && p + [b] !in nodes && |p| < w && |a.value| < Null(w)
    ensures nodes[p] < |a.left| == |a.right| == |a.value|
    ensures Shaped(w, WithChild(a, w, nodes[p], b), nodes[p + [b] := |a.value|])
  {
    var n, g, more := nodes[p], WithChild(a, w, nodes[p], b), nodes[p + [b] := |a.value|];
    forall q, c | q in more
      ensures g.Child(more[q], c) == if q + [c] in more then more[q + [c]] else Null(w)
    {
      Snoc(q, c, p, b);
      if q != p + [b] {
        ShapedChild(w, a, nodes, q, c);
        if q != p {
          assert nodes[q] != n;
        }
      }
    }
    forall q, c | q + [c] in more
      ensures q in more
    {
      Snoc(q, c, p, b);
    }
  }

  lemma Snoc(q: Path, c: bool, p: Path, b: bool)
    ensures q + [c] == p + [b] <==> q == p && c == b
    ensures q + [c] != q
  {
    if q + [c] == p + [b] {
      assert q == (q + [c])[..|q|] && p == (p + [b])[..|p|];
      assert c == (q + [c])[|q|] && b == (p + [b])[|p|];
    }
    assert |q + [c]| != |q|;
  }

  lemma TableWithChild(w: nat, a: Arrays, nodes: map<Path, nat>, p: Path, b: bool)
    requires Shaped(w, a, nodes) && p in nodes && p + [b] !in nodes && nodes[p] < |a.value|
    ensures var g, more := WithChild(a, w, nodes[p], b), nodes[p + [b] := |a.value|];
            && (forall q {:trigger more[q]} :: q in more ==> more[q] < |g.value|)
            && TableOf(g, more) == TableOf(a, nodes)
  {
  }

  lemma ShapedSet(w: nat, a: Arrays, nodes: map<Path, nat>, n: nat, v: nat)
    requires Shaped(w, a, nodes) && n < |a.value|
    ensures Shaped(w, a.(value := a.value[n := v]), nodes)
  {
    var b := a.(value := a.value[n := v]);
    forall q, c | q in nodes
      ensures b.Child(nodes[q], c) == if q + [c] in nodes then nodes[q + [c]] else Null(w)
    {
      ShapedChild(w, a, nodes, q, c);
    }
  }

  lemma TableSet(w: nat, a: Arrays, nodes: map<Path, nat>, p: Path, v: nat)
    requires Shaped(w, a, nodes) && p in nodes && v != NONE
    ensures nodes[p] < |a.value|
    ensures Shaped(w, a.(value := a.value[nodes[p] := v]), nodes)
    ensures TableOf(a.(value := a.value[nodes[p] := v]), nodes) == TableOf(a, nodes)[p := v]
  {
    ShapedSet(w, a, nodes, nodes[p], v);
  }

  lemma ShapedSizes(w: nat, a: Arrays, nodes: map<Path, nat>)
    requires Shaped(w, a, nodes)
    ensures |a.left| == |a.right| == |a.value| && w > 0 && [] in nodes && nodes[[]] == 0
    ensures forall p {:trigger nodes[p]} :: p in nodes ==> nodes[p] < |a.value|
  {
  }

  /** The mask built for a rule of depth `depth` tests exactly the first `depth` bits. */
  lemma InDepth(w: nat, depth: nat, d: nat)
    requires 0 < depth <= w && d <= depth
    ensures And(Xor(Pow2(w - depth) - 1, Pow2(w) - 1), WalkBit(w - 1, d)) != 0 <==> d < depth
  {
    var mask := Xor(Pow2(w - depth) - 1, Pow2(w) - 1);
    if d < w {
      MaskBit(w, w - depth, w - 1 - d);
      AndBit(mask, w - 1 - d);
    }
  }

  lemma NoChild(w: nat, a: Arrays, nodes: map<Path, nat>, p: Path, b: bool)
    requires Shaped(w, a, nodes) && p !in nodes
    ensures p + [b] !in nodes
  {
  }

  /** No node at some depth means no node below it. */
  lemma {:induction false} NoneBelow(w: nat, a: Arrays, nodes: map<Path, nat>, bits: Path, d: nat, e: nat)
    requires Shaped(w, a, nodes) && d <= e <= |bits| && bits[..d] !in nodes
    ensures bits[..e] !in nodes
    decreases e - d
  {
    if d < e {
      assert bits[..d + 1] == bits[..d] + [bits[d]];
      NoChild(w, a, nodes, bits[..d], bits[d]);
      NoneBelow(w, a, nodes, bits, d + 1, e);
    }
  }

  lemma {:induction false} LookupBeyond(w: nat, a: Arrays, nodes: map<Path, nat>, bits: Path, d: nat, e: nat)
    requires Shaped(w, a, nodes) && d <= e <= |bits| + 1 && (d <= |bits| ==> bits[..d] !in nodes)
    requires forall p {:trigger nodes[p]} :: p in nodes ==> nodes[p] < |a.value|
    ensures Lookup(TableOf(a, nodes), bits, e) == Lookup(TableOf(a, nodes), bits, d)
    decreases e
  {
    if d < e {
      NoneBelow(w, a, nodes, bits, d, e - 1);
      LookupBeyond(w, a, nodes, bits, d, e - 1);
    }
  }

  /** `PatriciaTrie4` and `PatriciaTrie6`: the trie for keys of `w` bits. */
  class Trie {
    const w: nat
    var left: seq<nat>
    var right: seq<nat>
    var value: seq<nat>
    var size: nat
    /** The node of each path from the root. */
    ghost var nodes: map<Path, nat>

    ghost function Now(): Arrays
      reads this
    {
      Arrays(left, right, value)
    }

    ghost predicate Valid()
      reads this
    {
      Shaped(w, Now(), nodes) && size == |value|
    }

    ghost function Table(): map<Path, nat>
      requires Valid()
      reads this
    {
      TableOf(Now(), nodes)
    }

    constructor (w: nat)
      requires w > 0
      ensures Valid() && this.w == w && Table() == map[] && size == 1
    {
      this.w := w;
      left, right, value, size := [Pow2(w) - 1], [Pow2(w) - 1], [NONE], 1;
      nodes := map[[] := 0];
      new;
      assert Pow2(w) == 2 * Pow2(w - 1);
    }

    /** The first loop of `put`: follows the key as deep as there are nodes, at most to `depth`. */
    method Descend(key: nat, mask: nat, ghost depth: nat) returns (node: nat, next: nat, bit: nat, ghost d: nat)
      requires Valid() && 0 < depth <= w && mask == Xor(Pow2(w - depth) - 1, Pow2(w) - 1)
      ensures d <= depth && KeyBits(w, key)[..d] in nodes && node == nodes[KeyBits(w, key)[..d]]
      ensures bit == WalkBit(w - 1, d)
      ensures next != Null(w) <==> d == depth
      ensures next == Null(w) ==> d < depth && KeyBits(w, key)[..d + 1] !in nodes
    {
      hide Shaped, Xor;
      ghost var path := KeyBits(w, key);
      bit, node, next, d := Pow2(w - 1), 0, 0, 0;
      assert path[..0] == [];
      ShapedSizes(w, Now(), nodes);
      ShapedChild(w, Now(), nodes, [], true);
      InDepth(w, depth, 0);
      while And(mask, bit) != 0
        invariant d <= depth && path[..d] in nodes && node == nodes[path[..d]] && next != Null(w)
        invariant bit == WalkBit(w - 1, d) && (And(mask, bit) != 0 <==> d < depth)
        decreases depth - d
      {
        assert path[..d + 1] == path[..d] + [path[d]];
        ShapedChild(w, Now(), nodes, path[..d], path[d]);
        next := if And(key, bit) != 0 then right[node] else left[node];
        assert next == Now().Child(node, path[d]);
        if next == Pow2(w) - 1 {
          break;
        }
        WalkShift(w - 1, d);
        bit := bit / 2;
        node := next;
        d := d + 1;
        InDepth(w, depth, d);
      }
    }

    /** One turn of the second loop of `put`: a new node hangs below `node`. */
    method Grow(key: nat, node: nat, bit: nat, ghost d: nat) returns (next: nat)
      requires Valid() && d < w && size < Null(w) && bit == WalkBit(w - 1, d)
      requires KeyBits(w, key)[..d] in nodes && node == nodes[KeyBits(w, key)[..d]] && KeyBits(w, key)[..d + 1] !in nodes
      modifies this
      ensures Valid() && Table() == old(Table()) && size == old(size) + 1
      ensures nodes == old(nodes)[KeyBits(w, key)[..d + 1] := next]
    {
      hide Shaped, TableOf;
      ghost var path := KeyBits(w, key);
      ghost var p, b, was := path[..d], path[d], Now();
      assert path[..d + 1] == p + [b];
      ShapedChild(w, was, nodes, p, b);
      ShapedWithChild(w, was, nodes, p, b);
      TableWithChild(w, was, nodes, p, b);
      next := size;
      value := value + [NONE];
      left := left + [Pow2(w) - 1];
      right := right + [Pow2(w) - 1];
      if And(key, bit) != 0 {
        right := right[node := next];
      } else {
        left := left[node := next];
      }
      size := size + 1;
      nodes := nodes[p + [b] := next];
      assert Now() == WithChild(was, w, node, b);
    }

    method SetValue(node: nat, v: nat, ghost p: Path)
      requires Valid() && p in nodes && node == nodes[p] && v != NONE
      modifies `value
      ensures Valid() && Table() == old(Table())[p := v]
    {
      hide Shaped, TableOf;
      TableSet(w, Now(), nodes, p, v);
      value := value[node := v];
    }

    /** The second loop of `put`: a chain of new nodes, from `first` down to `depth`. */
    method Extend(key: nat, mask: nat, first: nat, firstBit: nat, ghost d0: nat, ghost depth: nat) returns (node: nat)
      requires Valid() && 0 < depth <= w && mask == Xor(Pow2(w - depth) - 1, Pow2(w) - 1)
      requires d0 < depth && KeyBits(w, key)[..d0] in nodes && first == nodes[KeyBits(w, key)[..d0]]
      requires KeyBits(w, key)[..d0 + 1] !in nodes && firstBit == WalkBit(w - 1, d0) && size + w <= Null(w)
      modifies this
      ensures Valid() && Table() == old(Table()) && size == old(size) + depth - d0
      ensures KeyBits(w, key)[..depth] in nodes && node == nodes[KeyBits(w, key)[..depth]]
    {
      hide Shaped, TableOf, Xor, Pow2, Lookup;
      ghost var path, d := KeyBits(w, key), d0;
      var bit := firstBit;
      node := first;
      InDepth(w, depth, d);
      while And(mask, bit) != 0
        invariant Valid() && Table() == old(Table()) && d0 <= d <= depth && size == old(size) + d - d0
        invariant path[..d] in nodes && node == nodes[path[..d]]
        invariant d < depth ==> path[..d + 1] !in nodes
        invariant bit == WalkBit(w - 1, d) && (And(mask, bit) != 0 <==> d < depth)
        decreases depth - d
      {
        NoneAbove(w, Now(), nodes, path, d);
        node := Grow(key, node, bit, d);
        WalkShift(w - 1, d);
        bit := bit / 2;
        d := d + 1;
        InDepth(w, depth, d);
      }
    }

    /**
     `put`: the value is stored under the first `Depth(w, prefix)` bits of the key, and nothing else changes. There must be room for
     the indices of the new nodes.
     */
    method Put(key: nat, prefix: nat, v: nat)
      requires Valid() && prefix <= w && v < NONE && size + w <= Null(w)
      modifies this
      ensures Valid() && Table() == old(Table())[KeyBits(w, key)[..Depth(w, prefix)] := v]
      ensures size <= old(size) + w
    {
      hide Shaped, TableOf, Xor;
      assert w > 0 by { ShapedSizes(w, Now(), nodes); }
      ghost var path, depth := KeyBits(w, key), Depth(w, prefix);
      var mask := Xor(Pow2((w - prefix) % w) - 1, Pow2(w) - 1);
      var node, next, bit;
      ghost var d;
      node, next, bit, d := Descend(key, mask, depth);
      if next != Pow2(w) - 1 {
        SetValue(node, v, path[..d]);
        return;
      }
      node := Extend(key, mask, node, bit, d, depth);
      SetValue(node, v, path[..depth]);
    }

    /** `get`, which always starts at bit 31, here with the starting bit as a parameter. */
    method Get(key: nat, s: nat) returns (r: Option<nat>)
      requires Valid() && s < w
      ensures var found := Lookup(Table(), WalkBits(w, s, key), w + 1);
              r == if found == NONE then None else Some(found)
    {
      hide Shaped;
      ghost var path := WalkBits(w, s, key);
      var bit := Pow2(s);
      var result, node := NONE, 0;
      ghost var d: nat := 0;
      ShapedSizes(w, Now(), nodes);
      assert path[..0] == [];
      while node != Pow2(w) - 1
        invariant d <= w + 1 && bit == WalkBit(s, d) && result == Lookup(Table(), path, d)
        invariant node != Null(w) ==> d <= w && path[..d] in nodes && node == nodes[path[..d]]
        invariant node == Null(w) && d <= w ==> path[..d] !in nodes
        decreases w + 1 - d
      {
        ShapedChild(w, Now(), nodes, path[..d], true);
        ShapedChild(w, Now(), nodes, path[..d], false);
        if value[node] != NONE {
          result := value[node];
        }
        if d < w {
          assert path[..d + 1] == path[..d] + [path[d]];
        }
        node := if And(key, bit) != 0 then right[node] else left[node];
        WalkShift(s, d);
        bit := bit / 2;
        d := d + 1;
      }
      LookupBeyond(w, Now(), nodes, path, d, w + 1);
      r := if result == NONE then None else Some(result);
    }
  }

  /** Hanging a node below a path leaves longer paths without a node. */
  lemma NoneAbove(w: nat, a: Arrays, nodes: map<Path, nat>, path: Path, d: nat)
    requires Shaped(w, a, nodes) && d < |path| && path[..d + 1] !in nodes
    ensures d + 1 < |path| ==> path[..d + 2] !in nodes && path[..d + 2] != path[..d + 1]
  {
    if d + 1 < |path| {
      assert path[..d + 2] == path[..d + 1] + [path[d + 1]];
      NoChild(w, a, nodes, path[..d + 1], path[d + 1]);
      assert |path[..d + 2]| != |path[..d + 1]|;
    }
  }

  /** A rule as inserted: the keys that agree with `key` on their first bits get `value`. */
  datatype Rule = Rule(key: nat, prefix: nat, value: nat)

  predicate GoodRule(w: nat, r: Rule) {
    r.key < Pow2(w) && r.prefix <= w && r.value < NONE
  }

  predicate GoodRules(w: nat, rules: seq<Rule>) {
    w > 0 && forall i {:trigger rules[i]} :: 0 <= i < |rules| ==> GoodRule(w, rules[i])
  }

  /** The path a rule is stored under. */
  function StoredAt(w: nat, r: Rule): (p: Path)
    requires w > 0 && r.prefix <= w
    ensures |p| == Depth(w, r.prefix)
  {
    KeyBits(w, r.key)[..Depth(w, r.prefix)]
  }

  /** Whether a rule of stored depth `Depth(w, r.prefix)` covers a key. */
  predicate Covers(w: nat, r: Rule, key: nat)
    requires w > 0 && r.prefix <= w
  {
    Shr(r.key, w - Depth(w, r.prefix)) == Shr(key, w - Depth(w, r.prefix))
  }

  /** What a CIDR rule is meant to cover. */
  predicate CidrCovers(w: nat, r: Rule, key: nat)
    requires r.prefix <= w
  {
    Shr(r.key, w - r.prefix) == Shr(key, w - r.prefix)
  }

  /** What a rule is meant to cover, and does cover, in plain numbers: the keys that agree with it in all but the low bits. */
  lemma CoversIs(w: nat, r: Rule, key: nat)
    requires w > 0 && r.prefix <= w
    ensures CidrCovers(w, r, key) <==> key / Pow2(w - r.prefix) == r.key / Pow2(w - r.prefix)
    ensures Covers(w, r, key) <==>
              if r.prefix == 0 then key == r.key else key / Pow2(w - r.prefix) == r.key / Pow2(w - r.prefix)
  {
    DepthIs(w, r.prefix);
    ShrIsQuotient(key, w - r.prefix);
    ShrIsQuotient(r.key, w - r.prefix);
  }

  /** The table after inserting the rules in order. */
  ghost function TableAfter(w: nat, rules: seq<Rule>): map<Path, nat>
    requires GoodRules(w, rules)
  {
    if rules == [] then map[] else
    var r := rules[|rules| - 1];
    TableAfter(w, rules[..|rules| - 1])[StoredAt(w, r) := r.value]
  }

  /** Rule `i` decides `key`: it covers the key, no covering rule is longer, and no later one is as long. */
  ghost predicate Decides(w: nat, rules: seq<Rule>, i: nat, key: nat)
    requires GoodRules(w, rules)
  {
    && i < |rules| && Covers(w, rules[i], key)
    && forall j :: 0 <= j < |rules| && Covers(w, rules[j], key) ==>
         Depth(w, rules[j].prefix) < Depth(w, rules[i].prefix)
         || (Depth(w, rules[j].prefix) == Depth(w, rules[i].prefix) && j <= i)
  }

  /** The index of the last rule stored under `p`, or -1. */
  ghost function LastAt(w: nat, rules: seq<Rule>, p: Path): (i: int)
    requires GoodRules(w, rules)
    ensures -1 <= i < |rules|
  {
    if rules == [] then -1 else
    var n := |rules| - 1;
    if StoredAt(w, rules[n]) == p then n else LastAt(w, rules[..n], p)
  }

  lemma {:induction false} LastAtIs(w: nat, rules: seq<Rule>, p: Path)
    requires GoodRules(w, rules)
    ensures var i := LastAt(w, rules, p);
            && (i >= 0 ==> StoredAt(w, rules[i]) == p)
            && forall j :: i < j < |rules| ==> StoredAt(w, rules[j]) != p
  {
    hide StoredAt;
    if rules != [] {
      LastAtIs(w, rules[..|rules| - 1], p);
    }
  }

  /** The table holds, for each path, the value of the last rule stored there. */
  lemma {:induction false} TableLast(w: nat, rules: seq<Rule>, p: Path)
    requires GoodRules(w, rules)
    ensures var i, t := LastAt(w, rules, p), TableAfter(w, rules);
            if i >= 0 then p in t && t[p] == rules[i].value else p !in t
  {
    hide StoredAt;
    if rules != [] {
      TableLast(w, rules[..|rules| - 1], p);
    }
  }

  /** A rule covers a key exactly when it is stored under a prefix of the key's bits. */
  lemma CoversIsPrefix(w: nat, r: Rule, key: nat)
    requires w > 0 && GoodRule(w, r) && key < Pow2(w)
    ensures Covers(w, r, key) <==>
              StoredAt(w, r) == KeyBits(w, key)[..Depth(w, r.prefix)]
  {
    SamePrefix(w, Depth(w, r.prefix), r.key, key);
  }

  /** No rule covers `key` at a depth of `d` or more. */
  ghost predicate NoDeeper(w: nat, rules: seq<Rule>, key: nat, d: nat)
    requires GoodRules(w, rules)
  {
    forall j :: 0 <= j < |rules| && Covers(w, rules[j], key) ==> Depth(w, rules[j].prefix) < d
  }

  /** Looking up a key finds the value of the rule that decides it, and nothing exactly when no rule covers it. */
  lemma {:induction false} LookupDecides(w: nat, rules: seq<Rule>, key: nat, d: nat) returns (i: nat)
    requires GoodRules(w, rules) && key < Pow2(w) && d <= w + 1
    requires NoDeeper(w, rules, key, d)
    ensures var found := Lookup(TableAfter(w, rules), KeyBits(w, key), d);
            && (found != NONE ==> Decides(w, rules, i, key) && found == rules[i].value)
            && (found == NONE ==> forall j :: 0 <= j < |rules| ==> !Covers(w, rules[j], key))
  {
    i := 0;
    if d > 0 {
      var p := KeyBits(w, key)[..d - 1];
      TableLast(w, rules, p);
      LastAtIs(w, rules, p);
      forall j | 0 <= j < |rules|
        ensures Covers(w, rules[j], key) && Depth(w, rules[j].prefix) == d - 1 <==> StoredAt(w, rules[j]) == p
      {
        CoversIsPrefix(w, rules[j], key);
      }
      if p in TableAfter(w, rules) {
        i := LastAt(w, rules, p);
      } else {
        i := LookupDecides(w, rules, key, d - 1);
      }
    }
  }

  /** Only one rule decides a key. */
  lemma DecidesUnique(w: nat, rules: seq<Rule>, i: nat, j: nat, key: nat)
    requires GoodRules(w, rules)
    requires Decides(w, rules, i, key) && Decides(w, rules, j, key)
    ensures i == j
  {
  }

  /**
   The main theorem on lookups: a `get` that starts at bit `s` of a trie holding `rules` returns the value of the longest, and among
   those the latest, rule that covers the key's low `s + 1` bits moved to the top; `None` exactly when no rule covers that key.
   */
  lemma GetIsLongestPrefix(w: nat, rules: seq<Rule>, s: nat, key: nat)
    requires s < w && GoodRules(w, rules)
    ensures Shifted(w, s, key) < Pow2(w)
    ensures var found := Lookup(TableAfter(w, rules), WalkBits(w, s, key), w + 1);
            && (found != NONE ==> exists i: nat :: i < |rules| && Decides(w, rules, i, Shifted(w, s, key)))
            && (forall i: nat :: i < |rules| && Decides(w, rules, i, Shifted(w, s, key)) ==> found == rules[i].value)
            && (found == NONE <==> forall j :: 0 <= j < |rules| ==> !Covers(w, rules[j], Shifted(w, s, key)))
  {
    WalkIsShiftedKey(w, s, key);
    var target := Shifted(w, s, key);
    var found := Lookup(TableAfter(w, rules), WalkBits(w, s, key), w + 1);
    var i := LookupDecides(w, rules, target, w + 1);
    forall j: nat | j < |rules| && Decides(w, rules, j, target)
      ensures found == rules[j].value
    {
      if found != NONE {
        DecidesUnique(w, rules, i, j, target);
      }
    }
  }

  /** A rule covers what its CIDR notation says for every key exactly when its prefix length is not zero. */
  lemma CoversAsCidrIff(w: nat, r: Rule)
    requires w > 0 && GoodRule(w, r)
    ensures (forall key: nat :: key < Pow2(w) ==> (Covers(w, r, key) <==> CidrCovers(w, r, key))) <==> r.prefix > 0
  {
    DepthIs(w, r.prefix);
    if r.prefix == 0 {
      var other := if r.key == 0 then 1 else 0;
      assert Pow2(w) == 2 * Pow2(w - 1);
      ShrAll(r.key, w);
      ShrAll(other, w);
      assert CidrCovers(w, r, other) && !Covers(w, r, other);
    }
  }

  /** The IPv4 trie starts at its top bit, so it matches the key itself. */
  lemma V4StartsAtTop(key: nat)
    requires key < Pow2(32)
    ensures Shifted(32, 31, key) == key
  {
    ShiftedFromTop(32, key);
  }

  /** The IPv6 trie also starts at bit 31: it matches the low 32 bits of the key as if they were its top 32. */
  lemma V6StartsAtBit31(key: nat)
    ensures Shifted(128, 31, key) == key % Pow2(32) * Pow2(96)
  {
    LowIsRemainder(key, 32);
    ShlIsProduct(Low(key, 32), 96);
  }

  /** A lookup of `key` from bit `s` is longest-prefix matching, whatever the rules. */
  ghost predicate LookupCorrect(w: nat, s: nat, key: nat)
    requires s < w
  {
    forall rules: seq<Rule> {:trigger TableAfter(w, rules)} :: GoodRules(w, rules) ==>
      Lookup(TableAfter(w, rules), WalkBits(w, s, key), w + 1) == Lookup(TableAfter(w, rules), KeyBits(w, key), w + 1)
  }

  /** Starting at bit `s` is right for exactly the keys that moving their low bits to the top leaves alone. */
  lemma LookupCorrectIff(w: nat, s: nat, key: nat)
    requires s < w && key < Pow2(w)
    ensures LookupCorrect(w, s, key) <==> Shifted(w, s, key) == key
  {
    WalkIsShiftedKey(w, s, key);
    if Shifted(w, s, key) != key {
      var rules := [Rule(key, w, 7)];
      HostRule(w, key, 7);
      SamePrefix(w, w, key, Shifted(w, s, key));
      hide TableAfter, KeyBits, WalkBits, Shifted, Lookup;
      var bits, other := KeyBits(w, key), KeyBits(w, Shifted(w, s, key));
      assert bits[..w] == bits && other[..w] == other;
      LookupSingle(TableAfter(w, rules), bits, other, w + 1);
      assert Lookup(TableAfter(w, rules), other, w + 1) != Lookup(TableAfter(w, rules), bits, w + 1);
    }
  }

  /** Looking an IPv6 address up gives what longest-prefix matching gives, whatever the rules, only for the address zero. */
  lemma V6LookupCorrectIff(key: nat)
    requires key < Pow2(128)
    ensures LookupCorrect(128, 31, key) <==> key == 0
  {
    hide LookupCorrect, Shifted;
    LookupCorrectIff(128, 31, key);
    ShiftedFixpoint(128, 31, key);
  }

  /** Of one list of rules: starting at bit `s`, where that is at most half way up, is right for every key. */
  ghost predicate RulesLookupCorrect(w: nat, s: nat, rules: seq<Rule>)
    requires s < w && GoodRules(w, rules)
  {
    forall key: nat {:trigger WalkBits(w, s, key)} :: key < Pow2(w) ==>
      Lookup(TableAfter(w, rules), WalkBits(w, s, key), w + 1) == Lookup(TableAfter(w, rules), KeyBits(w, key), w + 1)
  }

  /** That is so exactly when the rules give every address the answer they give the address zero. */
  lemma RulesLookupCorrectIff(w: nat, s: nat, rules: seq<Rule>)
    requires s < w && s + 1 <= w - 1 - s && GoodRules(w, rules)
    ensures RulesLookupCorrect(w, s, rules) <==>
              forall key: nat {:trigger KeyBits(w, key)} :: key < Pow2(w) ==>
                Lookup(TableAfter(w, rules), KeyBits(w, key), w + 1) == Lookup(TableAfter(w, rules), KeyBits(w, 0), w + 1)
  {
    hide Lookup, TableAfter, Shifted, KeyBits, WalkBits;
    var t := TableAfter(w, rules);
    var zero := Lookup(t, KeyBits(w, 0), w + 1);
    if RulesLookupCorrect(w, s, rules) {
      forall key: nat | key < Pow2(w) ensures Lookup(t, KeyBits(w, key), w + 1) == zero {
        TwoLookups(w, s, key);
        assert Lookup(t, WalkBits(w, s, key), w + 1) == Lookup(t, KeyBits(w, key), w + 1);
        assert Lookup(t, WalkBits(w, s, Shifted(w, s, key)), w + 1) == Lookup(t, KeyBits(w, Shifted(w, s, key)), w + 1);
      }
    }
    if forall key: nat {:trigger KeyBits(w, key)} :: key < Pow2(w) ==> Lookup(t, KeyBits(w, key), w + 1) == zero {
      forall key: nat | key < Pow2(w)
        ensures Lookup(t, WalkBits(w, s, key), w + 1) == Lookup(t, KeyBits(w, key), w + 1)
      {
        TwoLookups(w, s, key);
        assert Lookup(t, KeyBits(w, Shifted(w, s, key)), w + 1) == zero;
      }
    }
  }

  lemma TwoLookups(w: nat, s: nat, key: nat)
    requires s < w && s + 1 <= w - 1 - s
    ensures Shifted(w, s, key) < Pow2(w) && WalkBits(w, s, key) == KeyBits(w, Shifted(w, s, key))
    ensures WalkBits(w, s, Shifted(w, s, key)) == KeyBits(w, 0)
  {
    WalkIsShiftedKey(w, s, key);
    WalkIsShiftedKey(w, s, Shifted(w, s, key));
    ShiftedTwice(w, s, key);
  }

  /** Two IPv6 lookups in a row forget the address: the matcher is right throughout only for rules that do not distinguish any. */
  lemma V6RulesLookupCorrectIff(rules: seq<Rule>)
    requires GoodRules(128, rules)
    ensures RulesLookupCorrect(128, 31, rules) <==>
              forall key: nat {:trigger KeyBits(128, key)} :: key < Pow2(128) ==>
                Lookup(TableAfter(128, rules), KeyBits(128, key), 129) == Lookup(TableAfter(128, rules), KeyBits(128, 0), 129)
  {
    hide Lookup, TableAfter, KeyBits, WalkBits, GoodRules, Pow2, RulesLookupCorrect;
    RulesLookupCorrectIff(128, 31, rules);
  }

  /** A rule for a single address is found by that address. */
  lemma HostRule(w: nat, key: nat, value: nat)
    requires w > 0 && key < Pow2(w) && value < NONE
    ensures var rules := [Rule(key, w, value)];
            && GoodRules(w, rules) && TableAfter(w, rules).Keys == {KeyBits(w, key)}
            && Lookup(TableAfter(w, rules), KeyBits(w, key), w + 1) == value
  {
    var rules := [Rule(key, w, value)];
    assert rules[..0] == [];
    DepthIs(w, w);
    assert KeyBits(w, key)[..w] == KeyBits(w, key);
    assert StoredAt(w, rules[0]) == KeyBits(w, key);
    assert TableAfter(w, rules) == map[KeyBits(w, key) := value];
  }

  lemma {:induction false} LookupSingle(m: map<Path, nat>, p: Path, bits: Path, d: nat)
    requires m.Keys == {p} && |bits| == |p| && bits != p && d <= |bits| + 1
    ensures Lookup(m, bits, d) == NONE
  {
    if d > 0 {
      assert bits[..|bits|] == bits;
      assert |bits[..d - 1]| == d - 1;
      LookupSingle(m, p, bits, d - 1);
    }
  }
}
