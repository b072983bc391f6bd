/** The CIDR matcher of the router: one trie per IP version, and the table of outbound names their values index. */
module GeoIp {
  import opened Bytes
  import opened Bits
  import opened IpTrie

  /** `normalize` and `normalize6`: shifts right and left again, by an amount that wraps like the one in `put`. */
  function Normalize(w: nat, ip: nat, prefix: nat): nat
    requires w > 0 && prefix <= w
  {
    Shl(Shr(ip, (w - prefix) % w), (w - prefix) % w)
  }

  /** Normalizing a rule's address does not change which keys the rule covers. */
  lemma NormalizeCovers(w: nat, ip: nat, prefix: nat, value: nat, key: nat)
    requires w > 0 && prefix <= w
    ensures Covers(w, Rule(Normalize(w, ip, prefix), prefix, value), key) <==> Covers(w, Rule(ip, prefix, value), key)
  {
    ShrShl(Shr(ip, (w - prefix) % w), (w - prefix) % w);
  }

  /** Normalizing clears the low bits, but does nothing to a rule of prefix length zero. */
  lemma NormalizeIs(w: nat, ip: nat, prefix: nat)
    requires w > 0 && prefix <= w
    ensures Normalize(w, ip, prefix) == if prefix == 0 then ip else ip / Pow2(w - prefix) * Pow2(w - prefix)
  {
    hide Shl, Shr, Pow2, Normalize;
    var k := if prefix == 0 then 0 else w - prefix;
    NormalizeShifts(w, ip, prefix);
    ShrIsQuotient(ip, k);
    ShlIsProduct(Shr(ip, k), k);
    One();
  }

  lemma NormalizeShifts(w: nat, ip: nat, prefix: nat)
    requires w > 0 && prefix <= w
    ensures var k := if prefix == 0 then 0 else w - prefix; Normalize(w, ip, prefix) == Shl(Shr(ip, k), k)
  {
    hide Shl, Shr;
    UniqueRemainder(w - prefix, w, if prefix == 0 then 1 else 0, if prefix == 0 then 0 else w - prefix);
  }

  lemma One()
    ensures Pow2(0) == 1 && Pow2(1) == 2
  {
  }

  lemma NormalizeBound(w: nat, ip: nat, prefix: nat)
    requires w > 0 && prefix <= w && ip < Pow2(w)
    ensures Normalize(w, ip, prefix) < Pow2(w)
  {
    ShlOfShr(ip, (w - prefix) % w);
  }

  lemma {:induction false} ShlOfShr(x: nat, k: nat)
    ensures Shl(Shr(x, k), k) <= x
  {
    if k > 0 {
      ShlOfShr(x / 2, k - 1);
      ShrUnder(x, k - 1);
    }
  }

  lemma ShrUnder(x: nat, k: nat)
    ensures Shr(x, k + 1) == Shr(x / 2, k)
  {
  }

  ghost predicate Distinct(names: seq<string>) {
    forall i, j :: 0 <= i < j < |names| ==> names[i] != names[j]
  }

  /** Every rule's value is the index of the outbound it was inserted with. */
  ghost predicate Named(rules: seq<Rule>, names: seq<string>, outbound: seq<string>) {
    |rules| == |names| && forall i :: 0 <= i < |rules| ==> rules[i].value < |outbound| && outbound[rules[i].value] == names[i]
  }

  /** Adding outbounds at the end leaves the names of the rules alone. */
  lemma NamedStays(rules: seq<Rule>, names: seq<string>, outbound: seq<string>, more: seq<string>)
    requires Named(rules, names, outbound) && outbound <= more
    ensures Named(rules, names, more)
  {
  }

  lemma NamedGrows(rules: seq<Rule>, names: seq<string>, outbound: seq<string>, r: Rule, name: string)
    requires Named(rules, names, outbound) && r.value < |outbound| && outbound[r.value] == name
    ensures Named(rules + [r], names + [name], outbound)
  {
  }

  lemma GoodRulesGrow(w: nat, rules: seq<Rule>, r: Rule)
    requires GoodRules(w, rules) && GoodRule(w, r)
    ensures GoodRules(w, rules + [r])
    ensures TableAfter(w, rules + [r]) == TableAfter(w, rules)[StoredAt(w, r) := r.value]
  {
    assert (rules + [r])[..|rules|] == rules;
  }

  /** A trie that holds exactly `rules`. */
  ghost predicate Holds(t: Trie, w: nat, rules: seq<Rule>)
    reads t
  {
    t.Valid() && t.w == w && GoodRules(w, rules) && t.Table() == TableAfter(w, rules)
  }

  /** `name` is the answer to a lookup of `key`: the name of the deciding rule, or nothing. */
  ghost predicate Answers(w: nat, rules: seq<Rule>, names: seq<string>, key: nat, name: string)
    requires GoodRules(w, rules) && |names| == |rules|
  {
    && (forall i: nat :: i < |rules| && Decides(w, rules, i, key) ==> name == names[i])
    && ((forall i :: 0 <= i < |rules| ==> !Covers(w, rules[i], key)) ==> name == "")
    && ((exists i: nat :: i < |rules| && Decides(w, rules, i, key))
        || forall i :: 0 <= i < |rules| ==> !Covers(w, rules[i], key))
  }

  lemma HoldsGood(t: Trie, w: nat, rules: seq<Rule>)
    requires Holds(t, w, rules)
    ensures t.Valid() && t.w == w && GoodRules(w, rules) && t.Table() == TableAfter(w, rules)
  {
  }

  lemma GoodRuleIs(w: nat, r: Rule)
    requires r.key < Pow2(w) && r.prefix <= w && r.value < NONE
    ensures GoodRule(w, r)
  {
  }

  /** The value a lookup finds is a valid index, and what it indexes is the answer. */
  lemma AnswersLookup(w: nat, rules: seq<Rule>, names: seq<string>, outbound: seq<string>, s: nat, key: nat)
    requires s < w && GoodRules(w, rules) && Named(rules, names, outbound)
    ensures var found := Lookup(TableAfter(w, rules), WalkBits(w, s, key), w + 1);
            && (found != NONE ==> found < |outbound|)
            && Answers(w, rules, names, Shifted(w, s, key), if found == NONE then "" else outbound[found])
  {
    hide Decides, Covers, Lookup, TableAfter;
    GetIsLongestPrefix(w, rules, s, key);
    var found := Lookup(TableAfter(w, rules), WalkBits(w, s, key), w + 1);
    if found != NONE {
      var i: nat :| i < |rules| && Decides(w, rules, i, Shifted(w, s, key));
      assert found == rules[i].value;
      DecidesCovers(w, rules, i, Shifted(w, s, key));
    }
  }

  lemma DecidesCovers(w: nat, rules: seq<Rule>, i: nat, key: nat)
    requires GoodRules(w, rules) && Decides(w, rules, i, key)
    ensures i < |rules| && Covers(w, rules[i], key)
  {
  }

  /** What marks a link to no node in the two tries: `u32::MAX` and `u128::MAX`. */
  lemma Maxima()
    ensures Null(32) == 0xFFFF_FFFF && Null(128) == 0xFFFF_FFFF_FFFF_FFFF_FFFF_FFFF_FFFF_FFFF
  {
    hide Pow2;
    One();
    Pow2Twice(1);
    Pow2Twice(2);
    Pow2Twice(4);
    Pow2Twice(8);
    Pow2Twice(16);
    Pow2Twice(32);
    Pow2Twice(64);
  }

  class GeoIpMatcher {
    const trie4: Trie
    const trie6: Trie
    var outbound: seq<string>
    /** The rules inserted so far and the outbound each was inserted with. */
    ghost var rules4: seq<Rule>
    ghost var names4: seq<string>
    ghost var rules6: seq<Rule>
    ghost var names6: seq<string>

    ghost predicate Valid()
      reads this, trie4, trie6
    {
      && trie4 != trie6 && Holds(trie4, 32, rules4) && Holds(trie6, 128, rules6)
      && Distinct(outbound) && |outbound| < 0xFFFF_FFFF
      && Named(rules4, names4, outbound) && Named(rules6, names6, outbound)
    }

    constructor ()
      ensures Valid() && fresh(trie4) && fresh(trie6) && outbound == [] && rules4 == [] && rules6 == []
    {
      trie4 := new Trie(32);
      trie6 := new Trie(128);
      outbound, rules4, names4, rules6, names6 := [], [], [], [], [];
    }

    /** The index of a name, which is added at the end if it is new; no other index changes. */
    method GetOutboundPos(name: string) returns (pos: nat)
      requires Distinct(outbound)
      modifies `outbound
      ensures Distinct(outbound) && pos < |outbound| && outbound[pos] == name
      ensures outbound == if name in old(outbound) then old(outbound) else old(outbound) + [name]
      ensures old(outbound) <= outbound && |outbound| <= |old(outbound)| + 1
    {
      for i := 0 to |outbound|
        invariant forall j :: 0 <= j < i ==> outbound[j] != name
      {
        if outbound[i] == name {
          return i;
        }
      }
      pos := |outbound|;
      outbound := outbound + [name];
    }

    /** `get_outbound_pos`, with the rules already inserted keeping their names. */
    method Register(name: string) returns (pos: nat)
      requires Valid() && |outbound| + 1 < 0xFFFF_FFFF
      modifies `outbound
      ensures Valid() && old(outbound) <= outbound && pos < |outbound| && outbound[pos] == name
    {
      hide Named, Distinct, Holds;
      pos := GetOutboundPos(name);
      NamedStays(rules4, names4, old(outbound), outbound);
      NamedStays(rules6, names6, old(outbound), outbound);
    }

    /** `put_v4` */
    method PutV4(ip: nat, prefix: nat, name: string)
      requires Valid() && ip < Pow2(32) && prefix <= 32 && |outbound| + 1 < 0xFFFF_FFFF && trie4.size + 32 <= 0xFFFF_FFFF
      modifies this, trie4
      ensures Valid() && old(outbound) <= outbound && rules6 == old(rules6) && names6 == old(names6)
      ensures names4 == old(names4) + [name]
      ensures exists v :: rules4 == old(rules4) + [Rule(Normalize(32, ip, prefix), prefix, v)]
    {
      hide TableAfter, StoredAt, Normalize, Named, Distinct, GoodRule, GoodRules, Holds, Null, Pow2;
      var pos := Register(name);
      var r := Rule(Normalize(32, ip, prefix), prefix, pos);
      NormalizeBound(32, ip, prefix);
      Maxima();
      GoodRuleIs(32, r);
      NamedGrows(rules4, names4, outbound, r, name);
      InsertRule(trie4, 32, rules4, r);
      rules4, names4 := rules4 + [r], names4 + [name];
    }

    /** `put_v6` */
    method PutV6(ip: nat, prefix: nat, name: string)
      requires Valid() && ip < Pow2(128) && prefix <= 128 && |outbound| + 1 < 0xFFFF_FFFF && trie6.size + 128 <= 0xFFFF_FFFF_FFFF_FFFF_FFFF_FFFF_FFFF_FFFF
      modifies this, trie6
      ensures Valid() && old(outbound) <= outbound && rules4 == old(rules4) && names4 == old(names4)
      ensures names6 == old(names6) + [name]
      ensures exists v :: rules6 == old(rules6) + [Rule(Normalize(128, ip, prefix), prefix, v)]
    {
      hide TableAfter, StoredAt, Normalize, Named, Distinct, GoodRule, GoodRules, Holds, Null, Pow2;
      var pos := Register(name);
      var r := Rule(Normalize(128, ip, prefix), prefix, pos);
      NormalizeBound(128, ip, prefix);
      Maxima();
      GoodRuleIs(128, r);
      NamedGrows(rules6, names6, outbound, r, name);
      InsertRule(trie6, 128, rules6, r);
      rules6, names6 := rules6 + [r], names6 + [name];
    }

    /** `match4`: longest prefix, then latest, over the IPv4 rules. */
    method Match4(ip: nat) returns (name: string)
      requires Valid() && ip < Pow2(32)
      ensures Answers(32, rules4, names4, ip, name)
    {
      hide Answers, Lookup, TableAfter, Named, GoodRules;
      HoldsGood(trie4, 32, rules4);
      AnswersLookup(32, rules4, names4, outbound, 31, ip);
      V4StartsAtTop(ip);
      var found := trie4.Get(ip, 31);
      name := if found.Some? then outbound[found.value] else "";
    }

    /** `match6`: the answer is the one for another key, see `V6StartsAtBit31`. */
    method Match6(ip: nat) returns (name: string)
      requires Valid() && ip < Pow2(128)
      ensures Answers(128, rules6, names6, Shifted(128, 31, ip), name)
    {
      hide Answers, Lookup, TableAfter, Named, GoodRules;
      HoldsGood(trie6, 128, rules6);
      AnswersLookup(128, rules6, names6, outbound, 31, ip);
      var found := trie6.Get(ip, 31);
      name := if found.Some? then outbound[found.value] else "";
    }
  }

  method InsertRule(t: Trie, w: nat, ghost rules: seq<Rule>, r: Rule)
    requires Holds(t, w, rules) && GoodRule(w, r) && t.size + w <= Null(w)
    modifies t
    ensures Holds(t, w, rules + [r])
  {
    hide TableAfter, Shaped, TableOf;
    GoodRulesGrow(w, rules, r);
    t.Put(r.key, r.prefix, r.value);
  }
}
