/**
 The replay filter for salts: two Bloom filters used in turn. When the current one holds `capacity`
 salts, the other is cleared and becomes current.
 */
module ReplayWindow {
  import opened Bits
  import opened Bytes

  /** The positions of a Bloom filter's bit map that an entry sets. The hash functions are arbitrary. */
  type Hashes = bytes -> set<nat>

  /** The bit map of a Bloom filter holding `items`. */
  ghost function BitMap(h: Hashes, items: seq<bytes>): set<nat> {
    if items == [] then {} else BitMap(h, items[..|items| - 1]) + h(items[|items| - 1])
  }

  /** A Bloom filter has no false negatives. */
  lemma {:induction false} BitMapCovers(h: Hashes, items: seq<bytes>, x: bytes)
    requires x in items
    ensures h(x) <= BitMap(h, items)
  {
    if x != items[|items| - 1] {
      BitMapCovers(h, items[..|items| - 1], x);
    }
  }

  /** The current filter and the other one, with the number of salts in each. */
  datatype Window = Window(newer: set<nat>, k: nat, older: set<nat>, m: nat)

  const EMPTY := Window({}, 0, {}, 0)

  predicate Seen(h: Hashes, w: Window, x: bytes) {
    h(x) <= w.newer || h(x) <= w.older
  }

  /** Inserting an unseen salt; a full current filter first becomes the other one. */
  function Insert(h: Hashes, capacity: nat, w: Window, x: bytes): Window {
    if w.k >= capacity then Window(h(x), 1, w.newer, w.k) else w.(newer := w.newer + h(x), k := w.k + 1)
  }

  function Checked(h: Hashes, capacity: nat, w: Window, x: bytes): Window {
    if Seen(h, w, x) then w else Insert(h, capacity, w, x)
  }

  /** The filters and the list of salts inserted (those not reported as seen) after checking `xs` in order. */
  function Run(h: Hashes, capacity: nat, xs: seq<bytes>): (Window, seq<bytes>) {
    if xs == [] then (EMPTY, []) else
    var (w, inserted) := Run(h, capacity, xs[..|xs| - 1]);
    var x := xs[|xs| - 1];
    (Checked(h, capacity, w, x), if Seen(h, w, x) then inserted else inserted + [x])
  }

  /** Each filter is exactly the bit map of its own stretch of the insertion history: the last `k`, and the `m` before. */
  ghost predicate Holds(h: Hashes, w: Window, inserted: seq<bytes>) {
    && w.k + w.m <= |inserted|
    && w.newer == BitMap(h, inserted[|inserted| - w.k..])
    && w.older == BitMap(h, inserted[|inserted| - w.k - w.m..|inserted| - w.k])
  }

  ghost predicate Tracks(h: Hashes, capacity: nat, w: Window, inserted: seq<bytes>) {
    && w.k <= capacity && (inserted != [] ==> w.k >= 1)
    && w.m == (if |inserted| == w.k then 0 else capacity)
    && Holds(h, w, inserted)
  }

  lemma InsertHolds(h: Hashes, capacity: nat, w: Window, inserted: seq<bytes>, x: bytes)
    requires Holds(h, w, inserted)
    ensures Holds(h, Insert(h, capacity, w, x), inserted + [x])
  {
    hide BitMap;
    var n, longer := |inserted|, inserted + [x];
    if w.k >= capacity {
      assert longer[n..] == [] + [x] && longer[n - w.k..n] == inserted[n - w.k..];
      BitMapSnoc(h, [], x);
    } else {
      assert longer[n - w.k..] == inserted[n - w.k..] + [x];
      assert longer[n - w.k - w.m..n - w.k] == inserted[n - w.k - w.m..n - w.k];
      BitMapSnoc(h, inserted[n - w.k..], x);
    }
  }

  lemma BitMapSnoc(h: Hashes, items: seq<bytes>, x: bytes)
    ensures BitMap(h, items + [x]) == BitMap(h, items) + h(x)
    ensures BitMap(h, [] + [x]) == h(x)
  {
    assert (items + [x])[..|items|] == items;
    assert ([] + [x])[..0] == [] && {} + h(x) == h(x);
  }

  lemma {:induction false} RunTracks(h: Hashes, capacity: nat, xs: seq<bytes>)
    requires capacity >= 1
    ensures Tracks(h, capacity, Run(h, capacity, xs).0, Run(h, capacity, xs).1)
  {
    if xs != [] {
      var before := xs[..|xs| - 1];
      RunTracks(h, capacity, before);
      InsertHolds(h, capacity, Run(h, capacity, before).0, Run(h, capacity, before).1, xs[|xs| - 1]);
    }
  }

  /**
   After any run, neither filter holds more than `capacity` salts, and between them they hold the last
   `capacity + k` insertions, where `k >= 1` is the number in the current filter (all of them, as long as
   no switch has happened).
   */
  lemma {:induction false} WindowSize(h: Hashes, capacity: nat, xs: seq<bytes>)
    requires capacity >= 1
    ensures var (w, inserted) := Run(h, capacity, xs);
            && w.k <= capacity && w.m <= capacity
            && w.k + w.m == (if |inserted| == w.k then w.k else capacity + w.k)
            && (|inserted| > capacity ==> capacity + 1 <= w.k + w.m <= |inserted|)
            && (|inserted| <= capacity ==> w.k == |inserted|)
  {
    RunTracks(h, capacity, xs);
  }

  /** Each position of `x` is one of some item's. */
  ghost predicate Covered(h: Hashes, items: seq<bytes>, x: bytes) {
    forall p <- h(x) :: exists a <- items :: p in h(a)
  }

  lemma {:induction false} BitMapIs(h: Hashes, items: seq<bytes>, p: nat)
    ensures p in BitMap(h, items) <==> exists a <- items :: p in h(a)
  {
    if items != [] {
      var before, last := items[..|items| - 1], items[|items| - 1];
      BitMapIs(h, before, p);
      assert items == before + [last];
      if p in h(last) { assert last in items; }
    }
  }

  lemma CoveredIff(h: Hashes, items: seq<bytes>, x: bytes)
    ensures h(x) <= BitMap(h, items) <==> Covered(h, items, x)
  {
    forall p ensures p in BitMap(h, items) <==> exists a <- items :: p in h(a) {
      BitMapIs(h, items, p);
    }
  }

  /** How many salts the current filter holds after `n` insertions. */
  function InCurrent(n: nat, capacity: nat): nat
    requires capacity >= 1
  {
    if n == 0 then 0 else (n - 1) % capacity + 1
  }

  lemma {:induction false} RunCounts(h: Hashes, capacity: nat, xs: seq<bytes>)
    requires capacity >= 1
    ensures var (w, inserted) := Run(h, capacity, xs); w.k == InCurrent(|inserted|, capacity)
  {
    if xs != [] {
      RunCounts(h, capacity, xs[..|xs| - 1]);
      NextInCurrent(|Run(h, capacity, xs[..|xs| - 1]).1|, capacity);
    }
  }

  lemma NextInCurrent(n: nat, capacity: nat)
    requires capacity >= 1
    ensures InCurrent(n + 1, capacity) == if InCurrent(n, capacity) >= capacity then 1 else InCurrent(n, capacity) + 1
  {
    if n > 0 {
      NextRemainder(n - 1, capacity, (n - 1) / capacity, (n - 1) % capacity);
    }
  }

  lemma NextRemainder(n: nat, m: nat, q: nat, r: nat)
    requires m >= 1 && n == m * q + r && r < m
    ensures (n + 1) % m == if r + 1 == m then 0 else r + 1
  {
    if r + 1 == m {
      assert m * (q + 1) == m * q + m;
      UniqueRemainder(n + 1, m, q + 1, 0);
    } else {
      UniqueRemainder(n + 1, m, q, r + 1);
    }
  }

  /**
   Exactly when a salt is reported, after any run: when each of its positions is one of a salt in the current filter, or each is one
   of a salt in the other. The current filter holds the insertions since the last switch, the other the `capacity` before them.
   */
  lemma SeenIff(h: Hashes, capacity: nat, xs: seq<bytes>, x: bytes)
    requires capacity >= 1
    ensures var (w, inserted) := Run(h, capacity, xs);
            var n := |inserted|;
            var k, m := InCurrent(n, capacity), if n <= capacity then 0 else capacity;
            && k + m <= n
            && (Seen(h, w, x) <==> Covered(h, inserted[n - k..], x) || Covered(h, inserted[n - k - m..n - k], x))
  {
    hide Run, BitMap, Covered;
    RunTracks(h, capacity, xs);
    RunCounts(h, capacity, xs);
    WindowSize(h, capacity, xs);
    var inserted := Run(h, capacity, xs).1;
    var n, k := |inserted|, InCurrent(|inserted|, capacity);
    var m := if n <= capacity then 0 else capacity;
    CoveredIff(h, inserted[n - k..], x);
    CoveredIff(h, inserted[n - k - m..n - k], x);
  }

  /** What a check does to the history: a salt is let through, and inserted, exactly if it is not reported. */
  lemma LetThroughIff(h: Hashes, capacity: nat, xs: seq<bytes>, x: bytes)
    ensures Run(h, capacity, xs + [x]).1 ==
              Run(h, capacity, xs).1 + (if Seen(h, Run(h, capacity, xs).0, x) then [] else [x])
  {
    assert (xs + [x])[..|xs|] == xs;
  }

  /** Every salt among the last `capacity + 1` insertions is reported as seen, whatever the hash functions. */
  lemma RecentSaltsAreSeen(h: Hashes, capacity: nat, xs: seq<bytes>, i: nat)
    requires capacity >= 1
    requires i < |Run(h, capacity, xs).1| <= i + capacity + 1
    ensures Seen(h, Run(h, capacity, xs).0, Run(h, capacity, xs).1[i])
  {
    hide Run;
    RunTracks(h, capacity, xs);
    TrackedIsSeen(h, capacity, Run(h, capacity, xs).0, Run(h, capacity, xs).1, i);
  }

  lemma TrackedIsSeen(h: Hashes, capacity: nat, w: Window, inserted: seq<bytes>, i: nat)
    requires Tracks(h, capacity, w, inserted) && i < |inserted| <= i + capacity + 1
    ensures Seen(h, w, inserted[i])
  {
    hide BitMap;
    var k, m, n := w.k, w.m, |inserted|;
    if i >= n - k {
      assert inserted[i] == inserted[n - k..][i - (n - k)];
      BitMapCovers(h, inserted[n - k..], inserted[i]);
    } else {
      assert inserted[i] == inserted[n - k - m..n - k][i - (n - k - m)];
      BitMapCovers(h, inserted[n - k - m..n - k], inserted[i]);
    }
  }

  /**
   The bound is exact: the insertion that switches filters leaves only the last `capacity + 1` insertions, and a salt that shares
   no bit with those is forgotten.
   */
  lemma OlderSaltsAreForgotten(h: Hashes, capacity: nat, xs: seq<bytes>, x: bytes)
    requires capacity >= 1 && h(x) != {}
    requires var (w, inserted) := Run(h, capacity, xs);
             && w.k == 1 && |inserted| > capacity + 1
             && forall a <- inserted[|inserted| - capacity - 1..] :: h(x) !! h(a)
    ensures !Seen(h, Run(h, capacity, xs).0, x)
  {
    hide Run, BitMap;
    RunTracks(h, capacity, xs);
    LastSaltsOnly(h, capacity, Run(h, capacity, xs).0, Run(h, capacity, xs).1, x);
  }

  lemma LastSaltsOnly(h: Hashes, capacity: nat, w: Window, inserted: seq<bytes>, x: bytes)
    requires Tracks(h, capacity, w, inserted) && w.k == 1 && |inserted| > capacity + 1 && h(x) != {}
    requires forall a <- inserted[|inserted| - capacity - 1..] :: h(x) !! h(a)
    ensures !Seen(h, w, x)
  {
    hide BitMap;
    var n := |inserted|;
    var last := inserted[n - capacity - 1..];
    assert inserted[n - 1..] == last[capacity..] && inserted[n - 1 - capacity..n - 1] == last[..capacity];
    BitMapMisses(h, last[capacity..], x);
    BitMapMisses(h, last[..capacity], x);
  }

  lemma {:induction false} BitMapMisses(h: Hashes, items: seq<bytes>, x: bytes)
    requires forall a <- items :: h(x) !! h(a)
    ensures h(x) !! BitMap(h, items)
  {
    if items != [] {
      BitMapMisses(h, items[..|items| - 1], x);
    }
  }

  const ENTRIES_FOR_SERVER := 1_000_000
  const ENTRIES_FOR_CLIENT := 10_000

  /** `PingPongBloom` behind its context's lock. */
  class BloomContext {
    const hashes: Hashes
    const itemCount: nat
    var blooms: seq<set<nat>>
    var bloomCount: seq<nat>
    var current: nat
    /** The salts checked so far. */
    ghost var history: seq<bytes>

    ghost predicate Valid()
      reads this
    {
      Shaped() && itemCount >= 1 && State() == Run(hashes, itemCount, history).0
    }

    ghost predicate Shaped()
      reads this
    {
      |blooms| == 2 && |bloomCount| == 2 && current < 2
    }

    ghost function State(): Window
      requires Shaped()
      reads this
    {
      Window(blooms[current], bloomCount[current], blooms[1 - current], bloomCount[1 - current])
    }

    constructor (hashes: Hashes, isLocal: bool)
      ensures Valid() && State() == EMPTY && this.hashes == hashes && history == []
      ensures itemCount == (if isLocal then 5_000 else 500_000)
    {
      this.hashes := hashes;
      itemCount := (if isLocal then ENTRIES_FOR_CLIENT else ENTRIES_FOR_SERVER) / 2;
      blooms, bloomCount, current := [{}, {}], [0, 0], 0;
      history := [];
    }

    /** Reports whether `buf` has been seen; if not, it has been now. */
    method CheckAndSet(buf: bytes) returns (seen: bool)
      requires Valid()
      modifies this
      ensures Valid() && State() == Checked(hashes, itemCount, old(State()), buf) && history == old(history) + [buf]
      ensures seen == Seen(hashes, old(State()), buf)
    {
      RunSnoc(hashes, itemCount, history, buf);
      hide Run;
      history := history + [buf];
      for i := 0 to 2
        invariant forall j :: 0 <= j < i ==> !(hashes(buf) <= blooms[j])
      {
        if hashes(buf) <= blooms[i] {
          return true;
        }
      }
      if bloomCount[current] >= itemCount {
        current := (current + 1) % 2;
        bloomCount := bloomCount[current := 0];
        blooms := blooms[current := {}];
      }
      ghost var was := blooms[current];
      blooms := blooms[current := blooms[current] + hashes(buf)];
      bloomCount := bloomCount[current := bloomCount[current] + 1];
      assert was == {} ==> blooms[current] == hashes(buf);
      assert State() == Insert(hashes, itemCount, old(State()), buf);
      seen := false;
    }

    /** A cipher without a salt has nothing to replay. */
    method CheckNonceAndSet(nonce: bytes) returns (seen: bool)
      requires Valid()
      modifies this
      ensures Valid()
      ensures nonce == [] ==> !seen && State() == old(State()) && history == old(history)
      ensures nonce != [] ==>
                && State() == Checked(hashes, itemCount, old(State()), nonce)
                && seen == Seen(hashes, old(State()), nonce)
                && history == old(history) + [nonce]
    {
      if nonce == [] {
        return false;
      }
      seen := CheckAndSet(nonce);
    }

    /** Any number of connections, one after another: the answers are those of the window over all salts ever checked. */
    method CheckAll(nonces: seq<bytes>) returns (answers: seq<bool>)
      requires Valid()
      modifies this
      ensures Valid() && history == old(history) + Salts(nonces)
      ensures answers == Reports(hashes, itemCount, old(history), nonces)
    {
      answers := [];
      assert history + Salts([]) == history;
      hide Run, Seen, Reports, Salts;
      for i := 0 to |nonces|
        invariant Valid() && history == old(history) + Salts(nonces[..i])
        invariant answers == Reports(hashes, itemCount, old(history), nonces[..i])
      {
        assert nonces[..i + 1] == nonces[..i] + [nonces[i]];
        ReportsSnoc(hashes, itemCount, old(history), nonces[..i], nonces[i]);
        var seen := CheckNonceAndSet(nonces[i]);
        answers := answers + [seen];
      }
      assert nonces[..|nonces|] == nonces;
    }
  }

  /** Each of `nonces` is reported if it is a salt and the window has seen it, after `past` and the salts before it. */
  function Reports(h: Hashes, capacity: nat, past: seq<bytes>, nonces: seq<bytes>): seq<bool> {
    if nonces == [] then [] else
    var before, n := nonces[..|nonces| - 1], nonces[|nonces| - 1];
    Reports(h, capacity, past, before) + [n != [] && Seen(h, Run(h, capacity, past + Salts(before)).0, n)]
  }

  lemma ReportsSnoc(h: Hashes, capacity: nat, past: seq<bytes>, nonces: seq<bytes>, n: bytes)
    ensures Reports(h, capacity, past, nonces + [n]) ==
              Reports(h, capacity, past, nonces) + [n != [] && Seen(h, Run(h, capacity, past + Salts(nonces)).0, n)]
    ensures past + Salts(nonces + [n]) == past + Salts(nonces) + (if n == [] then [] else [n])
  {
    hide Run, Seen;
    assert (nonces + [n])[..|nonces|] == nonces;
    assert past + Salts(nonces + [n]) == past + Salts(nonces) + (if n == [] then [] else [n]);
  }

  /** The salts among `nonces`, leaving out the empty ones. */
  function Salts(nonces: seq<bytes>): seq<bytes> {
    if nonces == [] then [] else
    var n := nonces[|nonces| - 1];
    Salts(nonces[..|nonces| - 1]) + (if n == [] then [] else [n])
  }

  lemma RunSnoc(h: Hashes, capacity: nat, xs: seq<bytes>, x: bytes)
    ensures Run(h, capacity, xs + [x]).0 == Checked(h, capacity, Run(h, capacity, xs).0, x)
  {
    assert (xs + [x])[..|xs|] == xs;
  }

  /** Whatever a context has been through, it reports each of the last `itemCount + 1` salts it let pass. */
  lemma ContextSees(c: BloomContext, i: nat)
    requires c.Valid()
    requires i < |Run(c.hashes, c.itemCount, c.history).1| <= i + c.itemCount + 1
    ensures Seen(c.hashes, c.State(), Run(c.hashes, c.itemCount, c.history).1[i])
  {
    RecentSaltsAreSeen(c.hashes, c.itemCount, c.history, i);
  }
}
