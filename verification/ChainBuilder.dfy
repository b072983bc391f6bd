/** Compiling a configured chain, and using the result for TCP and UDP. */
module ChainBuilder {
  import opened Bytes
  import opened Address
  import opened Chain

  /** The nodes a chain of tags names, if all of them are configured. */
  function Resolve(config: map<string, Node>, chain: seq<string>): (r: seq<Node>)
    requires forall i :: 0 <= i < |chain| ==> chain[i] in config
    ensures |r| == |chain|
  {
    seq(|chain|, i requires 0 <= i < |chain| => config[chain[i]])
  }

  /** A UDP-over-TCP layer lies strictly to the right of `i`. */
  ghost predicate UotRightOf(types: seq<Protocol>, i: int) {
    exists j :: i < j < |types| && 0 <= j && types[j].IsUot()
  }

  /** The position of the last UDP-over-TCP layer, or -1. */
  function LastUot(types: seq<Protocol>): (i: int)
    ensures -1 <= i < |types|
    ensures i >= 0 ==> types[i].IsUot()
    ensures forall j :: i < j < |types| ==> !types[j].IsUot()
  {
    if types == [] then -1
    else if types[|types| - 1].IsUot() then |types| - 1
    else LastUot(types[..|types| - 1])
  }

  function Reversed<T>(s: seq<T>): (r: seq<T>)
    ensures |r| == |s|
    ensures forall i :: 0 <= i < |s| ==> r[i] == s[|s| - 1 - i]
  {
    seq(|s|, i requires 0 <= i < |s| => s[|s| - 1 - i])
  }

  datatype IterState = Start | Last | Body | Done

  /** `ChainStreamBuilderProtocolTypeIter`: the protocols of a builder from the last layer to the first. */
  class TypeIter {
    const builders: seq<Layer>
    const ty: Option<Protocol>
    var pos: nat
    var state: IterState
    /** All the protocols, in chain order, and how many have been given out. */
    ghost const types: seq<Protocol>
    ghost var given: nat

    ghost predicate Valid()
      reads this
    {
      && |types| == |builders| + (if ty.Some? then 1 else 0)
      && (forall i :: 0 <= i < |builders| ==> types[i] == builders[i].node.proto)
      && (ty.Some? ==> types[|builders|] == ty.value)
      && given <= |types|
      && match state {
           case Start => given == 0 && pos == |builders|
           case Last => given == 1 && ty.Some? && pos == |builders|
           case Body => pos < |builders| && given == |types| - pos
           case Done => given == |types|
         }
    }

    constructor (builders: seq<Layer>, last: Option<Node>)
      ensures Valid() && types == AllTypes(builders, last) && given == 0
    {
      this.builders := builders;
      ty := if last.Some? then Some(last.value.proto) else None;
      pos, state := |builders|, Start;
      types, given := AllTypes(builders, last), 0;
    }

    /** `next`, resuming behind the last `co_yield`. */
    method Next() returns (r: Option<Protocol>)
      requires Valid()
      modifies this
      ensures Valid() && (r == None <==> old(given) == |types|)
      ensures r.Some? ==> given == old(given) + 1 <= |types| && r.value == types[|types| - given]
      ensures r == None ==> given == |types|
    {
      if state == Start && ty.Some? {
        state, given := Last, 1;
        return ty;
      }
      if state == Done || pos == 0 {
        state := Done;
        return None;
      }
      pos, given := pos - 1, given + 1;
      state := Body;
      r := Some(builders[pos].node.proto);
    }
  }

  function TypesOf(layers: seq<Layer>): (r: seq<Protocol>)
    ensures |r| == |layers|
  {
    seq(|layers|, i requires 0 <= i < |layers| => layers[i].node.proto)
  }

  /** The protocols of all layers, the deferred last one included. */
  function AllTypes(builders: seq<Layer>, last: Option<Node>): (r: seq<Protocol>)
    ensures |r| == |builders| + (if last.Some? then 1 else 0)
  {
    TypesOf(builders) + (if last.Some? then [last.value.proto] else [])
  }

  /** The marks of the last `|bits|` layers, from the right, and whether one of those is UDP over TCP. */
  ghost predicate Marked(types: seq<Protocol>, bits: seq<bool>, isUot: bool) {
    && |bits| <= |types|
    && (isUot <==> UotRightOf(types, |types| - 1 - |bits|))
    && forall i :: 0 <= i < |bits| ==> (bits[i] <==> UotRightOf(types, |types| - 1 - i))
  }

  lemma MarkStep(types: seq<Protocol>, bits: seq<bool>, isUot: bool)
    requires Marked(types, bits, isUot) && |bits| < |types|
    ensures Marked(types, bits + [isUot], isUot || types[|types| - 1 - |bits|].IsUot())
  {
    var n := |types| - 1 - |bits|;
    UotStep(types, n);
    hide UotRightOf;
  }

  lemma UotStep(types: seq<Protocol>, i: nat)
    requires i < |types|
    ensures UotRightOf(types, i - 1) <==> types[i].IsUot() || UotRightOf(types, i)
  {
    if UotRightOf(types, i) {
      var j :| i < j < |types| && 0 <= j && types[j].IsUot();
      assert i - 1 < j;
    }
  }

  lemma MarksReversed(types: seq<Protocol>, bits: seq<bool>, isUot: bool)
    requires Marked(types, bits, isUot) && |bits| == |types|
    ensures forall i :: 0 <= i < |types| ==> (Reversed(bits)[i] <==> UotRightOf(types, i))
  {
  }

  /** `build_udp_marker_impl`: after the final reversal, a mark says that a UDP-over-TCP layer lies further right. */
  method BuildUdpMarker(iter: TypeIter) returns (marker: seq<bool>)
    requires iter.Valid() && iter.given == 0
    modifies iter
    ensures |marker| == |iter.types|
    ensures forall i :: 0 <= i < |iter.types| ==> (marker[i] <==> UotRightOf(iter.types, i))
  {
    var bits: seq<bool> := [];
    var isUot := false;
    assert Marked(iter.types, bits, isUot);
    hide Marked, UotRightOf;
    var next := iter.Next();
    while next.Some?
      invariant iter.Valid() && Marked(iter.types, bits, isUot) && iter.given <= |iter.types|
      invariant |bits| == if next.Some? then iter.given - 1 else iter.given
      invariant next.Some? ==> iter.given >= 1 && next.value == iter.types[|iter.types| - iter.given]
      invariant next == None ==> iter.given == |iter.types|
      decreases |iter.types| - iter.given, next.Some?
    {
      MarkStep(iter.types, bits, isUot);
      if next.value.IsUot() && !isUot {
        bits := bits + [false];
        isUot := true;
      } else {
        bits := bits + [isUot];
      }
      next := iter.Next();
    }
    MarksReversed(iter.types, bits, isUot);
    marker := Reversed(bits);
  }

  /** `Iterator::any` over the protocols. */
  method AnyBlackhole(iter: TypeIter) returns (found: bool)
    requires iter.Valid() && iter.given == 0
    modifies iter
    ensures found <==> Blackhole in iter.types
  {
    var next := iter.Next();
    while next.Some?
      invariant iter.Valid() && (next.Some? ==> iter.given >= 1 && next.value == iter.types[|iter.types| - iter.given])
      invariant next == None ==> iter.given == |iter.types|
      invariant forall i :: |iter.types| - iter.given + (if next.Some? then 1 else 0) <= i < |iter.types| ==>
                  iter.types[i] != Blackhole
      decreases |iter.types| - iter.given, next.Some?
    {
      if next.value == Blackhole {
        return true;
      }
      next := iter.Next();
    }
    found := false;
  }

  /** `Iterator::position`: how far from the right the last UDP-over-TCP layer is. */
  method PositionUot(iter: TypeIter) returns (idx: Option<nat>)
    requires iter.Valid() && iter.given == 0
    modifies iter
    ensures idx == if LastUot(iter.types) < 0 then None else Some(|iter.types| - 1 - LastUot(iter.types))
  {
    hide LastUot;
    var k: nat := 0;
    var next := iter.Next();
    while next.Some?
      invariant iter.Valid() && (next.Some? ==> iter.given >= 1 && next.value == iter.types[|iter.types| - iter.given])
      invariant k == if next.Some? then iter.given - 1 else iter.given
      invariant next == None ==> iter.given == |iter.types|
      invariant forall i :: |iter.types| - iter.given + (if next.Some? then 1 else 0) <= i < |iter.types| ==>
                  !iter.types[i].IsUot()
      decreases |iter.types| - iter.given, next.Some?
    {
      if next.value.IsUot() {
        return Some(k);
      }
      k := k + 1;
      next := iter.Next();
    }
    idx := None;
  }

  /** How many hops there are up to the last UDP-over-TCP hop, itself included. */
  function UotHops(nodes: seq<Node>): (k: nat)
    ensures k <= |Hops(nodes)|
  {
    if nodes == [] then 0
    else if nodes[|nodes| - 1].proto.IsUot() then |Hops(nodes)|
    else UotHops(nodes[..|nodes| - 1])
  }

  lemma LastUotSnoc(layers: seq<Layer>, l: Layer)
    ensures LastUot(TypesOf(layers + [l])) == if l.node.proto.IsUot() then |layers| else LastUot(TypesOf(layers))
  {
    assert TypesOf(layers + [l])[..|layers|] == TypesOf(layers);
  }

  /** The rightmost UDP-over-TCP layer that has been pushed goes on to the hop right behind it. */
  lemma {:induction false} PushedUot(nodes: seq<Node>, hops: seq<Address>)
    requires Hops(nodes) <= hops
    requires |Hops(nodes)| < |hops| || LastHop(nodes) == None || !LastHop(nodes).value.proto.IsUot()
    ensures var layers := Pushed(nodes, hops);
            var u := LastUot(TypesOf(layers));
            && (u < 0 <==> UotHops(nodes) == 0)
            && (u >= 0 ==> UotHops(nodes) < |hops| && layers[u].target == Some(hops[UotHops(nodes)]))
  {
    if nodes != [] {
      var before, n := nodes[..|nodes| - 1], nodes[|nodes| - 1];
      PushedUot(before, hops);
      var layers, added := Pushed(before, hops), PushedBy(n, |Hops(before)|, hops);
      if added == [] {
        assert layers + [] == layers;
      } else {
        LastUotSnoc(layers, added[0]);
        assert added == [added[0]];
      }
    }
  }

  /** Which layer knows the address that the deferred hop, unless it is UDP over TCP itself, is given for UDP. */
  lemma DeferredAddr(nodes: seq<Node>)
    ensures var builders, last, hops := Pushed(nodes, Hops(nodes)), LastHop(nodes), Hops(nodes);
            var u := LastUot(AllTypes(builders, last));
            && |AllTypes(builders, last)| == |builders| + (if last.Some? then 1 else 0) && u < |AllTypes(builders, last)|
            && (hops == [] <==> last == None)
            && (last.Some? && last.value.proto.IsUot() <==> last.Some? && u == |builders|)
            && (last.Some? && !last.value.proto.IsUot() ==>
                  UotHops(nodes) < |hops| && if u < 0 then UotHops(nodes) == 0
                                             else u < |builders| && builders[u].target == Some(hops[UotHops(nodes)]))
  {
    var builders, last, hops := Pushed(nodes, Hops(nodes)), LastHop(nodes), Hops(nodes);
    LastHopIs(nodes);
    LastUotOfAll(builders, last);
    if last.Some? && !last.value.proto.IsUot() {
      PushedUot(nodes, hops);
    }
    hide Hops, Pushed, LastHop, UotHops, AllTypes;
  }

  /** What `build_tcp` comes to: `At` is where the finished stream leads, `Lost` a hop spoken to at the wrong address. */
  datatype TcpResult = At(address: Address) | Blocked | Lost

  /** What `build_udp` builds: whether it starts with a TCP connection, and its layers, each with its TCP-inside mark. */
  datatype UdpResult = Layers(overTcp: bool, entry: Address, layers: seq<(Layer, bool)>) | Refused | OutOfBounds | NoAddress

  /**
   The layers `build_udp` is to build for a chain: each builds TCP inside exactly when a UDP-over-TCP layer comes after it, and the
   deferred hop, unless it is one of those, is asked to go on to the hop right behind the last of them.
   */
  ghost predicate UdpPlan(nodes: seq<Node>, proxyAddr: Address, r: UdpResult)
    requires r.Layers?
  {
    var builders, last, hops := Pushed(nodes, Hops(nodes)), LastHop(nodes), Hops(nodes);
    var types := AllTypes(builders, last);
    && r.entry == Entry(nodes, proxyAddr) && |r.layers| == |types| && (r.overTcp <==> UotRightOf(types, 0))
    && (forall i :: 0 <= i < |r.layers| ==>
          (i < |builders| ==> r.layers[i].0 == builders[i]) && (r.layers[i].1 <==> UotRightOf(types, i)))
    && (last.Some? ==>
          if last.value.proto.IsUot() then r.layers[|builders|].0 == Layer(last.value, Some(proxyAddr))
          else UotHops(nodes) < |hops| && r.layers[|builders|].0 == Layer(last.value, Some(hops[UotHops(nodes)])))
  }

  /** `ChainStreamBuilder`, as compiled from `nodes`. */
  class ChainStreamBuilder {
    var builders: seq<Layer>
    var remoteAddr: Option<Address>
    var lastUdpAddr: Option<Address>
    var buildUdpMarker: seq<bool>
    var lastBuilder: Option<Node>
    var isBlackHole: bool
    ghost var nodes: seq<Node>

    ghost function Types(): seq<Protocol>
      reads this
    {
      AllTypes(builders, lastBuilder)
    }

    ghost predicate Compiled()
      reads this
    {
      && builders == Pushed(nodes, Hops(nodes)) && lastBuilder == LastHop(nodes)
      && remoteAddr == (if Hops(nodes) == [] then None else Some(Hops(nodes)[0]))
    }

    /** With its markers built, the builder is ready for use. */
    ghost predicate Valid()
      reads this
    {
      && Compiled()
      && |buildUdpMarker| == |Types()| && (forall i :: 0 <= i < |Types()| ==> (buildUdpMarker[i] <==> UotRightOf(Types(), i)))
      && (isBlackHole <==> Blackhole in Types())
      && UdpAddrReady()
    }

    constructor ()
      ensures builders == [] && remoteAddr == None && lastUdpAddr == None && buildUdpMarker == []
      ensures lastBuilder == None && !isBlackHole
    {
      builders, remoteAddr, lastUdpAddr, buildUdpMarker, lastBuilder, isBlackHole := [], None, None, [], None, false;
      nodes := [];
    }

    /** The address the deferred hop will unwrap for UDP. */
    ghost predicate UdpAddrReady()
      reads this
    {
      lastBuilder.Some? && !lastBuilder.value.proto.IsUot() ==>
        UotHops(nodes) < |Hops(nodes)| && lastUdpAddr == Some(Hops(nodes)[UotHops(nodes)])
    }

    /** `build_inner_markers` */
    method BuildInnerMarkers()
      requires Compiled() && buildUdpMarker == [] && lastUdpAddr == None
      modifies `isBlackHole, `buildUdpMarker, `lastUdpAddr
      ensures Valid()
    {
      hide Hops, Pushed, LastHop, UotHops, LastUot, UotRightOf, Through;
      var iter := new TypeIter(builders, lastBuilder);
      isBlackHole := AnyBlackhole(iter);
      iter := new TypeIter(builders, lastBuilder);
      buildUdpMarker := BuildUdpMarker(iter);
      SetLastUdpAddr();
    }

    /** The rightmost UDP-over-TCP layer, if it is not the deferred one, knows the address; the index is always in bounds. */
    method SetLastUdpAddr()
      requires Compiled() && lastUdpAddr == None
      modifies `lastUdpAddr
      ensures UdpAddrReady()
    {
      DeferredAddr(nodes);
      hide Hops, Pushed, LastHop, UotHops, LastUot, AllTypes;
      var iter := new TypeIter(builders, lastBuilder);
      var idx := PositionUot(iter);
      if idx.Some? {
        if idx.value == 0 {
          // the last builder is UDP over TCP
        } else {
          lastUdpAddr := builders[|builders| - idx.value].target;
        }
      } else {
        lastUdpAddr := remoteAddr;
      }
    }

    /** `build_tcp` */
    method BuildTcp(proxyAddr: Address) returns (r: TcpResult)
      requires Valid()
      ensures isBlackHole <==> Blackholed(nodes)
      ensures isBlackHole ==> r == Blocked
      ensures !isBlackHole ==> r == At(proxyAddr)
    {
      TypesOfChain(nodes);
      if isBlackHole {
        return Blocked;
      }
      ghost var entry := Entry(nodes, proxyAddr);
      var at: Option<Address> := Some(if remoteAddr.Some? then remoteAddr.value else proxyAddr);
      for i := 0 to |builders|
        invariant at == Through(builders[..i], entry)
      {
        assert builders[..i + 1] == builders[..i] + [builders[i]];
        ThroughSnoc(builders[..i], builders[i], entry);
        at := Apply(builders[i], at);
      }
      assert builders[..|builders|] == builders;
      if lastBuilder.Some? {
        ThroughSnoc(builders, Layer(lastBuilder.value, Some(proxyAddr)), entry);
        at := Apply(Layer(lastBuilder.value, Some(proxyAddr)), at);
      } else {
        assert builders + [] == builders;
      }
      ChainTunnels(nodes, proxyAddr);
      r := if at.Some? then At(at.value) else Lost;
    }

    /**
     `build_udp`: the marks are looked up within bounds, except by an empty chain, and the deferred hop always has the address it
     unwraps. Every layer builds TCP inside exactly when a UDP-over-TCP layer comes after it.
     */
    method BuildUdp(proxyAddr: Address) returns (r: UdpResult)
      requires Valid()
      ensures isBlackHole ==> r == Refused
      ensures !isBlackHole ==> (r == OutOfBounds <==> nodes == []) && r != NoAddress && r != Refused
      ensures r.Layers? ==> UdpPlan(nodes, proxyAddr, r)
    {
      TypesOfChain(nodes);
      hide Hops, Pushed, LastHop, UotHops, UotRightOf;
      if isBlackHole {
        return Refused;
      }
      if |buildUdpMarker| == 0 {
        return OutOfBounds;
      }
      var overTcp := buildUdpMarker[0];
      var entry := if remoteAddr.Some? then remoteAddr.value else proxyAddr;
      var layers: seq<(Layer, bool)> := seq(|builders|, i requires 0 <= i < |builders| && |builders| <= |buildUdpMarker|
                                            reads this => (builders[i], buildUdpMarker[i]));
      if lastBuilder.Some? {
        var uot := lastBuilder.value.proto.IsUot();
        if !uot && lastUdpAddr == None {
          return NoAddress;
        }
        var target := if uot then Some(proxyAddr) else lastUdpAddr;
        layers := layers + [(Layer(lastBuilder.value, target), buildUdpMarker[|buildUdpMarker| - 1])];
      }
      r := Layers(overTcp, entry, layers);
    }
  }

  ghost predicate Blackholed(nodes: seq<Node>) {
    exists i :: 0 <= i < |nodes| && nodes[i].proto == Blackhole
  }

  lemma TypesOfAppend(a: seq<Layer>, b: seq<Layer>)
    ensures TypesOf(a + b) == TypesOf(a) + TypesOf(b)
  {
  }

  lemma {:induction false} BlackholePushed(nodes: seq<Node>, hops: seq<Address>)
    ensures Blackhole in TypesOf(Pushed(nodes, hops)) <==> Blackholed(nodes)
  {
    if nodes != [] {
      var before, n := nodes[..|nodes| - 1], nodes[|nodes| - 1];
      var added := PushedBy(n, |Hops(before)|, hops);
      BlackholePushed(before, hops);
      TypesOfAppend(Pushed(before, hops), added);
      assert Blackhole in TypesOf(added) <==> n.proto == Blackhole by {
        if added != [] { assert TypesOf(added)[0] == n.proto; }
      }
      assert nodes == before + [n];
      BlackholedSnoc(before, n);
    }
  }

  lemma BlackholedSnoc(nodes: seq<Node>, n: Node)
    ensures Blackholed(nodes + [n]) <==> Blackholed(nodes) || n.proto == Blackhole
  {
    var more := nodes + [n];
    if Blackholed(nodes) {
      var i :| 0 <= i < |nodes| && nodes[i].proto == Blackhole;
      assert more[i].proto == Blackhole;
    }
    assert more[|nodes|] == n;
  }

  /** A chain has as many layers as nodes, and a black hole among the ones if it has one among the others. */
  lemma TypesOfChain(nodes: seq<Node>)
    ensures var types := AllTypes(Pushed(nodes, Hops(nodes)), LastHop(nodes));
            |types| == |nodes| && (Blackhole in types <==> Blackholed(nodes))
  {
    AppliedOrder(nodes, DUMMY);
    BlackholePushed(nodes, Hops(nodes));
    LastHopIs(nodes);
    hide Hops, Pushed, LastHop;
    assert |NodesOf(Applied(nodes, DUMMY))| == |nodes|;
  }

  lemma LastUotOfAll(builders: seq<Layer>, last: Option<Node>)
    ensures LastUot(AllTypes(builders, last)) ==
              if last.Some? && last.value.proto.IsUot() then |builders| else LastUot(TypesOf(builders))
  {
    if last.Some? {
      assert AllTypes(builders, last)[..|builders|] == TypesOf(builders);
    } else {
      assert TypesOf(builders) + [] == TypesOf(builders);
    }
  }

  /** `build_inner_map`, for one outbound: `None` is a tag that is not configured. */
  method BuildChain(config: map<string, Node>, chain: seq<string>) returns (r: ChainStreamBuilder?)
    ensures r == null <==> exists i :: 0 <= i < |chain| && chain[i] !in config
    ensures r != null ==> fresh(r) && (forall i :: 0 <= i < |chain| ==> chain[i] in config)
    ensures r != null ==> r.Valid() && r.nodes == Resolve(config, chain)
  {
    var builder := new ChainStreamBuilder();
    var addrs: seq<Address> := [];
    for i := 0 to |chain|
      invariant forall j :: 0 <= j < i ==> chain[j] in config
      invariant builder.builders == [] && builder.lastBuilder == None && builder.lastUdpAddr == None && builder.buildUdpMarker == []
      invariant var hops := Hops(Resolve(config, chain[..i]));
                if builder.remoteAddr == None then hops == [] && addrs == [] else hops == [builder.remoteAddr.value] + addrs
    {
      if chain[i] !in config {
        return null;
      }
      ResolveSnoc(config, chain, i);
      var addr := config[chain[i]].GetAddr();
      if addr.Some? {
        if builder.remoteAddr == None {
          builder.remoteAddr := addr;
        } else {
          addrs := addrs + [addr.value];
        }
      }
    }
    assert chain[..|chain|] == chain;
    PushAll(config, chain, builder, addrs);
    builder.BuildInnerMarkers();
    r := builder;
  }

  lemma ResolveSnoc(config: map<string, Node>, chain: seq<string>, i: nat)
    requires i < |chain| && forall j :: 0 <= j <= i ==> chain[j] in config
    ensures Resolve(config, chain[..i + 1]) == Resolve(config, chain[..i]) + [config[chain[i]]]
    ensures (forall j :: 0 <= j < |chain| ==> chain[j] in config) ==>
              Resolve(config, chain)[..i + 1] == Resolve(config, chain[..i + 1])
  {
  }

  /** The state of the second loop after `nodes`: what has been pushed, the addresses left, and the deferred hop. */
  ghost predicate Filled(
      nodes: seq<Node>, hops: seq<Address>, builders: seq<Layer>, left: seq<Address>, last: Option<Node>) {
    var k := |Hops(nodes)|;
    && k <= |hops| && builders == Pushed(nodes, hops)
    && left == (if k + 1 <= |hops| then hops[k + 1..] else [])
    && last == (if k == |hops| then LastHop(nodes) else None)
  }

  lemma FilledStep(nodes: seq<Node>, n: Node, hops: seq<Address>, builders: seq<Layer>, left: seq<Address>, last: Option<Node>)
    requires Filled(nodes, hops, builders, left, last) && |Hops(nodes + [n])| <= |hops|
    ensures !n.proto.Addressed() ==> Filled(nodes + [n], hops, builders + [ToLayer(n, None)], left, last)
    ensures n.proto.Addressed() && left == [] ==> Filled(nodes + [n], hops, builders, left, Some(n))
    ensures n.proto.Addressed() && left != [] ==>
              Filled(nodes + [n], hops, builders + [ToLayer(n, Some(left[0]))], left[1..], last)
  {
    assert (nodes + [n])[..|nodes|] == nodes;
    assert builders + [] == builders;
  }

  method PushOne(builder: ChainStreamBuilder, n: Node, left: seq<Address>, ghost nodes: seq<Node>, ghost hops: seq<Address>)
    returns (rest: seq<Address>)
    requires Filled(nodes, hops, builder.builders, left, builder.lastBuilder) && |Hops(nodes + [n])| <= |hops|
    modifies builder`builders, builder`lastBuilder
    ensures Filled(nodes + [n], hops, builder.builders, rest, builder.lastBuilder)
  {
    hide Hops, Filled;
    FilledStep(nodes, n, hops, builder.builders, left, builder.lastBuilder);
    rest := left;
    if n.proto.Addressed() {
      if left == [] {
        builder.lastBuilder := Some(n);
      } else {
        builder.builders := builder.builders + [ToLayer(n, Some(left[0]))];
        rest := left[1..];
      }
    } else {
      builder.builders := builder.builders + [ToLayer(n, None)];
    }
  }

  /** The second loop of `build_inner_map`: each hop takes the next address left, and the hop that finds none is deferred. */
  method PushAll(config: map<string, Node>, chain: seq<string>, builder: ChainStreamBuilder, addrs: seq<Address>)
    requires forall i :: 0 <= i < |chain| ==> chain[i] in config
    requires builder.builders == [] && builder.lastBuilder == None
    requires var hops := Hops(Resolve(config, chain));
             if builder.remoteAddr == None then hops == [] && addrs == [] else hops == [builder.remoteAddr.value] + addrs
    modifies builder`builders, builder`lastBuilder, builder`nodes
    ensures builder.nodes == Resolve(config, chain) && builder.Compiled()
  {
    ghost var all := Resolve(config, chain);
    ghost var hops := Hops(all);
    var left := addrs;
    FilledStart(hops, left);
    assert all[..0] == [] && forall i :: 0 <= i < |chain| ==> all[i] == config[chain[i]];
    hide Hops, Filled, Pushed, LastHop, Resolve;
    for i := 0 to |chain|
      invariant Filled(all[..i], hops, builder.builders, left, builder.lastBuilder)
    {
      HopsOfPrefix(all, i + 1);
      left := PushOne(builder, config[chain[i]], left, all[..i], hops);
    }
    assert all[..|chain|] == all;
    builder.nodes := all;
    FilledEnd(all, hops, builder.builders, left, builder.lastBuilder);
  }

  lemma FilledStart(hops: seq<Address>, left: seq<Address>)
    requires if hops == [] then left == [] else left == hops[1..]
    ensures Filled([], hops, [], left, None)
  {
  }

  lemma FilledEnd(nodes: seq<Node>, hops: seq<Address>, builders: seq<Layer>, left: seq<Address>, last: Option<Node>)
    requires Filled(nodes, hops, builders, left, last) && hops == Hops(nodes)
    ensures builders == Pushed(nodes, hops) && last == LastHop(nodes)
  {
  }

  lemma {:induction false} HopsOfPrefix(nodes: seq<Node>, i: nat)
    requires i <= |nodes|
    ensures Hops(nodes[..i]) <= Hops(nodes)
    ensures i > 0 ==> nodes[..i] == nodes[..i - 1] + [nodes[i - 1]]
    decreases |nodes|
  {
    if i < |nodes| {
      HopsOfPrefix(nodes[..|nodes| - 1], i);
      assert nodes[..|nodes| - 1][..i] == nodes[..i];
    } else {
      assert nodes[..i] == nodes;
    }
  }
}
