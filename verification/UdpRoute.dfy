/** Where a datagram goes that is sent through a compiled chain. */
module UdpRoute {
  import opened Bytes
  import opened Address
  import opened Chain
  import opened ChainBuilder

  /**
   What the layers applied so far come to: a byte stream that leads to `at`; a UDP socket whose peer is fixed; a Trojan association,
   which sends each datagram to the target it is given; a VMess stream, which sends all of them to the address in its header; a
   Shadowsocks layer, which seals each datagram together with its target and sends it on to `server`; or a stream protocol that
   has no stream under it, or is spoken to the wrong server.
   */
  datatype Carrier =
    | Tunnel(at: Address)
    | Socket(peer: Address)
    | Associate
    | Pinned(peer: Address)
    | Sealing(node: Node, server: Address, inner: Carrier)
    | Broken

  /** The `build_udp` of a layer. A transport passes datagrams through as they are. */
  function AddLayer(c: Carrier, l: Layer, tcpInside: bool): Carrier {
    if !l.node.proto.Addressed() then c
    else if l.target == None then Broken
    else if l.node.proto.SS? && !tcpInside then Sealing(l.node, l.target.value, c)
    else if c != Tunnel(l.node.addr) then Broken
    else if tcpInside then Tunnel(l.target.value)
    else if l.node.proto.Trojan? then Associate
    else Pinned(l.target.value)
  }

  /** The layers applied in order; those before layer `u` build TCP inside. */
  function Built(layers: seq<Layer>, u: int, start: Carrier): Carrier {
    if layers == [] then start else
    var n := |layers| - 1;
    AddLayer(Built(layers[..n], u, start), layers[n], n < u)
  }

  /** A datagram as the network sees it; `Sealed` is opened by the server of `node` only, which forwards what it finds. */
  datatype Packet = Plain | Sealed(node: Node, to: Address, inner: Packet)

  /** Where a packet for `to` first arrives, and as what. */
  function Send(c: Carrier, to: Address, p: Packet): Option<(Address, Packet)> {
    match c
    case Tunnel(_) => None
    case Broken => None
    case Socket(peer) => Some((peer, p))
    case Pinned(peer) => Some((peer, p))
    case Associate => Some((to, p))
    case Sealing(node, server, inner) => Send(inner, server, Sealed(node, to, p))
  }

  /** Where a packet that arrives at `at` ends up. */
  function Arrive(at: Address, p: Packet): Option<Address>
    decreases p
  {
    match p
    case Plain => Some(at)
    case Sealed(node, to, inner) => if node.addr == at then Arrive(to, inner) else None
  }

  /** Where a packet for `to` ends up. */
  function Delivered(c: Carrier, to: Address, p: Packet): Option<Address> {
    match Send(c, to, p)
    case None => None
    case Some((at, sent)) => Arrive(at, sent)
  }

  /** Where a datagram for `target` ends up. */
  function Reached(c: Carrier, target: Address): Option<Address> {
    Delivered(c, target, Plain)
  }

  /** The layers a chain is built of for UDP. */
  function UdpLayers(nodes: seq<Node>, proxyAddr: Address): seq<Layer> {
    Pushed(nodes, Hops(nodes)) +
    (match LastHop(nodes)
     case None => []
     case Some(n) =>
       var hops := Hops(nodes);
       [Layer(n, if n.proto.IsUot() then Some(proxyAddr)
                 else if UotHops(nodes) < |hops| then Some(hops[UotHops(nodes)]) else None)])
  }

  function UdpCarrier(nodes: seq<Node>, proxyAddr: Address): Carrier {
    var layers := UdpLayers(nodes, proxyAddr);
    var u, entry := LastUot(TypesOf(layers)), Entry(nodes, proxyAddr);
    Built(layers, u, if u > 0 then Tunnel(entry) else Socket(entry))
  }

  /** The Shadowsocks layers behind the last UDP-over-TCP layer. */
  function Tail(layers: seq<Layer>): seq<Layer> {
    if layers == [] then [] else
    var n := |layers| - 1;
    if layers[n].node.proto.IsUot() then []
    else if layers[n].node.proto.SS? then Tail(layers[..n]) + [layers[n]]
    else Tail(layers[..n])
  }

  ghost predicate Targeted(layers: seq<Layer>) {
    forall l <- layers :: l.node.proto.Addressed() ==> l.target.Some?
  }

  lemma TailTargeted(layers: seq<Layer>)
    requires Targeted(layers)
    ensures forall l <- Tail(layers) :: l.target.Some? && l.node.proto.SS?
  {
    if layers != [] {
      TailTargeted(layers[..|layers| - 1]);
    }
  }

  /** A packet sealed by each of `ss`, the last first, and the address the outermost goes to. */
  function Packed(ss: seq<Layer>, to: Address, p: Packet): Packet
    requires Targeted(ss) && forall l <- ss :: l.node.proto.SS?
  {
    if ss == [] then p else
    var l := ss[|ss| - 1];
    assert l in ss;
    Packed(ss[..|ss| - 1], l.target.value, Sealed(l.node, to, p))
  }

  function FirstTo(ss: seq<Layer>, to: Address): Address
    requires Targeted(ss) && forall l <- ss :: l.node.proto.SS?
  {
    if ss == [] then to else assert ss[0] in ss; ss[0].target.value
  }

  lemma PackedNothing(to: Address, p: Packet)
    ensures Packed([], to, p) == p && FirstTo([], to) == to
  {
  }

  lemma PackedSnoc(ss: seq<Layer>, l: Layer, to: Address, p: Packet)
    requires Targeted(ss) && (forall s <- ss :: s.node.proto.SS?) && l.node.proto.SS? && l.target.Some?
    ensures Targeted(ss + [l]) && forall s <- ss + [l] :: s.node.proto.SS?
    ensures Packed(ss + [l], to, p) == Packed(ss, l.target.value, Sealed(l.node, to, p))
    ensures FirstTo(ss + [l], to) == FirstTo(ss, l.target.value)
  {
    assert (ss + [l])[..|ss|] == ss;
  }

  /** Every layer but the first sends its packets to its own server. */
  ghost predicate OwnServers(ss: seq<Layer>) {
    forall j :: 1 <= j < |ss| ==> ss[j].target == Some(ss[j].node.addr)
  }

  /** A packet packed by `ss` comes out exactly if it arrives at the first server, and every later layer is addressed to its own. */
  lemma {:induction false} ArriveIff(at: Address, ss: seq<Layer>, to: Address, p: Packet)
    requires Targeted(ss) && (forall l <- ss :: l.node.proto.SS?)
    ensures Arrive(at, Packed(ss, to, p)) ==
              if ss == [] then Arrive(at, p)
              else if at == ss[0].node.addr && OwnServers(ss) then Arrive(to, p)
              else None
  {
    if ss == [] {
      PackedNothing(to, p);
    } else {
      var l, before := ss[|ss| - 1], ss[..|ss| - 1];
      assert l in ss && ss == before + [l];
      PackedSnoc(before, l, to, p);
      ArriveIff(at, before, l.target.value, Sealed(l.node, to, p));
      OwnServersSnoc(before, l);
      hide Packed, OwnServers;
    }
  }

  lemma OwnServersSnoc(ss: seq<Layer>, l: Layer)
    ensures OwnServers(ss + [l]) <==> OwnServers(ss) && (ss != [] ==> l.target == Some(l.node.addr))
  {
    var more := ss + [l];
    assert more[|ss|] == l && forall j :: 0 <= j < |ss| ==> more[j] == ss[j];
    if OwnServers(more) {
      forall j | 1 <= j < |ss| ensures ss[j].target == Some(ss[j].node.addr) {
        assert more[j].target == Some(more[j].node.addr);
      }
    }
  }

  lemma TailSnoc(layers: seq<Layer>, l: Layer)
    ensures Tail(layers + [l]) ==
              if l.node.proto.IsUot() then [] else if l.node.proto.SS? then Tail(layers) + [l] else Tail(layers)
  {
    assert (layers + [l])[..|layers|] == layers;
  }

  lemma BuiltSnoc(layers: seq<Layer>, l: Layer, u: int, start: Carrier)
    ensures Built(layers + [l], u, start) == AddLayer(Built(layers, u, start), l, |layers| < u)
  {
    assert (layers + [l])[..|layers|] == layers;
  }

  /** A layer behind the last UDP-over-TCP layer packs, if it is Shadowsocks, and does nothing otherwise. */
  lemma SendSnoc(layers: seq<Layer>, l: Layer, u: int, start: Carrier, to: Address, p: Packet)
    requires u <= |layers| && !l.node.proto.IsUot() && (l.node.proto.Addressed() ==> l.target.Some?)
    ensures Send(Built(layers + [l], u, start), to, p) ==
              if l.node.proto.SS? then Send(Built(layers, u, start), l.target.value, Sealed(l.node, to, p))
              else Send(Built(layers, u, start), to, p)
  {
    BuiltSnoc(layers, l, u, start);
    hide Built;
  }

  /** The layers behind the last UDP-over-TCP layer only pack. */
  lemma {:induction false} SendPacks(layers: seq<Layer>, u: int, start: Carrier, to: Address, p: Packet)
    requires Targeted(layers) && u == LastUot(TypesOf(layers))
    ensures -1 <= u < |layers| && (forall l <- Tail(layers) :: l.target.Some? && l.node.proto.SS?)
    ensures Send(Built(layers, u, start), to, p) ==
              Send(Built(layers[..u + 1], u, start), FirstTo(Tail(layers), to), Packed(Tail(layers), to, p))
  {
    TailTargeted(layers);
    hide Built, Send, AddLayer, Packed, FirstTo;
    if u + 1 < |layers| {
      var l, before := layers[|layers| - 1], layers[..|layers| - 1];
      assert l in layers && layers == before + [l];
      LastUotSnoc(before, l);
      TailSnoc(before, l);
      TailTargeted(before);
      SendSnoc(before, l, u, start, to, p);
      assert before[..u + 1] == layers[..u + 1];
      if l.node.proto.SS? {
        SendPacks(before, u, start, l.target.value, Sealed(l.node, to, p));
        PackedSnoc(Tail(before), l, to, p);
      } else {
        SendPacks(before, u, start, to, p);
      }
    } else {
      assert layers[..u + 1] == layers;
      NoTail(layers);
      PackedNothing(to, p);
    }
  }

  lemma NoTail(layers: seq<Layer>)
    requires LastUot(TypesOf(layers)) == |layers| - 1
    ensures Tail(layers) == []
  {
    if layers != [] {
      assert TypesOf(layers)[|layers| - 1] == layers[|layers| - 1].node.proto;
    }
  }

  /** While everything builds TCP inside, the layers make the tunnel that `build_tcp` makes of them. */
  lemma {:induction false} TcpInside(layers: seq<Layer>, u: int, at: Address)
    requires |layers| <= u && Through(layers, at).Some?
    ensures Built(layers, u, Tunnel(at)) == Tunnel(Through(layers, at).value)
  {
    if layers != [] {
      var l, before := layers[|layers| - 1], layers[..|layers| - 1];
      assert layers == before + [l];
      ThroughSnoc(before, l, at);
      BuiltSnoc(before, l, u, Tunnel(at));
      hide Built, Through;
      TcpInside(before, u, at);
    }
  }

  lemma {:induction false} ThroughPrefix(layers: seq<Layer>, k: nat, at: Address)
    requires k <= |layers| && Through(layers, at).Some?
    ensures Through(layers[..k], at).Some?
  {
    if k < |layers| {
      ThroughPrefix(layers[..|layers| - 1], k, at);
      assert layers[..|layers| - 1][..k] == layers[..k];
    } else {
      assert layers[..k] == layers;
    }
  }

  /** The last UDP-over-TCP layer finds a stream to its own server, and so an association or a stream to its target. */
  lemma UotBuilt(layers: seq<Layer>, u: nat, at: Address)
    requires u < |layers| && layers[u].node.proto.IsUot() && Through(layers[..u + 1], at).Some?
    ensures layers[u].target.Some?
    ensures Built(layers[..u + 1], u, Tunnel(at)) ==
              if layers[u].node.proto.Trojan? then Associate else Pinned(layers[u].target.value)
  {
    var l, before := layers[u], layers[..u];
    assert layers[..u + 1] == before + [l];
    ThroughSnoc(before, l, at);
    TcpInside(before, u, at);
    BuiltSnoc(before, l, u, Tunnel(at));
    hide Built, Through;
  }

  /** What lies under the layers behind the last UDP-over-TCP layer. */
  function Base(nodes: seq<Node>, proxyAddr: Address): Carrier {
    var hops, u := Hops(nodes), LastUot(TypesOf(UdpLayers(nodes, proxyAddr)));
    if u < 0 then Socket(Entry(nodes, proxyAddr))
    else if u == 0 then Broken
    else if UdpLayers(nodes, proxyAddr)[u].node.proto.Trojan? then Associate
    else Pinned(if UotHops(nodes) < |hops| then hops[UotHops(nodes)] else proxyAddr)
  }

  lemma PushedTargeted(nodes: seq<Node>, hops: seq<Address>)
    ensures Targeted(Pushed(nodes, hops))
  {
    if nodes != [] {
      PushedTargeted(nodes[..|nodes| - 1], hops);
    }
  }

  /** Every hop is a UDP-over-TCP hop or comes behind the last one, unless the last is one. */
  lemma {:induction false} UotHopsAll(nodes: seq<Node>)
    ensures UotHops(nodes) == |Hops(nodes)| <==> LastHop(nodes) == None || LastHop(nodes).value.proto.IsUot()
  {
    if nodes != [] {
      UotHopsAll(nodes[..|nodes| - 1]);
    }
  }

  /** `ss` are Shadowsocks layers at `hops[from..to]`, each asked to go on to the next hop. */
  ghost predicate Follow(ss: seq<Layer>, hops: seq<Address>, from: nat, to: int) {
    && to < |hops| && |ss| == to - from
    && forall j :: 0 <= j < |ss| ==> ss[j].node.addr == hops[from + j] && ss[j].target == Some(hops[from + j + 1])
  }

  lemma FollowMore(ss: seq<Layer>, l: Layer, hops: seq<Address>, from: nat, to: nat)
    requires Follow(ss, hops, from, to) && to + 1 < |hops|
    requires l.node.addr == hops[to] && l.target == Some(hops[to + 1])
    ensures Follow(ss + [l], hops, from, to + 1)
  {
  }

  lemma FollowNone(hops: seq<Address>, from: nat)
    requires from < |hops|
    ensures Follow([], hops, from, from)
  {
  }

  /** What the last node of a chain adds to it. */
  lemma LastNode(nodes: seq<Node>, hops: seq<Address>)
    requires nodes != []
    ensures var before, n := nodes[..|nodes| - 1], nodes[|nodes| - 1];
            && Pushed(nodes, hops) == Pushed(before, hops) + PushedBy(n, |Hops(before)|, hops)
            && Hops(nodes) == Hops(before) + (if n.proto.Addressed() then [n.addr] else [])
            && UotHops(nodes) == (if n.proto.IsUot() then |Hops(nodes)| else UotHops(before))
            && LastHop(nodes) == (if n.proto.Addressed() then Some(n) else LastHop(before))
  {
  }

  /** One more node: a Shadowsocks hop that is not the last one joins the tail, a UDP-over-TCP hop starts it anew. */
  lemma TailMore(layers: seq<Layer>, n: Node, k: nat, hops: seq<Address>, from: nat)
    requires hops != [] && k <= |hops| && Follow(Tail(layers), hops, from, if k < |hops| then k else k - 1)
    requires n.proto.Addressed() ==> k < |hops| && n.addr == hops[k]
    requires n.proto.IsUot() ==> k + 1 < |hops|
    ensures var k' := if n.proto.Addressed() then k + 1 else k;
            Follow(Tail(layers + PushedBy(n, k, hops)), hops, if n.proto.IsUot() then k' else from, if k' < |hops| then k' else k' - 1)
  {
    hide Tail, Follow;
    var added := PushedBy(n, k, hops);
    if added == [] {
      assert layers + [] == layers;
    } else {
      TailSnoc(layers, added[0]);
      if n.proto.IsUot() {
        FollowNone(hops, k + 1);
      } else if n.proto.SS? {
        FollowMore(Tail(layers), added[0], hops, from, k);
      }
    }
  }

  /** The Shadowsocks layers pushed behind the last UDP-over-TCP hop. */
  lemma {:induction false} PushedTail(nodes: seq<Node>, hops: seq<Address>)
    requires Hops(nodes) <= hops && hops != []
    requires |Hops(nodes)| < |hops| || LastHop(nodes) == None || !LastHop(nodes).value.proto.IsUot()
    ensures var k := |Hops(nodes)|;
            Follow(Tail(Pushed(nodes, hops)), hops, UotHops(nodes), if k < |hops| then k else k - 1)
  {
    if nodes == [] {
      FollowNone(hops, 0);
    } else {
      hide Pushed, Hops, LastHop, UotHops, Tail, Follow;
      var before, n := nodes[..|nodes| - 1], nodes[|nodes| - 1];
      LastNode(nodes, hops);
      PushedTail(before, hops);
      TailMore(Pushed(before, hops), n, |Hops(before)|, hops, UotHops(before));
    }
  }

  /** `ss` are Shadowsocks layers at the hops from `from` on, each asked to go on to the next hop and the last to the first of them. */
  ghost predicate Circle(ss: seq<Layer>, hops: seq<Address>, from: nat) {
    && |ss| == |hops| - from
    && forall j :: 0 <= j < |ss| ==>
         && ss[j].node.addr == hops[from + j]
         && ss[j].target == Some(hops[if from + j + 1 < |hops| then from + j + 1 else from])
  }

  /** The hops behind the last UDP-over-TCP hop are all the same server. */
  ghost predicate OneServer(nodes: seq<Node>) {
    var hops, from := Hops(nodes), UotHops(nodes);
    forall j :: from <= j < |hops| ==> hops[j] == hops[from]
  }

  lemma {:induction false} Around(ss: seq<Layer>, hops: seq<Address>, from: nat, j: nat)
    requires Circle(ss, hops, from) && OwnServers(ss) && j < |ss|
    ensures hops[from + j] == hops[from]
    decreases |ss| - j
  {
    if 0 < j {
      assert ss[j].target == Some(hops[if j + 1 < |ss| then from + j + 1 else from]) == Some(ss[j].node.addr);
      if j + 1 < |ss| {
        Around(ss, hops, from, j + 1);
      }
    }
  }

  /** Each Shadowsocks server of the circle is sent its own packets exactly if they are all the same. */
  lemma CircleIff(ss: seq<Layer>, hops: seq<Address>, from: nat)
    requires Circle(ss, hops, from)
    ensures OwnServers(ss) <==> forall j :: from <= j < |hops| ==> hops[j] == hops[from]
  {
    if OwnServers(ss) {
      forall j | from <= j < |hops| ensures hops[j] == hops[from] {
        Around(ss, hops, from, j - from);
      }
    }
  }

  lemma {:induction false} NoHopsTail(nodes: seq<Node>)
    requires Hops(nodes) == []
    ensures Tail(Pushed(nodes, [])) == [] && UotHops(nodes) == 0 && LastHop(nodes) == None
    ensures LastUot(TypesOf(Pushed(nodes, []))) == -1
  {
    if nodes != [] {
      var before, n := nodes[..|nodes| - 1], nodes[|nodes| - 1];
      NoHopsTail(before);
      TailSnoc(Pushed(before, []), Layer(n, None));
      LastUotSnoc(Pushed(before, []), Layer(n, None));
    }
  }

  /** The Shadowsocks layers behind the last UDP-over-TCP hop: the deferred one is asked to go on to the first of them. */
  lemma TailCircle(nodes: seq<Node>, proxyAddr: Address)
    ensures Circle(Tail(UdpLayers(nodes, proxyAddr)), Hops(nodes), UotHops(nodes))
  {
    var hops, layers := Hops(nodes), Pushed(nodes, Hops(nodes));
    LastHopIs(nodes);
    UotHopsAll(nodes);
    if hops == [] {
      hide Pushed, Hops, LastHop, UotHops, Tail;
      NoHopsTail(nodes);
      assert layers + [] == layers;
      CircleEmpty(hops);
    } else {
      hide Pushed, Hops, LastHop, UotHops, Tail, Circle, Follow;
      var l := UdpLayers(nodes, proxyAddr)[|layers|];
      assert UdpLayers(nodes, proxyAddr) == layers + [l];
      TailSnoc(layers, l);
      if l.node.proto.IsUot() {
        CircleEmpty(hops);
      } else {
        PushedTail(nodes, hops);
        CircleCloses(Tail(layers), l, hops, UotHops(nodes));
      }
    }
  }

  lemma CircleEmpty(hops: seq<Address>)
    ensures Circle([], hops, |hops|)
  {
  }

  lemma CircleCloses(ss: seq<Layer>, l: Layer, hops: seq<Address>, from: nat)
    requires hops != [] && from < |hops| && Follow(ss, hops, from, |hops| - 1)
    requires l.node.addr == hops[|hops| - 1] && l.target == Some(hops[from])
    ensures Circle(ss + [l], hops, from)
  {
  }

  lemma LayersTargeted(nodes: seq<Node>, proxyAddr: Address)
    ensures Targeted(UdpLayers(nodes, proxyAddr))
  {
    PushedTargeted(nodes, Hops(nodes));
    UotHopsAll(nodes);
    LastHopIs(nodes);
    hide Pushed, Hops, LastHop, UotHops;
  }

  /** For UDP the deferred hop may have another target, but not the layers up to the last UDP-over-TCP one. */
  lemma SameUpToUot(nodes: seq<Node>, proxyAddr: Address)
    ensures var layers, u := UdpLayers(nodes, proxyAddr), LastUot(TypesOf(UdpLayers(nodes, proxyAddr)));
            -1 <= u < |layers| == |Applied(nodes, proxyAddr)| && layers[..u + 1] == Applied(nodes, proxyAddr)[..u + 1]
  {
    hide Pushed, Hops, LastHop, UotHops;
    var layers, u := UdpLayers(nodes, proxyAddr), LastUot(TypesOf(UdpLayers(nodes, proxyAddr)));
    if u >= 0 && u + 1 == |layers| {
      assert layers[u].node.proto.IsUot();
    }
  }

  /** The last UDP-over-TCP layer goes on to the hop right behind it, or to `proxyAddr`. */
  lemma UotLayer(nodes: seq<Node>, proxyAddr: Address)
    ensures var layers, u := UdpLayers(nodes, proxyAddr), LastUot(TypesOf(UdpLayers(nodes, proxyAddr)));
            var hops, from := Hops(nodes), UotHops(nodes);
            && (u < 0 <==> from == 0)
            && (u >= 0 ==> u < |layers| && layers[u].target == Some(if from < |hops| then hops[from] else proxyAddr))
            && (from == |hops| > 0 ==> u >= 0 && LastHop(nodes) == Some(layers[u].node))
  {
    var layers := Pushed(nodes, Hops(nodes));
    LastHopIs(nodes);
    UotHopsAll(nodes);
    if LastHop(nodes) == None || !LastHop(nodes).value.proto.IsUot() {
      PushedUot(nodes, Hops(nodes));
    }
    hide Pushed, Hops, LastHop, UotHops, LastUot;
    var all := UdpLayers(nodes, proxyAddr);
    if LastHop(nodes).Some? {
      LastUotSnoc(layers, all[|layers|]);
      assert all == layers + [all[|layers|]];
    } else {
      assert layers + [] == layers;
    }
  }

  lemma BaseBuilt(nodes: seq<Node>, proxyAddr: Address)
    ensures var layers, u := UdpLayers(nodes, proxyAddr), LastUot(TypesOf(UdpLayers(nodes, proxyAddr)));
            var entry := Entry(nodes, proxyAddr);
            && -1 <= u < |layers|
            && Built(layers[..u + 1], u, if u > 0 then Tunnel(entry) else Socket(entry)) == Base(nodes, proxyAddr)
  {
    var layers, u := UdpLayers(nodes, proxyAddr), LastUot(TypesOf(UdpLayers(nodes, proxyAddr)));
    var entry := Entry(nodes, proxyAddr);
    SameUpToUot(nodes, proxyAddr);
    UotLayer(nodes, proxyAddr);
    hide Pushed, Hops, LastHop, UotHops, Through, UdpLayers, Applied;
    if u > 0 {
      ChainTunnels(nodes, proxyAddr);
      ThroughPrefix(Applied(nodes, proxyAddr), u + 1, entry);
      UotBuilt(layers, u, entry);
    } else if u == 0 {
      assert layers[..1] == [] + [layers[0]] && layers[0].node.proto == TypesOf(layers)[0];
      BuiltSnoc([], layers[0], 0, Socket(entry));
    }
  }

  /** What is under the packing layers delivers their packets exactly if it is not broken and each server is sent its own. */
  lemma BaseDeliversIff(base: Carrier, hops: seq<Address>, from: nat, ss: seq<Layer>, proxyAddr: Address, target: Address)
    requires from <= |hops| && Circle(ss, hops, from) && Targeted(ss) && forall s <- ss :: s.node.proto.SS?
    requires base == Broken || base == Associate
             || (var at := if from < |hops| then hops[from] else proxyAddr; base == Socket(at) || base == Pinned(at))
    ensures Delivered(base, FirstTo(ss, target), Packed(ss, target, Plain)) == Some(target) <==>
            base != Broken && OwnServers(ss) && (ss == [] ==> target == proxyAddr || base == Associate)
  {
    CircleIff(ss, hops, from);
    if ss != [] {
      assert ss[0].node.addr == hops[from] && ss[0].target == Some(hops[if from + 1 < |hops| then from + 1 else from]);
    }
    ArriveIff(if base.Socket? || base.Pinned? then base.peer else FirstTo(ss, target), ss, target, Plain);
    hide Packed, OwnServers, Circle;
  }

  lemma BaseIs(nodes: seq<Node>, proxyAddr: Address)
    ensures var base, hops, from := Base(nodes, proxyAddr), Hops(nodes), UotHops(nodes);
            && (base == Broken <==> LastUot(TypesOf(UdpLayers(nodes, proxyAddr))) == 0)
            && (base == Broken || base == Associate
                || (var at := if from < |hops| then hops[from] else proxyAddr; base == Socket(at) || base == Pinned(at)))
            && (from == |hops| && base != Broken ==>
                  (base == Associate <==> LastHop(nodes).Some? && LastHop(nodes).value.proto.Trojan?))
  {
    UotLayer(nodes, proxyAddr);
    LastHopIs(nodes);
    hide Hops, LastHop, UotHops, UdpLayers, LastUot;
  }

  lemma CarrierDelivers(nodes: seq<Node>, proxyAddr: Address, target: Address)
    ensures var ss := Tail(UdpLayers(nodes, proxyAddr));
            && Targeted(ss) && (forall s <- ss :: s.node.proto.SS?)
            && Reached(UdpCarrier(nodes, proxyAddr), target) ==
                 Delivered(Base(nodes, proxyAddr), FirstTo(ss, target), Packed(ss, target, Plain))
  {
    var layers, u := UdpLayers(nodes, proxyAddr), LastUot(TypesOf(UdpLayers(nodes, proxyAddr)));
    var entry := Entry(nodes, proxyAddr);
    hide UdpLayers, Base, Built, Send, Arrive, Packed, FirstTo, Tail;
    LayersTargeted(nodes, proxyAddr);
    SendPacks(layers, u, if u > 0 then Tunnel(entry) else Socket(entry), target, Plain);
    BaseBuilt(nodes, proxyAddr);
  }

  /** What `build_udp` returned, applied. */
  function CarrierOf(r: UdpResult): Carrier {
    if r.Layers? then Applying(r.layers, if r.overTcp then Tunnel(r.entry) else Socket(r.entry)) else Broken
  }

  function Applying(layers: seq<(Layer, bool)>, start: Carrier): Carrier {
    if layers == [] then start else
    var n := |layers| - 1;
    AddLayer(Applying(layers[..n], start), layers[n].0, layers[n].1)
  }

  lemma {:induction false} ApplyingBuilds(marked: seq<(Layer, bool)>, layers: seq<Layer>, u: int, start: Carrier)
    requires |marked| == |layers| && forall i :: 0 <= i < |layers| ==> marked[i] == (layers[i], i < u)
    ensures Applying(marked, start) == Built(layers, u, start)
  {
    if layers != [] {
      ApplyingBuilds(marked[..|layers| - 1], layers[..|layers| - 1], u, start);
    }
  }

  lemma UotRightOfIff(types: seq<Protocol>, i: int)
    ensures UotRightOf(types, i) <==> i < LastUot(types) && 0 <= LastUot(types)
  {
    if i < LastUot(types) && 0 <= LastUot(types) {
      assert types[LastUot(types)].IsUot();
    }
  }

  lemma UdpTypes(nodes: seq<Node>, proxyAddr: Address)
    ensures TypesOf(UdpLayers(nodes, proxyAddr)) == AllTypes(Pushed(nodes, Hops(nodes)), LastHop(nodes))
  {
    hide Hops, Pushed, LastHop, UotHops;
  }

  lemma PlanAt(nodes: seq<Node>, proxyAddr: Address, r: UdpResult, i: nat)
    requires r.Layers? && UdpPlan(nodes, proxyAddr, r) && i < |r.layers|
    ensures var layers := UdpLayers(nodes, proxyAddr);
            |r.layers| == |layers| && r.layers[i] == (layers[i], i < LastUot(TypesOf(layers)))
  {
    var layers := UdpLayers(nodes, proxyAddr);
    UdpTypes(nodes, proxyAddr);
    UotRightOfIff(TypesOf(layers), i);
    hide Hops, Pushed, LastHop, UotHops, UotRightOf, LastUot, TypesOf, AllTypes;
  }

  /** What `build_udp` builds for a chain is the carrier that `UdpCarrier` describes. */
  lemma PlanIsCarrier(nodes: seq<Node>, proxyAddr: Address, r: UdpResult)
    requires r.Layers? && UdpPlan(nodes, proxyAddr, r)
    ensures CarrierOf(r) == UdpCarrier(nodes, proxyAddr)
  {
    var layers := UdpLayers(nodes, proxyAddr);
    var u := LastUot(TypesOf(layers));
    forall i | 0 <= i < |r.layers| ensures |r.layers| == |layers| && r.layers[i] == (layers[i], i < u) {
      PlanAt(nodes, proxyAddr, r, i);
    }
    UdpTypes(nodes, proxyAddr);
    UotRightOfIff(TypesOf(layers), 0);
    hide Hops, Pushed, LastHop, UotHops, UotRightOf, LastUot, Applying, Built, TypesOf, AllTypes;
    ApplyingBuilds(r.layers, layers, u, if r.overTcp then Tunnel(r.entry) else Socket(r.entry));
  }

  /**
   A datagram sent through what `build_udp` builds reaches its target exactly if the last
   UDP-over-TCP layer is not the first layer of all, all hops behind it are the same server, and, when there are none of those, the
   target is the address the chain was built for or the last hop is Trojan.
   */
  lemma DatagramReachesIff(nodes: seq<Node>, proxyAddr: Address, r: UdpResult, target: Address)
    requires r.Layers? && UdpPlan(nodes, proxyAddr, r)
    ensures Reached(CarrierOf(r), target) == Some(target) <==>
            && LastUot(AllTypes(Pushed(nodes, Hops(nodes)), LastHop(nodes))) != 0
            && OneServer(nodes)
            && (UotHops(nodes) == |Hops(nodes)| ==>
                  target == proxyAddr || (LastHop(nodes).Some? && LastHop(nodes).value.proto.Trojan?))
  {
    var base, ss := Base(nodes, proxyAddr), Tail(UdpLayers(nodes, proxyAddr));
    PlanIsCarrier(nodes, proxyAddr, r);
    UdpTypes(nodes, proxyAddr);
    BaseIs(nodes, proxyAddr);
    TailCircle(nodes, proxyAddr);
    CircleIff(ss, Hops(nodes), UotHops(nodes));
    hide Base, Hops, Pushed, LastHop, UotHops, UdpLayers, Tail, LastUot, OwnServers, UdpCarrier, CarrierOf, UdpPlan, Reached;
    CarrierDelivers(nodes, proxyAddr, target);
    BaseDeliversIff(base, Hops(nodes), UotHops(nodes), ss, proxyAddr, target);
    assert ss == [] <==> UotHops(nodes) == |Hops(nodes)|;
  }

  lemma TwoHops(a: Address, b: Address)
    ensures var nodes := [Node(SS, a), Node(SS, b)]; Hops(nodes) == [a, b] && UotHops(nodes) == 0
  {
    var nodes := [Node(SS, a), Node(SS, b)];
    assert nodes[..1] == [Node(SS, a)];
    LastNode(nodes, []);
    LastNode(nodes[..1], []);
  }

  lemma OneHop(n: Node)
    requires n.proto.IsUot()
    ensures LastUot(AllTypes(Pushed([n], Hops([n])), LastHop([n]))) == 0
  {
    LastNode([n], [n.addr]);
    LastUotOfAll([], Some(n));
  }

  /** Behind two Shadowsocks servers nothing is reached, and nothing through a Trojan server that has no layer under it. */
  lemma LostDatagrams(a: Address, b: Address, proxyAddr: Address, two: UdpResult, one: UdpResult, target: Address)
    requires a != b && two.Layers? && UdpPlan([Node(SS, a), Node(SS, b)], proxyAddr, two)
    requires one.Layers? && UdpPlan([Node(Trojan, a)], proxyAddr, one)
    ensures Reached(CarrierOf(two), target) != Some(target) && Reached(CarrierOf(one), target) != Some(target)
  {
    hide Hops, Pushed, LastHop, UotHops, LastUot, AllTypes, UdpPlan, Reached, CarrierOf;
    var nodes := [Node(SS, a), Node(SS, b)];
    TwoHops(a, b);
    assert Hops(nodes)[1] != Hops(nodes)[0];
    DatagramReachesIff(nodes, proxyAddr, two, target);
    OneHop(Node(Trojan, a));
    DatagramReachesIff([Node(Trojan, a)], proxyAddr, one, target);
  }
}
