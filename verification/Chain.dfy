/** Proxy chains: from a list of configured nodes to the layers that build a tunnel through them. */
module Chain {
  import opened Bytes
  import opened Address

  datatype Protocol = SS | Tls | Vmess | Grpc | WS | Trojan | Direct | H2 | Blackhole | SimpleObfs {
    predicate IsUot() { this == Vmess || this == Trojan }
    /** The protocols that have a server of their own and tell it where to go on to. */
    predicate Addressed() { this == SS || this == Vmess || this == Trojan }
  }

  /** A configured node; only an addressed protocol's `addr` means anything. */
  datatype Node = Node(proto: Protocol, addr: Address) {
    function GetAddr(): Option<Address> { if proto.Addressed() then Some(addr) else None }
  }

  /** A built layer, with the node it was built from and the address it asks that node's server to go on to. */
  datatype Layer = Layer(node: Node, target: Option<Address>)

  /** `to_chainable_stream_builder`, which unwraps the address it is given if the protocol needs one. */
  function ToLayer(n: Node, addr: Option<Address>): Layer
    requires n.proto.Addressed() ==> addr.Some?
  {
    Layer(n, if n.proto.Addressed() then addr else None)
  }

  /** The addresses of the hops of a chain, in order. */
  function Hops(nodes: seq<Node>): seq<Address> {
    if nodes == [] then [] else
    var n := nodes[|nodes| - 1];
    Hops(nodes[..|nodes| - 1]) + (if n.proto.Addressed() then [n.addr] else [])
  }

  /** What node `n` adds when `k` hops came before it: each hop but the last goes on to the next. */
  function PushedBy(n: Node, k: nat, hops: seq<Address>): seq<Layer> {
    if !n.proto.Addressed() then [Layer(n, None)]
    else if k + 1 < |hops| then [Layer(n, Some(hops[k + 1]))]
    else []
  }

  /** The layers pushed for the first nodes of a chain whose hops are `hops`. */
  function Pushed(nodes: seq<Node>, hops: seq<Address>): seq<Layer> {
    if nodes == [] then [] else
    var before := nodes[..|nodes| - 1];
    Pushed(before, hops) + PushedBy(nodes[|nodes| - 1], |Hops(before)|, hops)
  }

  /** The last hop of a chain. */
  function LastHop(nodes: seq<Node>): Option<Node> {
    if nodes == [] then None
    else if nodes[|nodes| - 1].proto.Addressed() then Some(nodes[|nodes| - 1])
    else LastHop(nodes[..|nodes| - 1])
  }

  /** All layers applied to a connection meant for `proxyAddr`, in order: the last hop comes last. */
  function Applied(nodes: seq<Node>, proxyAddr: Address): seq<Layer> {
    Pushed(nodes, Hops(nodes)) +
    (match LastHop(nodes) case Some(n) => [Layer(n, Some(proxyAddr))] case None => [])
  }

  /** Where the stream of a connection starts. */
  function Entry(nodes: seq<Node>, proxyAddr: Address): Address {
    if Hops(nodes) == [] then proxyAddr else Hops(nodes)[0]
  }

  /** One layer applied to a stream that leads to `at`, or to no place it could be used from. */
  function Apply(l: Layer, at: Option<Address>): Option<Address> {
    match at
    case None => None
    case Some(here) =>
      if !l.node.proto.Addressed() then Some(here) else if l.node.addr == here then l.target else None
  }

  /**
   Where a connection to `at` leads once `layers` are applied. A hop must be reached at its own address, and goes on to its
   target; a transport stays where it is. `None` is a hop spoken to at an address that is not its own.
   */
  function Through(layers: seq<Layer>, at: Address): Option<Address> {
    if layers == [] then Some(at) else
    var n := |layers| - 1;
    Apply(layers[n], Through(layers[..n], at))
  }

  lemma ThroughSnoc(layers: seq<Layer>, l: Layer, at: Address)
    ensures Through(layers + [l], at) == Apply(l, Through(layers, at))
  {
    assert (layers + [l])[..|layers|] == layers;
  }

  /** After the layers pushed for the first nodes, the stream is at the next hop, or at the last hop if there is none. */
  lemma {:induction false} PushedThrough(nodes: seq<Node>, hops: seq<Address>)
    requires hops != [] && Hops(nodes) <= hops
    ensures var k := |Hops(nodes)|;
            Through(Pushed(nodes, hops), hops[0]) == Some(hops[if k < |hops| then k else k - 1])
  {
    if nodes != [] {
      var before, n := nodes[..|nodes| - 1], nodes[|nodes| - 1];
      PushedThrough(before, hops);
      var k, layers := |Hops(before)|, Pushed(before, hops);
      PushedByThrough(layers, n, k, hops);
      assert n.proto.Addressed() ==> n.addr == Hops(nodes)[k] == hops[k];
    }
  }

  lemma PushedByThrough(layers: seq<Layer>, n: Node, k: nat, hops: seq<Address>)
    requires hops != [] && k <= |hops| && Through(layers, hops[0]) == Some(hops[if k < |hops| then k else k - 1])
    ensures !n.proto.Addressed() ==> Through(layers + PushedBy(n, k, hops), hops[0]) == Through(layers, hops[0])
    ensures n.proto.Addressed() && k < |hops| && n.addr == hops[k] ==>
              Through(layers + PushedBy(n, k, hops), hops[0]) == Some(hops[if k + 1 < |hops| then k + 1 else k])
  {
    hide Through;
    if PushedBy(n, k, hops) == [] {
      assert layers + [] == layers;
    } else {
      ThroughSnoc(layers, PushedBy(n, k, hops)[0], hops[0]);
    }
  }

  lemma {:induction false} LastHopIs(nodes: seq<Node>)
    ensures Hops(nodes) == [] <==> LastHop(nodes) == None
    ensures Hops(nodes) != [] ==>
              LastHop(nodes).Some? && LastHop(nodes).value.proto.Addressed()
              && LastHop(nodes).value.addr == Hops(nodes)[|Hops(nodes)| - 1]
  {
    if nodes != [] && !nodes[|nodes| - 1].proto.Addressed() {
      LastHopIs(nodes[..|nodes| - 1]);
    }
  }

  lemma {:induction false} NoHopsThrough(nodes: seq<Node>, at: Address)
    requires Hops(nodes) == []
    ensures Through(Pushed(nodes, []), at) == Some(at)
  {
    if nodes != [] {
      var before, n := nodes[..|nodes| - 1], nodes[|nodes| - 1];
      NoHopsThrough(before, at);
      ThroughSnoc(Pushed(before, []), Layer(n, None), at);
    }
  }

  /** Every chain is a tunnel to the address asked for: it enters at the first hop, and each hop is spoken to at its own address. */
  lemma ChainTunnels(nodes: seq<Node>, proxyAddr: Address)
    ensures Through(Applied(nodes, proxyAddr), Entry(nodes, proxyAddr)) == Some(proxyAddr)
  {
    hide Hops, Pushed, LastHop, Through;
    LastHopIs(nodes);
    var layers := Pushed(nodes, Hops(nodes));
    if Hops(nodes) == [] {
      NoHopsThrough(nodes, proxyAddr);
      assert layers + [] == layers;
    } else {
      PushedThrough(nodes, Hops(nodes));
      ThroughSnoc(layers, Layer(LastHop(nodes).value, Some(proxyAddr)), Hops(nodes)[0]);
    }
  }

  /** The nodes behind a list of layers. */
  function NodesOf(layers: seq<Layer>): (r: seq<Node>)
    ensures |r| == |layers|
  {
    seq(|layers|, i requires 0 <= i < |layers| => layers[i].node)
  }

  /** The position of the last hop, or -1. */
  function LastHopAt(nodes: seq<Node>): (i: int)
    ensures -1 <= i < |nodes|
    ensures i >= 0 ==> nodes[i].proto.Addressed()
    ensures forall j :: i < j < |nodes| ==> !nodes[j].proto.Addressed()
  {
    if nodes == [] then -1
    else if nodes[|nodes| - 1].proto.Addressed() then |nodes| - 1
    else LastHopAt(nodes[..|nodes| - 1])
  }

  function Without(nodes: seq<Node>, i: nat): seq<Node>
    requires i < |nodes|
  {
    nodes[..i] + nodes[i + 1..]
  }

  lemma WithoutSnoc(nodes: seq<Node>, n: Node, i: int)
    ensures 0 <= i < |nodes| ==> Without(nodes + [n], i) == Without(nodes, i) + [n]
    ensures Without(nodes + [n], |nodes|) == nodes
  {
  }

  /** Layers are applied in chain order, except that the last hop is moved to the end. */
  lemma AppliedOrder(nodes: seq<Node>, proxyAddr: Address)
    ensures var i := LastHopAt(nodes);
            NodesOf(Applied(nodes, proxyAddr)) ==
              if i < 0 then nodes else Without(nodes, i) + [nodes[i]]
  {
    hide Pushed, Hops, LastHop;
    var i, layers := LastHopAt(nodes), Pushed(nodes, Hops(nodes));
    LastHopAtIs(nodes);
    if i >= 0 {
      PushedButLast(nodes, Hops(nodes));
      NodesOfAppend(layers, [Layer(nodes[i], Some(proxyAddr))]);
    } else {
      PushedAll(nodes, Hops(nodes));
      assert layers + [] == layers;
    }
  }

  /** The layers are applied in exactly the order of the chain when no transport follows the last hop, and only then. */
  lemma AppliedInOrderIff(nodes: seq<Node>, proxyAddr: Address)
    ensures NodesOf(Applied(nodes, proxyAddr)) == nodes <==> LastHopAt(nodes) < 0 || LastHopAt(nodes) == |nodes| - 1
  {
    hide Applied, NodesOf, LastHopAt, Without;
    AppliedOrder(nodes, proxyAddr);
    if LastHopAt(nodes) >= 0 {
      RotatedIff(nodes, LastHopAt(nodes));
    }
  }

  lemma RotatedIff(nodes: seq<Node>, i: nat)
    requires i < |nodes| && nodes[i].proto.Addressed()
    requires forall j :: i < j < |nodes| ==> !nodes[j].proto.Addressed()
    ensures Without(nodes, i) + [nodes[i]] == nodes <==> i == |nodes| - 1
  {
    var moved := Without(nodes, i) + [nodes[i]];
    if i < |nodes| - 1 {
      assert moved[i] == nodes[i + 1];
    } else {
      assert moved == nodes;
    }
  }

  lemma NodesOfAppend(a: seq<Layer>, b: seq<Layer>)
    ensures NodesOf(a + b) == NodesOf(a) + NodesOf(b)
  {
  }

  lemma NodesOfPushedBy(n: Node, k: nat, hops: seq<Address>)
    ensures NodesOf(PushedBy(n, k, hops)) == if n.proto.Addressed() && k + 1 >= |hops| then [] else [n]
  {
  }

  lemma {:induction false} LastHopAtIs(nodes: seq<Node>)
    ensures LastHop(nodes) == if LastHopAt(nodes) < 0 then None else Some(nodes[LastHopAt(nodes)])
    ensures LastHopAt(nodes) < 0 <==> Hops(nodes) == []
  {
    if nodes != [] && !nodes[|nodes| - 1].proto.Addressed() {
      LastHopAtIs(nodes[..|nodes| - 1]);
    }
  }

  /** As long as there are hops to come, or none at all, every node is pushed. */
  lemma {:induction false} PushedAll(nodes: seq<Node>, hops: seq<Address>)
    requires |Hops(nodes)| < |hops| || Hops(nodes) == []
    ensures NodesOf(Pushed(nodes, hops)) == nodes
  {
    if nodes != [] {
      var before, n := nodes[..|nodes| - 1], nodes[|nodes| - 1];
      PushedAll(before, hops);
      NodesOfPushedBy(n, |Hops(before)|, hops);
      NodesOfAppend(Pushed(before, hops), PushedBy(n, |Hops(before)|, hops));
    }
  }

  /** Of a whole chain, every node is pushed but the last hop. */
  lemma {:induction false} PushedButLast(nodes: seq<Node>, hops: seq<Address>)
    requires |Hops(nodes)| == |hops| > 0
    ensures LastHopAt(nodes) >= 0 && NodesOf(Pushed(nodes, hops)) == Without(nodes, LastHopAt(nodes))
  {
    hide NodesOf, Without;
    var before, n := nodes[..|nodes| - 1], nodes[|nodes| - 1];
    var k, layers := |Hops(before)|, Pushed(before, hops);
    NodesOfPushedBy(n, k, hops);
    assert nodes == before + [n] && layers + [] == layers;
    WithoutSnoc(before, n, LastHopAt(nodes));
    if n.proto.Addressed() {
      PushedAll(before, hops);
    } else {
      PushedButLast(before, hops);
      NodesOfAppend(layers, PushedBy(n, k, hops));
    }
  }
}
