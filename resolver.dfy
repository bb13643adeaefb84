/** The resolver of GraphResult.tsx (the `useMemo` of lines 47-126): from the
    input graph and the collapse flags, the nodes and edges handed to the
    renderer. */
module Resolver {
  import opened Sequences
  import opened GraphModel
  import opened Collapse
  import opened Elision

  /** A node handed to the renderer: its id and label, its collapse flag, and
      the whole rewired edge list, which every visible node carries. Position
      and style are cosmetic and not modelled. */
  datatype VisibleNode = VisibleNode(id: string, text: string, collapsed: bool, edges: seq<Edge>)

  /** `nodes.filter(n => !drop.has(n.id))` */
  function KeptNodes(nodes: seq<Node>, drop: set<string>): (r: seq<Node>)
    ensures forall n :: n in r <==> n in nodes && n.id !in drop
    ensures SubseqOf(r, nodes)
  {
    if nodes == [] then []
    else
      var rest := KeptNodes(nodes[1..], drop);
      assert nodes == [nodes[0]] + nodes[1..];
      if nodes[0].id !in drop then
        SubseqCons(nodes[0], rest, nodes[1..]);
        [nodes[0]] + rest
      else
        SubseqConsRight(rest, nodes[0], nodes[1..]);
        rest
  }

  /** The `map` of lines 100-115. */
  function Present(ns: seq<Node>, collapsed: Flags, rewired: seq<Edge>): (r: seq<VisibleNode>)
    ensures |r| == |ns|
    ensures forall i :: 0 <= i < |ns| ==>
      r[i] == VisibleNode(ns[i].id, ns[i].text, Flag(collapsed, ns[i].id), rewired)
  {
    seq(|ns|, i requires 0 <= i < |ns| => VisibleNode(ns[i].id, ns[i].text, Flag(collapsed, ns[i].id), rewired))
  }

  /** `nodesToFilter` as a set. */
  function FilteredSet(nodes: seq<Node>, edges: seq<Edge>): set<string> {
    set f | f in FilteredIds(nodes, edges)
  }

  /** `rewiredEdges` */
  function Rewired(nodes: seq<Node>, edges: seq<Edge>): seq<Edge> {
    RewireFold(edges, edges, FilteredIds(nodes, edges))
  }

  /** `visibleNodes`: the nodes neither filtered nor hidden, in input order. */
  ghost function VisibleNodes(nodes: seq<Node>, edges: seq<Edge>, collapsed: Flags): seq<VisibleNode> {
    var drop := FilteredSet(nodes, edges) + Hidden(edges, collapsed);
    Present(KeptNodes(nodes, drop), collapsed, Rewired(nodes, edges))
  }

  /** `visibleEdges`: the rewired edges with neither end hidden, in order. */
  ghost function VisibleEdges(nodes: seq<Node>, edges: seq<Edge>, collapsed: Flags): seq<Edge> {
    Avoid(Rewired(nodes, edges), Hidden(edges, collapsed))
  }

  /** The whole `useMemo` body. The hidden set is collected first, on the
      original edges; the wrappers are found and rewired; then the nodes and
      the edges are filtered. */
  method Resolve(nodes: seq<Node>, edges: seq<Edge>, collapsed: Flags)
    returns (visibleNodes: seq<VisibleNode>, visibleEdges: seq<Edge>)
    requires forall c :: Flag(collapsed, c) ==> AcyclicFrom(edges, c)
    ensures visibleNodes == VisibleNodes(nodes, edges, collapsed)
    ensures visibleEdges == VisibleEdges(nodes, edges, collapsed)
  {
    var hidden := HideCollapsed(edges, collapsed);
    var filtered := FilteredIds(nodes, edges);
    var rewired := Rewire(edges, filtered);
    var drop := (set f | f in filtered) + hidden;
    visibleNodes := Present(KeptNodes(nodes, drop), collapsed, rewired);
    visibleEdges := Avoid(rewired, hidden);
  }
}
