/** Elision of wrapper nodes (GraphResult.tsx, lines 60-96): a node whose
    cleaned label repeats its parent's is dropped, and the edges are rewired
    from its parent straight to its children. */
module Elision {
  import opened Optional
  import opened Sequences
  import opened Labels
  import opened GraphModel

  // ---------------------------------------------------------------------------
  // nodesToFilter
  // ---------------------------------------------------------------------------

  /** `n` is the last node of `nodes` with id `id`. */
  predicate LastNodeAt(nodes: seq<Node>, id: string, n: Node) {
    exists i :: 0 <= i < |nodes| && nodes[i] == n && n.id == id &&
      (forall j :: i < j < |nodes| ==> nodes[j].id != id)
  }

  /** `nodeMap[id]` for `nodeMap = Object.fromEntries(nodes.map(n => [n.id, n]))`:
      a later node with the same id overwrites an earlier one. */
  function NodeById(nodes: seq<Node>, id: string): (r: Option<Node>)
    ensures r.None? <==> forall i :: 0 <= i < |nodes| ==> nodes[i].id != id
    ensures r.Some? ==> LastNodeAt(nodes, id, r.value)
  {
    if nodes == [] then None
    else if nodes[|nodes| - 1].id == id then
      assert LastNodeAt(nodes, id, nodes[|nodes| - 1]) by {
        var i := |nodes| - 1;
        assert nodes[i] == nodes[|nodes| - 1] && nodes[i].id == id;
      }
      Some(nodes[|nodes| - 1])
    else
      var r := NodeById(nodes[..|nodes| - 1], id);
      if r.Some? then
        LastNodeAtExtend(nodes, id, r.value);
        r
      else
        assert forall i :: 0 <= i < |nodes| - 1 ==> nodes[..|nodes| - 1][i] == nodes[i];
        r
  }

  /** The last node with `id` before a final node with another id is still
      the last one. */
  lemma LastNodeAtExtend(nodes: seq<Node>, id: string, n: Node)
    requires nodes != [] && nodes[|nodes| - 1].id != id
    requires LastNodeAt(nodes[..|nodes| - 1], id, n)
    ensures LastNodeAt(nodes, id, n)
  {
    var init := nodes[..|nodes| - 1];
    var k :| 0 <= k < |init| && init[k] == n && n.id == id &&
      (forall j :: k < j < |init| ==> init[j].id != id);
    assert nodes[k] == n;
    assert forall j :: k < j < |nodes| ==> nodes[j].id != id by {
      forall j | k < j < |nodes|
        ensures nodes[j].id != id
      {
        if j < |init| { assert init[j] == nodes[j]; }
      }
    }
  }

  /** `getParent` read through `if (!parentId)`: the empty id counts as no
      parent. */
  function TruthyParent(edges: seq<Edge>, id: string): (p: Option<string>)
    ensures p.Some? <==> Parent(edges, id).Some? && Parent(edges, id).value != []
    ensures p.Some? ==> p.value == Parent(edges, id).value
  {
    match Parent(edges, id)
    case None => None
    case Some(p) => if p == [] then None else Some(p)
  }

  /** `children.some(childId => /\[\d+\]$/.test(childId))` */
  predicate AnyIndexed(cs: seq<string>) {
    exists i :: 0 <= i < |cs| && EndsWithIndex(cs[i])
  }

  /** The filter callback of lines 63-79, in the order the code tests. */
  predicate IsWrapper(nodes: seq<Node>, edges: seq<Edge>, n: Node) {
    match TruthyParent(edges, n.id)
    case None => false
    case Some(p) =>
      match NodeById(nodes, p)
      case None => false
      case Some(parent) =>
        if EndsWithIndex(n.id) then false
        else if EndsWith(n.id, "-value") then false
        else if AnyIndexed(Children(edges, n.id)) then false
        else CleanLabel(n.text) == CleanLabel(parent.text)
  }

  /** `ns.filter(keep).map(n => n.id)` */
  function IdsWhere(ns: seq<Node>, keep: Node -> bool): (r: seq<string>)
    ensures forall f :: f in r <==> exists i :: 0 <= i < |ns| && ns[i].id == f && keep(ns[i])
  {
    if ns == [] then []
    else
      var rest := IdsWhere(ns[1..], keep);
      assert forall i :: 0 < i < |ns| ==> ns[i] == ns[1..][i - 1];
      (if keep(ns[0]) then [ns[0].id] else []) + rest
  }

  /** `nodesToFilter`, in the order its `forEach` visits it: the ids of the
      wrappers, each once, in node order. */
  function FilteredIds(nodes: seq<Node>, edges: seq<Edge>): seq<string> {
    Distinct(IdsWhere(nodes, n => IsWrapper(nodes, edges, n)))
  }

  // ---------------------------------------------------------------------------
  // The rewiring fold
  // ---------------------------------------------------------------------------

  /** The edges of `es` that touch none of `ids`, in order: the filter of
      line 88, for a set of ids. */
  function Avoid(es: seq<Edge>, ids: set<string>): (r: seq<Edge>)
    ensures forall e :: e in r <==> e in es && e.source !in ids && e.target !in ids
    ensures SubseqOf(r, es)
  {
    if es == [] then []
    else
      var rest := Avoid(es[1..], ids);
      assert es == [es[0]] + es[1..];
      if es[0].source !in ids && es[0].target !in ids then
        SubseqCons(es[0], rest, es[1..]);
        [es[0]] + rest
      else
        SubseqConsRight(rest, es[0], es[1..]);
        rest
  }

  /** The edge pushed at lines 90-94. */
  function Bridge(p: string, c: string): Edge {
    Edge("e-" + p + "-" + c, p, c)
  }

  /** One `Bridge(p, c)` per child `c`, in child order. */
  function Bridges(p: string, cs: seq<string>): (r: seq<Edge>)
    ensures |r| == |cs| && forall i :: 0 <= i < |cs| ==> r[i] == Bridge(p, cs[i])
  {
    if cs == [] then [] else Bridges(p, cs[..|cs| - 1]) + [Bridge(p, cs[|cs| - 1])]
  }

  /** One pass of the `forEach` body: the parent and the children come from
      the ORIGINAL edges `orig`, the removal acts on the current list `cur`. */
  function RewireStep(orig: seq<Edge>, cur: seq<Edge>, f: string): seq<Edge> {
    match TruthyParent(orig, f)
    case None => cur
    case Some(p) => Avoid(cur, {f}) + Bridges(p, Children(orig, f))
  }

  /** The whole `forEach`, folding `RewireStep` over `fs` from the left. */
  function RewireFold(orig: seq<Edge>, cur: seq<Edge>, fs: seq<string>): seq<Edge>
    decreases |fs|
  {
    if fs == [] then cur else RewireFold(orig, RewireStep(orig, cur, fs[0]), fs[1..])
  }

  /** `children.forEach(childId => rewiredEdges.push(...))` */
  method PushBridges(rewired: seq<Edge>, p: string, children: seq<string>) returns (r: seq<Edge>)
    ensures r == rewired + Bridges(p, children)
  {
    r := rewired;
    for j := 0 to |children|
      invariant r == rewired + Bridges(p, children[..j])
    {
      r := r + [Bridge(p, children[j])];
      assert children[..j + 1][..j] == children[..j];
    }
    assert children[..|children|] == children;
  }

  /** `rewiredEdges` after the `forEach` over `filtered`. */
  method Rewire(orig: seq<Edge>, filtered: seq<string>) returns (rewired: seq<Edge>)
    ensures rewired == RewireFold(orig, orig, filtered)
  {
    rewired := orig;
    for i := 0 to |filtered|
      invariant RewireFold(orig, rewired, filtered[i..]) == RewireFold(orig, orig, filtered)
    {
      var f := filtered[i];
      assert filtered[i..][0] == f && filtered[i..][1..] == filtered[i + 1..];
      ghost var before := rewired;
      var parent := Parent(orig, f);
      if parent.Some? && parent.value != [] {
        var children := Children(orig, f);
        rewired := Avoid(rewired, {f});
        rewired := PushBridges(rewired, parent.value, children);
      }
      assert rewired == RewireStep(orig, before, f);
    }
  }
}
