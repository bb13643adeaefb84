/** The graph the resolver works on: nodes and `source -> target` edges as
    lists, the collapse flags as a map from id to boolean, and the two edge
    queries and the toggle update of GraphResult.tsx. */
module GraphModel {
  import opened Optional

  /** A node of the input graph; `text` is `data.label`. Position and style
      are cosmetic and not modelled. */
  datatype Node = Node(id: string, text: string)

  /** A directed edge `source -> target`. */
  datatype Edge = Edge(id: string, source: string, target: string)

  /** The collapse flags, `Record<string, boolean>`. */
  type Flags = map<string, bool>

  /** `getChildren`: the targets of the edges leaving `id`, in edge order. */
  function Children(edges: seq<Edge>, id: string): (cs: seq<string>)
    ensures |cs| <= |edges|
    ensures forall c :: c in cs <==>
      exists i :: 0 <= i < |edges| && edges[i].source == id && edges[i].target == c
  {
    if edges == [] then []
    else
      var rest := Children(edges[1..], id);
      assert forall i :: 0 < i < |edges| ==> edges[i] == edges[1..][i - 1];
      assert forall i :: 0 <= i < |edges| - 1 ==> edges[1..][i] == edges[i + 1];
      if edges[0].source == id then [edges[0].target] + rest else rest
  }

  /** `p` is the source of the first edge that targets `id`. */
  predicate FirstParentAt(edges: seq<Edge>, id: string, p: string) {
    exists i :: 0 <= i < |edges| && edges[i].target == id && edges[i].source == p &&
      (forall j :: 0 <= j < i ==> edges[j].target != id)
  }

  /** `getParent`: the source of the FIRST edge that targets `id`, if any. */
  function Parent(edges: seq<Edge>, id: string): (p: Option<string>)
    ensures p.None? <==> forall i :: 0 <= i < |edges| ==> edges[i].target != id
    ensures p.Some? ==> FirstParentAt(edges, id, p.value)
  {
    if edges == [] then None
    else if edges[0].target == id then Some(edges[0].source)
    else
      var p := Parent(edges[1..], id);
      assert forall i :: 0 < i < |edges| ==> edges[i] == edges[1..][i - 1];
      assert p.Some? ==> FirstParentAt(edges, id, p.value) by {
        if p.Some? {
          var k :| 0 <= k < |edges[1..]| && edges[1..][k].target == id &&
            edges[1..][k].source == p.value &&
            (forall j :: 0 <= j < k ==> edges[1..][j].target != id);
          assert edges[k + 1].target == id && edges[k + 1].source == p.value;
        }
      }
      p
  }

  /** `!!collapsed[id]`: an absent key reads as `false`. */
  predicate Flag(collapsed: Flags, id: string) {
    id in collapsed && collapsed[id]
  }

  /** `handleToggle(id)`: `{ ...c, [id]: !c[id] }`. */
  function Toggle(collapsed: Flags, id: string): (r: Flags)
    ensures r.Keys == collapsed.Keys + {id}
    ensures Flag(r, id) == !Flag(collapsed, id)
    ensures forall k :: k in collapsed && k != id ==> r[k] == collapsed[k]
  {
    collapsed[id := !Flag(collapsed, id)]
  }
}
