/** What the resolver hands to the renderer, stated against the input graph. */
module ResolverProperties {
  import opened Optional
  import opened Sequences
  import opened Labels
  import opened GraphModel
  import opened Collapse
  import opened CollapseProperties
  import opened Elision
  import opened ElisionProperties
  import opened Resolver

  /** An input node is shown, with its own flag and the rewired list, exactly
      when its id is neither filtered nor hidden. */
  lemma {:induction false} VisibleNodeIff(nodes: seq<Node>, edges: seq<Edge>, collapsed: Flags, n: Node)
    ensures var v := VisibleNode(n.id, n.text, Flag(collapsed, n.id), Rewired(nodes, edges));
      v in VisibleNodes(nodes, edges, collapsed) <==>
      n in nodes && n.id !in FilteredIds(nodes, edges) && n.id !in Hidden(edges, collapsed)
  {
    var drop := FilteredSet(nodes, edges) + Hidden(edges, collapsed);
    var kept := KeptNodes(nodes, drop);
    var vs := VisibleNodes(nodes, edges, collapsed);
    var v := VisibleNode(n.id, n.text, Flag(collapsed, n.id), Rewired(nodes, edges));
    if v in vs {
      var i :| 0 <= i < |vs| && vs[i] == v;
      assert kept[i] == n;
    }
    if n in kept {
      var i :| 0 <= i < |kept| && kept[i] == n;
      assert vs[i] == v;
    }
  }

  /** The filter keeps every copy of a node whose id is not dropped, and no
      copy of one whose id is. */
  lemma {:induction false} KeptNodesCount(nodes: seq<Node>, drop: set<string>, n: Node)
    ensures multiset(KeptNodes(nodes, drop))[n] == if n.id in drop then 0 else multiset(nodes)[n]
  {
    if nodes != [] {
      KeptNodesCount(nodes[1..], drop, n);
      assert nodes == [nodes[0]] + nodes[1..];
    }
  }

  /** A node that is neither filtered nor hidden is shown as many times as it
      occurs in the input; one that is, never. */
  lemma {:induction false} VisibleNodeCount(nodes: seq<Node>, edges: seq<Edge>, collapsed: Flags, n: Node)
    ensures var v := VisibleNode(n.id, n.text, Flag(collapsed, n.id), Rewired(nodes, edges));
      multiset(VisibleNodes(nodes, edges, collapsed))[v] ==
        if n.id in FilteredIds(nodes, edges) || n.id in Hidden(edges, collapsed) then 0
        else multiset(nodes)[n]
  {
    var drop := FilteredSet(nodes, edges) + Hidden(edges, collapsed);
    var rewired := Rewired(nodes, edges);
    var kept := KeptNodes(nodes, drop);
    var v := VisibleNode(n.id, n.text, Flag(collapsed, n.id), rewired);
    KeptNodesCount(nodes, drop, n);
    PresentCount(kept, collapsed, rewired, n);
  }

  /** The `map` turns each copy of a node into one copy of its visible form. */
  lemma {:induction false} PresentCount(ns: seq<Node>, collapsed: Flags, rewired: seq<Edge>, n: Node)
    ensures multiset(Present(ns, collapsed, rewired))[VisibleNode(n.id, n.text, Flag(collapsed, n.id), rewired)]
      == multiset(ns)[n]
  {
    if ns != [] {
      var v := VisibleNode(n.id, n.text, Flag(collapsed, n.id), rewired);
      var head := VisibleNode(ns[0].id, ns[0].text, Flag(collapsed, ns[0].id), rewired);
      PresentCount(ns[1..], collapsed, rewired, n);
      assert ns == [ns[0]] + ns[1..];
      PresentCons(ns, collapsed, rewired);
      assert (head == v) == (ns[0] == n);
    }
  }

  lemma {:induction false} PresentCons(ns: seq<Node>, collapsed: Flags, rewired: seq<Edge>)
    requires ns != []
    ensures Present(ns, collapsed, rewired) ==
      [VisibleNode(ns[0].id, ns[0].text, Flag(collapsed, ns[0].id), rewired)] + Present(ns[1..], collapsed, rewired)
  {
  }

  /** Every shown node comes from the input, is neither filtered nor hidden,
      carries its own collapse flag (absent reads as `false`) and the whole
      rewired edge list. */
  lemma {:induction false} VisibleNodeFields(nodes: seq<Node>, edges: seq<Edge>, collapsed: Flags, v: VisibleNode)
    requires v in VisibleNodes(nodes, edges, collapsed)
    ensures Node(v.id, v.text) in nodes
    ensures v.id !in FilteredIds(nodes, edges) && v.id !in Hidden(edges, collapsed)
    ensures v.collapsed == Flag(collapsed, v.id) && v.edges == Rewired(nodes, edges)
  {
    var drop := FilteredSet(nodes, edges) + Hidden(edges, collapsed);
    var kept := KeptNodes(nodes, drop);
    var vs := VisibleNodes(nodes, edges, collapsed);
    var i :| 0 <= i < |vs| && vs[i] == v;
    assert kept[i] in kept;
  }

  /** The shown nodes keep the input order. */
  lemma {:induction false} VisibleNodesInOrder(nodes: seq<Node>, edges: seq<Edge>, collapsed: Flags)
    ensures var vs := VisibleNodes(nodes, edges, collapsed);
      exists kept: seq<Node> :: SubseqOf(kept, nodes) && |kept| == |vs| &&
        forall i :: 0 <= i < |vs| ==> vs[i].id == kept[i].id && vs[i].text == kept[i].text
  {
    var drop := FilteredSet(nodes, edges) + Hidden(edges, collapsed);
    var kept := KeptNodes(nodes, drop);
    var vs := VisibleNodes(nodes, edges, collapsed);
    assert vs == Present(kept, collapsed, Rewired(nodes, edges));
    assert SubseqOf(kept, nodes) && |kept| == |vs| &&
      forall i :: 0 <= i < |vs| ==> vs[i].id == kept[i].id && vs[i].text == kept[i].text;
  }

  /** The shown edges are the input edges touching no acting wrapper and no
      hidden node, in input order, followed only by bridges from a wrapper's
      first parent to one of its children, with neither end hidden. */
  lemma {:induction false} VisibleEdgesShape(nodes: seq<Node>, edges: seq<Edge>, collapsed: Flags)
    returns (tail: seq<Edge>)
    ensures var fs := FilteredIds(nodes, edges);
      VisibleEdges(nodes, edges, collapsed) == Avoid(edges, Active(edges, fs) + Hidden(edges, collapsed)) + tail
    ensures forall e :: e in tail ==>
      IsBridgeFor(edges, FilteredIds(nodes, edges), e) &&
      e.source !in Hidden(edges, collapsed) && e.target !in Hidden(edges, collapsed)
  {
    var fs := FilteredIds(nodes, edges);
    var hidden := Hidden(edges, collapsed);
    var active := Active(edges, fs);
    var bridges := RewireShape(edges, edges, fs);
    AvoidConcat(Avoid(edges, active), bridges, hidden);
    AvoidAvoid(edges, active, hidden);
    tail := Avoid(bridges, hidden);
  }

  /** Every input edge that touches neither a filtered nor a hidden node is
      shown, and these edges keep their input order. */
  lemma {:induction false} UntouchedEdgesVisible(nodes: seq<Node>, edges: seq<Edge>, collapsed: Flags)
    ensures SubseqOf(Avoid(edges, FilteredSet(nodes, edges) + Hidden(edges, collapsed)),
      VisibleEdges(nodes, edges, collapsed))
  {
    var fs := FilteredIds(nodes, edges);
    var hidden := Hidden(edges, collapsed);
    var untouched := Avoid(edges, FilteredSet(nodes, edges));
    RewireKeepsUntouched(edges, edges, fs);
    SubseqAvoid(untouched, Rewired(nodes, edges), hidden);
    AvoidAvoid(edges, FilteredSet(nodes, edges), hidden);
  }

  /** Filtering both sides of a subsequence keeps it a subsequence. */
  lemma {:induction false} SubseqAvoid(a: seq<Edge>, b: seq<Edge>, ids: set<string>)
    requires SubseqOf(a, b)
    ensures SubseqOf(Avoid(a, ids), Avoid(b, ids))
    decreases |b|
  {
    if a != [] {
      assert b != [];
      if a[0] == b[0] && SubseqOf(a[1..], b[1..]) {
        SubseqAvoid(a[1..], b[1..], ids);
        if b[0].source !in ids && b[0].target !in ids {
          assert Avoid(a, ids) == [a[0]] + Avoid(a[1..], ids);
          assert Avoid(b, ids) == [b[0]] + Avoid(b[1..], ids);
          SubseqCons(a[0], Avoid(a[1..], ids), Avoid(b[1..], ids));
        } else {
          SubseqConsRight(Avoid(a[1..], ids), b[0], Avoid(b[1..], ids));
        }
      } else {
        SubseqAvoid(a, b[1..], ids);
        if b[0].source !in ids && b[0].target !in ids {
          SubseqConsRight(Avoid(a, ids), b[0], Avoid(b[1..], ids));
        }
      }
    } else {
      EmptySubseq(Avoid(b, ids));
    }
  }

  /** A shown node keeps, in the edge list it carries, every input out-edge
      to a node that is not filtered, even while it is collapsed: collapsing
      hides the children but never the node's own edges in that list. */
  lemma {:induction false} ShownNodeKeepsOutEdges(nodes: seq<Node>, edges: seq<Edge>, collapsed: Flags,
                                                  v: VisibleNode, e: Edge)
    requires v in VisibleNodes(nodes, edges, collapsed)
    requires e in edges && e.source == v.id && e.target !in FilteredIds(nodes, edges)
    ensures e in v.edges
  {
    VisibleNodeFields(nodes, edges, collapsed, v);
    var fs := FilteredIds(nodes, edges);
    var tail := RewireShape(edges, edges, fs);
    assert e in Avoid(edges, Active(edges, fs));
  }

  // ---------------------------------------------------------------------------
  // A chain of two wrappers: the shown graph loses the path from a to d
  // ---------------------------------------------------------------------------

  /** The chain `a -> b -> c -> d`, one node per id in that order. */
  ghost predicate ChainShape(nodes: seq<Node>, edges: seq<Edge>, a: string, b: string, c: string, d: string)
  {
    && |nodes| == 4 && |edges| == 3 && a != [] && b != [] && c != []
    && a != b && a != c && a != d && b != c && b != d && c != d
    && nodes[0].id == a && nodes[1].id == b && nodes[2].id == c && nodes[3].id == d
    && edges[0].source == a && edges[0].target == b
    && edges[1].source == b && edges[1].target == c
    && edges[2].source == c && edges[2].target == d
  }

  /** No id of the chain below `a` marks an array element or a `-value`
      entry. */
  ghost predicate ChainPlainIds(b: string, c: string, d: string)
  {
    && !EndsWithIndex(b) && !EndsWithIndex(c) && !EndsWithIndex(d)
    && !EndsWith(b, "-value") && !EndsWith(c, "-value") && !EndsWith(d, "-value")
  }

  /** `b` and `c` repeat their parent's cleaned label, `d` does not. */
  ghost predicate ChainLabels(nodes: seq<Node>)
    requires |nodes| == 4
  {
    && CleanLabel(nodes[1].text) == CleanLabel(nodes[0].text)
    && CleanLabel(nodes[2].text) == CleanLabel(nodes[1].text)
    && CleanLabel(nodes[3].text) != CleanLabel(nodes[2].text)
  }

  ghost predicate ChainGraph(nodes: seq<Node>, edges: seq<Edge>, a: string, b: string, c: string, d: string)
  {
    ChainShape(nodes, edges, a, b, c, d) && ChainPlainIds(b, c, d) && ChainLabels(nodes)
  }

  lemma {:induction false} ChainEdges(nodes: seq<Node>, edges: seq<Edge>, a: string, b: string, c: string, d: string)
    requires ChainShape(nodes, edges, a, b, c, d)
    ensures Parent(edges, a) == None && Parent(edges, b) == Some(a)
    ensures Parent(edges, c) == Some(b) && Parent(edges, d) == Some(c)
    ensures Children(edges, b) == [c] && Children(edges, c) == [d] && Children(edges, d) == []
  {
    var e2 := edges[1..][1..];
    assert e2[1..] == [];
    assert Children(e2, b) == [] && Children(e2, c) == [d] && Children(e2, d) == [];
    assert Children(edges[1..], b) == [c] && Children(edges[1..], d) == [];
  }

  lemma {:induction false} ChainNodes(nodes: seq<Node>, edges: seq<Edge>, a: string, b: string, c: string, d: string)
    requires ChainShape(nodes, edges, a, b, c, d)
    ensures NodeById(nodes, a) == Some(nodes[0]) && NodeById(nodes, b) == Some(nodes[1])
    ensures NodeById(nodes, c) == Some(nodes[2])
  {
  }

  lemma {:induction false} ChainRootKept(nodes: seq<Node>, edges: seq<Edge>, a: string, b: string, c: string, d: string)
    requires ChainShape(nodes, edges, a, b, c, d)
    ensures !IsWrapper(nodes, edges, nodes[0])
  {
    ChainEdges(nodes, edges, a, b, c, d);
  }

  lemma {:induction false} ChainInnerWrappers(nodes: seq<Node>, edges: seq<Edge>, a: string, b: string, c: string, d: string)
    requires ChainShape(nodes, edges, a, b, c, d) && ChainPlainIds(b, c, d)
    ensures IsWrapper(nodes, edges, nodes[1]) <==> CleanLabel(nodes[1].text) == CleanLabel(nodes[0].text)
    ensures IsWrapper(nodes, edges, nodes[2]) <==> CleanLabel(nodes[2].text) == CleanLabel(nodes[1].text)
    ensures IsWrapper(nodes, edges, nodes[3]) <==> CleanLabel(nodes[3].text) == CleanLabel(nodes[2].text)
  {
    ChainEdges(nodes, edges, a, b, c, d);
    ChainNodes(nodes, edges, a, b, c, d);
    forall x | x in Children(edges, b) ensures !EndsWithIndex(x) {
      assert x == c;
    }
    forall x | x in Children(edges, c) ensures !EndsWithIndex(x) {
      assert x == d;
    }
    WrapperByLabel(nodes, edges, nodes[1], nodes[0]);
    WrapperByLabel(nodes, edges, nodes[2], nodes[1]);
    WrapperByLabel(nodes, edges, nodes[3], nodes[2]);
  }

  lemma {:induction false} KeepMiddle(ns: seq<Node>, keep: Node -> bool)
    requires |ns| == 4 && !keep(ns[0]) && keep(ns[1]) && keep(ns[2]) && !keep(ns[3])
    ensures IdsWhere(ns, keep) == [ns[1].id, ns[2].id]
  {
    var n1, n2, n3 := ns[1..], ns[2..], ns[3..];
    assert n1[0] == ns[1] && n1[1..] == n2 && n2[0] == ns[2] && n2[1..] == n3;
    assert n3[0] == ns[3] && n3[1..] == [];
    assert IdsWhere(n3, keep) == [];
    assert IdsWhere(n2, keep) == [ns[2].id];
    assert IdsWhere(n1, keep) == [ns[1].id, ns[2].id];
  }

  lemma {:induction false} DistinctPair(b: string, c: string)
    requires b != c
    ensures Distinct([b, c]) == [b, c]
  {
    assert [b, c][..1] == [b] && [b][..0] == [];
  }

  /** Both `b` and `c` are filtered, in node order. */
  lemma {:induction false} ChainFiltered(nodes: seq<Node>, edges: seq<Edge>, a: string, b: string, c: string, d: string)
    requires ChainGraph(nodes, edges, a, b, c, d)
    ensures FilteredIds(nodes, edges) == [b, c]
  {
    ChainRootKept(nodes, edges, a, b, c, d);
    ChainInnerWrappers(nodes, edges, a, b, c, d);
    KeepMiddle(nodes, n => IsWrapper(nodes, edges, n));
    DistinctPair(b, c);
  }

  lemma {:induction false} ChainReaches(nodes: seq<Node>, edges: seq<Edge>, a: string, b: string, c: string, d: string)
    requires ChainShape(nodes, edges, a, b, c, d)
    ensures Reaches(edges, a, d)
  {
    ChainEdges(nodes, edges, a, b, c, d);
    var p := [a, b, c, d];
    assert forall i :: 0 <= i < |p| - 1 ==> p[i + 1] in Children(edges, p[i]);
    assert IsPath(edges, p);
  }

  lemma {:induction false} ChainEdgeList(nodes: seq<Node>, edges: seq<Edge>, a: string, b: string, c: string, d: string)
    requires ChainShape(nodes, edges, a, b, c, d)
    ensures edges == [Edge(edges[0].id, a, b), Edge(edges[1].id, b, c), Edge(edges[2].id, c, d)]
  {
  }

  lemma {:induction false} ChainRewired(nodes: seq<Node>, edges: seq<Edge>, a: string, b: string, c: string, d: string)
    requires ChainGraph(nodes, edges, a, b, c, d)
    ensures Rewired(nodes, edges) == [Bridge(b, d)]
  {
    ChainFiltered(nodes, edges, a, b, c, d);
    ChainEdgeList(nodes, edges, a, b, c, d);
    ChainRewire(a, b, c, d, [edges[0].id, edges[1].id, edges[2].id]);
  }

  lemma {:induction false} ChainVisibleEdges(nodes: seq<Node>, edges: seq<Edge>, a: string, b: string, c: string, d: string)
    requires ChainGraph(nodes, edges, a, b, c, d)
    ensures VisibleEdges(nodes, edges, map[]) == [Bridge(b, d)]
  {
    NothingCollapsed(edges, map[]);
    ChainRewired(nodes, edges, a, b, c, d);
    AvoidNothing([Bridge(b, d)]);
  }

  lemma {:induction false} ChainOtherIds(nodes: seq<Node>, a: string, b: string, c: string, d: string, n: Node)
    requires |nodes| == 4 && nodes[0].id == a && nodes[1].id == b && nodes[2].id == c && nodes[3].id == d
    requires n in nodes && n.id != b && n.id != c
    ensures n.id == a || n.id == d
  {
    var k :| 0 <= k < |nodes| && nodes[k] == n;
  }

  lemma {:induction false} ChainOnlyEnds(nodes: seq<Node>, edges: seq<Edge>, a: string, b: string, c: string, d: string)
    requires |nodes| == 4 && nodes[0].id == a && nodes[1].id == b && nodes[2].id == c && nodes[3].id == d
    requires FilteredIds(nodes, edges) == [b, c]
    ensures forall v :: v in VisibleNodes(nodes, edges, map[]) ==> v.id == a || v.id == d
  {
    forall v | v in VisibleNodes(nodes, edges, map[]) ensures v.id == a || v.id == d {
      VisibleNodeFields(nodes, edges, map[], v);
      assert v.id != b && v.id != c by {
        assert b in [b, c] && c in [b, c];
      }
      ChainOtherIds(nodes, a, b, c, d, Node(v.id, v.text));
    }
  }

  lemma {:induction false} ChainEndsShown(nodes: seq<Node>, edges: seq<Edge>, a: string, b: string, c: string, d: string)
    requires |nodes| == 4 && nodes[0].id == a && nodes[3].id == d
    requires a != b && a != c && d != b && d != c
    requires FilteredIds(nodes, edges) == [b, c] && Rewired(nodes, edges) == [Bridge(b, d)]
    ensures VisibleNode(a, nodes[0].text, false, [Bridge(b, d)]) in VisibleNodes(nodes, edges, map[])
    ensures VisibleNode(d, nodes[3].text, false, [Bridge(b, d)]) in VisibleNodes(nodes, edges, map[])
  {
    NothingCollapsed(edges, map[]);
    VisibleNodeIff(nodes, edges, map[], nodes[0]);
    VisibleNodeIff(nodes, edges, map[], nodes[3]);
  }

  /** With nothing collapsed, `a` and `d` are both shown and `a` reaches `d`
      in the input, yet the only shown edge is `b -> d`, whose source is not
      shown: the elision of two chained wrappers leaves `a` unconnected. */
  lemma {:induction false} ChainDisconnects(nodes: seq<Node>, edges: seq<Edge>, a: string, b: string, c: string, d: string)
    requires ChainGraph(nodes, edges, a, b, c, d)
    ensures Reaches(edges, a, d)
    ensures VisibleEdges(nodes, edges, map[]) == [Bridge(b, d)]
    ensures forall v :: v in VisibleNodes(nodes, edges, map[]) ==> v.id == a || v.id == d
    ensures VisibleNode(a, nodes[0].text, false, [Bridge(b, d)]) in VisibleNodes(nodes, edges, map[])
    ensures VisibleNode(d, nodes[3].text, false, [Bridge(b, d)]) in VisibleNodes(nodes, edges, map[])
  {
    ChainReaches(nodes, edges, a, b, c, d);
    ChainVisibleEdges(nodes, edges, a, b, c, d);
    ChainFiltered(nodes, edges, a, b, c, d);
    ChainRewired(nodes, edges, a, b, c, d);
    ChainOnlyEnds(nodes, edges, a, b, c, d);
    ChainEndsShown(nodes, edges, a, b, c, d);
  }
}
