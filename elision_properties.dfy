/** What the elision of wrapper nodes guarantees, and the connectivity it
    does not preserve. */
module ElisionProperties {
  import opened Optional
  import opened Sequences
  import opened Labels
  import opened GraphModel
  import opened Elision

  // ---------------------------------------------------------------------------
  // nodesToFilter
  // ---------------------------------------------------------------------------

  /** An id is filtered exactly when some node with that id is a wrapper. */
  lemma {:induction false} FilteredIff(nodes: seq<Node>, edges: seq<Edge>, f: string)
    ensures f in FilteredIds(nodes, edges) <==>
      exists i :: 0 <= i < |nodes| && nodes[i].id == f && IsWrapper(nodes, edges, nodes[i])
  {
    var wrappers := IdsWhere(nodes, n => IsWrapper(nodes, edges, n));
    assert FilteredIds(nodes, edges) == Distinct(wrappers);
    assert f in Distinct(wrappers) <==> f in wrappers;
  }

  /** Each filtered id is visited once. */
  lemma {:induction false} FilteredOnce(nodes: seq<Node>, edges: seq<Edge>)
    ensures var fs := FilteredIds(nodes, edges);
      forall i, j :: 0 <= i < j < |fs| ==> fs[i] != fs[j]
  {
  }

  /** `filter(keep).map(n => n.id)` keeps node order: it distributes over
      concatenation, and one node contributes its id exactly when it is
      kept. */
  lemma {:induction false} IdsWhereConcat(a: seq<Node>, b: seq<Node>, keep: Node -> bool)
    ensures IdsWhere(a + b, keep) == IdsWhere(a, keep) + IdsWhere(b, keep)
    ensures |a| == 1 ==> IdsWhere(a, keep) == if keep(a[0]) then [a[0].id] else []
    decreases |a|
  {
    if a == [] {
      assert a + b == b;
    } else {
      var h := if keep(a[0]) then [a[0].id] else [];
      assert (a + b)[0] == a[0] && (a + b)[1..] == a[1..] + b;
      assert IdsWhere(a + b, keep) == h + IdsWhere(a[1..] + b, keep);
      IdsWhereConcat(a[1..], b, keep);
      assert IdsWhere(a, keep) == h + IdsWhere(a[1..], keep);
      assert h + (IdsWhere(a[1..], keep) + IdsWhere(b, keep)) == (h + IdsWhere(a[1..], keep)) + IdsWhere(b, keep);
      if |a| == 1 {
        assert a[1..] == [];
      }
    }
  }

  lemma {:induction false} IdsWhereHead(ns: seq<Node>, keep: Node -> bool)
    requires ns != []
    ensures IdsWhere(ns, keep) == (if keep(ns[0]) then [ns[0].id] else []) + IdsWhere(ns[1..], keep)
  {
  }

  /** The id at position `p` of `filter(keep).map(n => n.id)` comes from the
      kept node `ns[k]`, and the nodes before `ns[k]` give exactly the ids
      before position `p`. */
  lemma {:induction false} IdsWherePosition(ns: seq<Node>, keep: Node -> bool, p: nat) returns (k: nat)
    requires p < |IdsWhere(ns, keep)|
    ensures k < |ns| && keep(ns[k]) && ns[k].id == IdsWhere(ns, keep)[p]
    ensures IdsWhere(ns[..k], keep) == IdsWhere(ns, keep)[..p]
    decreases |ns|
  {
    var r := IdsWhere(ns, keep);
    var rest := IdsWhere(ns[1..], keep);
    var h := if keep(ns[0]) then [ns[0].id] else [];
    IdsWhereHead(ns, keep);
    if keep(ns[0]) && p == 0 {
      k := 0;
      assert ns[..0] == [];
    } else {
      var q := if keep(ns[0]) then p - 1 else p;
      var k' := IdsWherePosition(ns[1..], keep, q);
      k := k' + 1;
      assert ns[k] == ns[1..][k'] && r[p] == rest[q];
      assert ns[..k][0] == ns[0] && ns[..k][1..] == ns[1..][..k'];
      IdsWhereHead(ns[..k], keep);
      assert r[..p] == h + rest[..q];
    }
  }

  /** Of two ids of `Distinct(filter(keep).map(n => n.id))`, the earlier one
      belongs to a kept node that comes before every kept node with the
      later id. */
  lemma {:induction false} KeptInOrder(ns: seq<Node>, keep: Node -> bool, i: nat, j: nat)
    requires i < j < |Distinct(IdsWhere(ns, keep))|
    ensures var fs := Distinct(IdsWhere(ns, keep));
      exists k :: (0 <= k < |ns| && ns[k].id == fs[i] && keep(ns[k]) &&
                   forall m :: 0 <= m < k ==> !(ns[m].id == fs[j] && keep(ns[m])))
  {
    var ids := IdsWhere(ns, keep);
    var fs := Distinct(ids);
    assert FirstBefore(ids, fs[i], fs[j]);
    var p :| 0 <= p < |ids| && ids[p] == fs[i] && fs[j] !in ids[..p];
    var k := IdsWherePosition(ns, keep, p);
    forall m | 0 <= m < k
      ensures !(ns[m].id == fs[j] && keep(ns[m]))
    {
      assert ns[..k][m] == ns[m];
    }
  }

  /** The `forEach` over `nodesToFilter` visits the wrappers in node order:
      of two filtered ids, the one visited first belongs to a wrapper that
      comes before every wrapper with the other id. */
  lemma {:induction false} FilteredInNodeOrder(nodes: seq<Node>, edges: seq<Edge>, i: nat, j: nat)
    requires i < j < |FilteredIds(nodes, edges)|
    ensures var fs := FilteredIds(nodes, edges);
      exists k :: (0 <= k < |nodes| && nodes[k].id == fs[i] && IsWrapper(nodes, edges, nodes[k]) &&
                   forall m :: 0 <= m < k ==> !(nodes[m].id == fs[j] && IsWrapper(nodes, edges, nodes[m])))
  {
    KeptInOrder(nodes, n => IsWrapper(nodes, edges, n), i, j);
  }

  /** A filtered id has a non-empty first parent that is a node, does not end
      with `[digits]` or `-value`, has no child ending with `[digits]`, and
      some node with that id has the parent's cleaned label. So roots, array
      elements and nodes that introduce an array are never filtered. */
  lemma {:induction false} FilteredConditions(nodes: seq<Node>, edges: seq<Edge>, f: string)
    requires f in FilteredIds(nodes, edges)
    ensures TruthyParent(edges, f).Some?
    ensures var p := TruthyParent(edges, f).value;
      && NodeById(nodes, p).Some?
      && !EndsWithIndex(f) && !EndsWith(f, "-value")
      && (forall c :: c in Children(edges, f) ==> !EndsWithIndex(c))
      && exists i :: 0 <= i < |nodes| && nodes[i].id == f &&
           CleanLabel(nodes[i].text) == CleanLabel(NodeById(nodes, p).value.text)
  {
    FilteredIff(nodes, edges, f);
    var i :| 0 <= i < |nodes| && nodes[i].id == f && IsWrapper(nodes, edges, nodes[i]);
    var cs := Children(edges, f);
    forall c | c in cs ensures !EndsWithIndex(c) {
      var k :| 0 <= k < |cs| && cs[k] == c;
    }
  }

  /** Conversely, once a node has a non-empty first parent that is a node,
      is neither an array element nor a `-value` entry and has no child
      that is an array element, it is a wrapper exactly when its cleaned
      label equals its parent's. */
  lemma {:induction false} WrapperByLabel(nodes: seq<Node>, edges: seq<Edge>, n: Node, parent: Node)
    requires TruthyParent(edges, n.id) == Some(parent.id)
    requires NodeById(nodes, parent.id) == Some(parent)
    requires !EndsWithIndex(n.id) && !EndsWith(n.id, "-value")
    requires forall x :: x in Children(edges, n.id) ==> !EndsWithIndex(x)
    ensures IsWrapper(nodes, edges, n) <==> CleanLabel(n.text) == CleanLabel(parent.text)
  {
    var cs := Children(edges, n.id);
    assert !AnyIndexed(cs) by {
      forall i | 0 <= i < |cs| ensures !EndsWithIndex(cs[i]) {
        assert cs[i] in cs;
      }
    }
  }

  // ---------------------------------------------------------------------------
  // The edge filter
  // ---------------------------------------------------------------------------

  lemma {:induction false} AvoidNothing(es: seq<Edge>)
    ensures Avoid(es, {}) == es
    decreases |es|
  {
    if es != [] {
      AvoidNothing(es[1..]);
      assert [es[0]] + es[1..] == es;
    }
  }

  lemma {:induction false} AvoidConcat(a: seq<Edge>, b: seq<Edge>, ids: set<string>)
    ensures Avoid(a + b, ids) == Avoid(a, ids) + Avoid(b, ids)
    decreases |a|
  {
    if a == [] {
      assert a + b == b;
    } else {
      assert (a + b)[0] == a[0] && (a + b)[1..] == a[1..] + b;
      AvoidConcat(a[1..], b, ids);
    }
  }

  lemma {:induction false} AvoidAvoid(es: seq<Edge>, s: set<string>, t: set<string>)
    ensures Avoid(Avoid(es, s), t) == Avoid(es, s + t)
    decreases |es|
  {
    if es != [] {
      AvoidAvoid(es[1..], s, t);
      var e := es[0];
      if e.source !in s && e.target !in s {
        assert Avoid(es, s) == [e] + Avoid(es[1..], s);
        assert Avoid(es, s)[1..] == Avoid(es[1..], s);
      }
    }
  }

  /** Avoiding fewer ids keeps more edges, in the same order. */
  lemma {:induction false} AvoidFewer(es: seq<Edge>, s: set<string>, t: set<string>)
    requires s <= t
    ensures SubseqOf(Avoid(es, t), Avoid(es, s))
  {
    assert s + t == t;
    AvoidAvoid(es, s, t);
    assert Avoid(Avoid(es, s), t) == Avoid(es, t);
  }

  // ---------------------------------------------------------------------------
  // The rewiring fold
  // ---------------------------------------------------------------------------

  /** The ids of `fs` whose rewiring step acts: those with a non-empty
      first parent. */
  ghost function Active(orig: seq<Edge>, fs: seq<string>): set<string> {
    set f | f in fs && TruthyParent(orig, f).Some?
  }

  /** `e` is an edge the step for some id of `fs` pushed: from that id's
      first parent to one of its original children. */
  ghost predicate IsBridgeFor(orig: seq<Edge>, fs: seq<string>, e: Edge) {
    exists f :: f in fs && TruthyParent(orig, f) == Some(e.source) &&
      e.target in Children(orig, f) && e == Bridge(e.source, e.target)
  }

  /** The bridges pushed for an acting `f` of `fs` that survive later
      removals are bridges for `fs`. */
  lemma {:induction false} BridgesFor(orig: seq<Edge>, fs: seq<string>, f: string, later: set<string>)
    requires f in fs && TruthyParent(orig, f).Some?
    ensures var p := TruthyParent(orig, f).value;
      forall e :: e in Avoid(Bridges(p, Children(orig, f)), later) ==> IsBridgeFor(orig, fs, e)
  {
    var p := TruthyParent(orig, f).value;
    var cs := Children(orig, f);
    var bridges := Bridges(p, cs);
    forall e | e in Avoid(bridges, later) ensures IsBridgeFor(orig, fs, e) {
      var k :| 0 <= k < |bridges| && bridges[k] == e;
      assert cs[k] in cs;
    }
  }

  /** Bridges for the rest of `fs` are bridges for `fs`. */
  lemma {:induction false} BridgesForRest(orig: seq<Edge>, fs: seq<string>, tail: seq<Edge>)
    requires fs != [] && forall e :: e in tail ==> IsBridgeFor(orig, fs[1..], e)
    ensures forall e :: e in tail ==> IsBridgeFor(orig, fs, e)
  {
    forall e | e in tail ensures IsBridgeFor(orig, fs, e) {
      var g :| g in fs[1..] && TruthyParent(orig, g) == Some(e.source) &&
        e.target in Children(orig, g) && e == Bridge(e.source, e.target);
      assert g in fs;
    }
  }

  /** The removals of later steps distribute over the list one step leaves. */
  lemma {:induction false} AvoidAfterStep(cur: seq<Edge>, f: string, bridges: seq<Edge>, later: set<string>)
    ensures Avoid(Avoid(cur, {f}) + bridges, later) == Avoid(cur, {f} + later) + Avoid(bridges, later)
  {
    AvoidConcat(Avoid(cur, {f}), bridges, later);
    AvoidAvoid(cur, {f}, later);
  }

  /** Regrouping a three-part edge list, kept as its own lemma so that the
      list equation of an acting step stays within the solver's budget. */
  lemma {:induction false} Regroup(a: seq<Edge>, b: seq<Edge>, c: seq<Edge>)
    ensures a + b + c == a + (b + c)
  {
  }

  /** One acting step of the shape induction. */
  lemma {:induction false} ShapeActingStep(orig: seq<Edge>, cur: seq<Edge>, fs: seq<string>, tail': seq<Edge>)
    returns (tail: seq<Edge>)
    requires fs != [] && TruthyParent(orig, fs[0]).Some?
    requires var next := RewireStep(orig, cur, fs[0]);
      RewireFold(orig, next, fs[1..]) == Avoid(next, Active(orig, fs[1..])) + tail'
    requires forall e :: e in tail' ==> IsBridgeFor(orig, fs, e)
    ensures RewireFold(orig, cur, fs) == Avoid(cur, Active(orig, fs)) + tail
    ensures forall e :: e in tail ==> IsBridgeFor(orig, fs, e)
  {
    var f := fs[0];
    var later := Active(orig, fs[1..]);
    var bridges := Bridges(TruthyParent(orig, f).value, Children(orig, f));
    ShapeActingEquation(orig, cur, fs, tail');
    tail := Avoid(bridges, later) + tail';
    BridgesFor(orig, fs, f, later);
  }

  lemma {:induction false} ActingStep(orig: seq<Edge>, cur: seq<Edge>, f: string)
    requires TruthyParent(orig, f).Some?
    ensures RewireStep(orig, cur, f) ==
      Avoid(cur, {f}) + Bridges(TruthyParent(orig, f).value, Children(orig, f))
  {
  }

  lemma {:induction false} ActiveHead(orig: seq<Edge>, fs: seq<string>)
    requires fs != [] && TruthyParent(orig, fs[0]).Some?
    ensures Active(orig, fs) == {fs[0]} + Active(orig, fs[1..])
  {
  }

  /** The list equation of one acting step. */
  lemma {:induction false} ShapeActingEquation(orig: seq<Edge>, cur: seq<Edge>, fs: seq<string>, tail': seq<Edge>)
    requires fs != [] && TruthyParent(orig, fs[0]).Some?
    requires var next := RewireStep(orig, cur, fs[0]);
      RewireFold(orig, next, fs[1..]) == Avoid(next, Active(orig, fs[1..])) + tail'
    ensures var later := Active(orig, fs[1..]);
      var bridges := Bridges(TruthyParent(orig, fs[0]).value, Children(orig, fs[0]));
      RewireFold(orig, cur, fs) == Avoid(cur, Active(orig, fs)) + (Avoid(bridges, later) + tail')
  {
    var f := fs[0];
    var later := Active(orig, fs[1..]);
    var bridges := Bridges(TruthyParent(orig, f).value, Children(orig, f));
    var next := Avoid(cur, {f}) + bridges;
    var kept := Avoid(cur, {f} + later);
    assert RewireFold(orig, cur, fs) == Avoid(next, later) + tail' by {
      ActingStep(orig, cur, f);
    }
    ActiveHead(orig, fs);
    assert Avoid(next, later) == kept + Avoid(bridges, later) by {
      AvoidAfterStep(cur, f, bridges, later);
    }
    Regroup(kept, Avoid(bridges, later), tail');
  }

  /** The rewired list is the starting list minus every edge touching an
      acting id, in its original order, followed by pushed bridge edges only. */
  lemma {:induction false} RewireShape(orig: seq<Edge>, cur: seq<Edge>, fs: seq<string>)
    returns (tail: seq<Edge>)
    ensures RewireFold(orig, cur, fs) == Avoid(cur, Active(orig, fs)) + tail
    ensures forall e :: e in tail ==> IsBridgeFor(orig, fs, e)
    decreases |fs|
  {
    if fs == [] {
      AvoidNothing(cur);
      assert Active(orig, fs) == {};
      tail := [];
    } else {
      var next := RewireStep(orig, cur, fs[0]);
      var tail' := RewireShape(orig, next, fs[1..]);
      BridgesForRest(orig, fs, tail');
      if TruthyParent(orig, fs[0]).Some? {
        tail := ShapeActingStep(orig, cur, fs, tail');
      } else {
        assert Active(orig, fs) == Active(orig, fs[1..]);
        tail := tail';
      }
    }
  }

  /** Every edge of the starting list that touches no id of `fs` survives
      unchanged and in its original relative order. */
  lemma {:induction false} RewireKeepsUntouched(orig: seq<Edge>, cur: seq<Edge>, fs: seq<string>)
    ensures SubseqOf(Avoid(cur, set f | f in fs), RewireFold(orig, cur, fs))
  {
    var tail := RewireShape(orig, cur, fs);
    var active := Active(orig, fs);
    AvoidFewer(cur, active, set f | f in fs);
    PrefixSubseq(Avoid(cur, active) + tail, |Avoid(cur, active)|);
    assert (Avoid(cur, active) + tail)[..|Avoid(cur, active)|] == Avoid(cur, active);
    SubseqTrans(Avoid(cur, set f | f in fs), Avoid(cur, active), RewireFold(orig, cur, fs));
  }

  /** When no id of `fs` has a non-empty parent (in particular when nothing
      is filtered) the list is left as it is. */
  lemma {:induction false} RewireIdle(orig: seq<Edge>, cur: seq<Edge>, fs: seq<string>)
    requires forall f :: f in fs ==> TruthyParent(orig, f).None?
    ensures RewireFold(orig, cur, fs) == cur
    decreases |fs|
  {
    if fs != [] {
      assert forall f :: f in fs[1..] ==> f in fs;
      RewireIdle(orig, cur, fs[1..]);
    }
  }

  /** Right after the step for `f` (with no `f -> f` edge) no edge has `f` as
      source or target. */
  lemma {:induction false} RewireStepClears(orig: seq<Edge>, cur: seq<Edge>, f: string)
    requires TruthyParent(orig, f).Some?
    requires forall i :: 0 <= i < |orig| ==> !(orig[i].source == f && orig[i].target == f)
    ensures forall e :: e in RewireStep(orig, cur, f) ==> e.source != f && e.target != f
  {
    var p := TruthyParent(orig, f).value;
    var cs := Children(orig, f);
    var bridges := Bridges(p, cs);
    assert FirstParentAt(orig, f, p);
    forall e | e in bridges ensures e.source != f && e.target != f {
      var k :| 0 <= k < |bridges| && bridges[k] == e;
      assert cs[k] in cs;
    }
  }

  // ---------------------------------------------------------------------------
  // Elision does not preserve connectivity
  // ---------------------------------------------------------------------------

  /** `ab`, `bc`, `cd` form the chain `a -> b -> c -> d` over four distinct
      ids, with `a` and `b` non-empty. */
  predicate IsChain(ab: Edge, bc: Edge, cd: Edge) {
    && ab.target == bc.source && bc.target == cd.source
    && ab.source != [] && ab.target != []
    && ab.source != ab.target && ab.source != bc.target && ab.source != cd.target
    && ab.target != bc.target && ab.target != cd.target && bc.target != cd.target
  }

  /** The first parents and the children in the chain. */
  lemma {:induction false} ChainQueries(ab: Edge, bc: Edge, cd: Edge)
    requires IsChain(ab, bc, cd)
    ensures Children([ab, bc, cd], ab.target) == [bc.target]
    ensures Children([ab, bc, cd], bc.target) == [cd.target]
    ensures Parent([ab, bc, cd], ab.target) == Some(ab.source)
    ensures Parent([ab, bc, cd], bc.target) == Some(bc.source)
  {
    var orig := [ab, bc, cd];
    var b, c, d := ab.target, bc.target, cd.target;
    assert orig[1..] == [bc, cd] && orig[1..][1..] == [cd] && [cd][1..] == [];
    assert Children([cd], b) == [] && Children([bc, cd], b) == [c];
    assert Children([cd], c) == [d] && Children([bc, cd], c) == [d];
    assert Parent([bc, cd], c) == Some(b);
  }

  /** Removing `b` leaves `c -> d`; removing `c` leaves `a -> b`. */
  lemma {:induction false} ChainAvoid(ab: Edge, bc: Edge, cd: Edge)
    requires IsChain(ab, bc, cd)
    ensures Avoid([ab, bc, cd], {ab.target}) == [cd]
    ensures Avoid([ab, bc, cd], {bc.target}) == [ab]
  {
    var orig := [ab, bc, cd];
    var b, c := ab.target, bc.target;
    assert orig[1..] == [bc, cd] && orig[1..][1..] == [cd] && [cd][1..] == [];
    assert Avoid([cd], {b}) == [cd] && Avoid([bc, cd], {b}) == [cd];
    assert Avoid([cd], {c}) == [] && Avoid([bc, cd], {c}) == [];
  }

  /** The step for `b` on the input and the step for `c` on the input. */
  lemma {:induction false} ChainFirstSteps(ab: Edge, bc: Edge, cd: Edge)
    requires IsChain(ab, bc, cd)
    ensures RewireStep([ab, bc, cd], [ab, bc, cd], ab.target) == [cd, Bridge(ab.source, bc.target)]
    ensures RewireStep([ab, bc, cd], [ab, bc, cd], bc.target) == [ab, Bridge(ab.target, cd.target)]
  {
    ChainQueries(ab, bc, cd);
    ChainAvoid(ab, bc, cd);
  }

  /** The second step, in either order, leaves only the bridge it pushes. */
  lemma {:induction false} ChainSecondSteps(ab: Edge, bc: Edge, cd: Edge)
    requires IsChain(ab, bc, cd)
    ensures var afterB := [cd, Bridge(ab.source, bc.target)];
      RewireStep([ab, bc, cd], afterB, bc.target) == [Bridge(ab.target, cd.target)]
    ensures var afterC := [ab, Bridge(ab.target, cd.target)];
      RewireStep([ab, bc, cd], afterC, ab.target) == [Bridge(ab.source, bc.target)]
  {
    ChainQueries(ab, bc, cd);
    var afterB := [cd, Bridge(ab.source, bc.target)];
    var afterC := [ab, Bridge(ab.target, cd.target)];
    assert afterB[1..] == [Bridge(ab.source, bc.target)] && afterB[1..][1..] == [];
    assert Avoid(afterB, {bc.target}) == [];
    assert afterC[1..] == [Bridge(ab.target, cd.target)] && afterC[1..][1..] == [];
    assert Avoid(afterC, {ab.target}) == [];
  }

  lemma {:induction false} FoldTwo(orig: seq<Edge>, cur: seq<Edge>, f: string, g: string)
    ensures RewireFold(orig, cur, [f, g]) == RewireStep(orig, RewireStep(orig, cur, f), g)
  {
    assert [f, g][1..] == [g] && [g][1..] == [];
    var next := RewireStep(orig, cur, f);
    assert RewireFold(orig, cur, [f, g]) == RewireFold(orig, next, [g]);
    assert RewireFold(orig, next, [g]) == RewireFold(orig, RewireStep(orig, next, g), []);
  }

  /** The fold over the chain `a -> b -> c -> d` with `b` and `c` filtered:
      processing `c` re-reads its original parent `b` and removes the edge
      `a -> c` just pushed for `b`. What is left is `b -> d`. */
  lemma {:induction false} ChainRewire(a: string, b: string, c: string, d: string, ids: seq<string>)
    requires |ids| == 3 && a != [] && b != []
    requires a != b && a != c && a != d && b != c && b != d && c != d
    ensures var orig := [Edge(ids[0], a, b), Edge(ids[1], b, c), Edge(ids[2], c, d)];
      RewireFold(orig, orig, [b, c]) == [Bridge(b, d)]
  {
    var ab, bc, cd := Edge(ids[0], a, b), Edge(ids[1], b, c), Edge(ids[2], c, d);
    var orig := [ab, bc, cd];
    var afterB := [cd, Bridge(a, c)];
    assert RewireStep(orig, orig, b) == afterB by {
      ChainFirstSteps(ab, bc, cd);
    }
    assert RewireStep(orig, afterB, c) == [Bridge(b, d)] by {
      ChainSecondSteps(ab, bc, cd);
    }
    FoldTwo(orig, orig, b, c);
  }

  /** The same chain with `c` processed before `b`: the bridge pushed for
      `b` leads to `c`, which is itself filtered, so the only edge left ends
      at a node that is not shown. */
  lemma {:induction false} ChainRewireReversed(a: string, b: string, c: string, d: string, ids: seq<string>)
    requires |ids| == 3 && a != [] && b != []
    requires a != b && a != c && a != d && b != c && b != d && c != d
    ensures var orig := [Edge(ids[0], a, b), Edge(ids[1], b, c), Edge(ids[2], c, d)];
      RewireFold(orig, orig, [c, b]) == [Bridge(a, c)]
  {
    var ab, bc, cd := Edge(ids[0], a, b), Edge(ids[1], b, c), Edge(ids[2], c, d);
    var orig := [ab, bc, cd];
    var afterC := [ab, Bridge(b, d)];
    assert RewireStep(orig, orig, c) == afterC by {
      ChainFirstSteps(ab, bc, cd);
    }
    assert RewireStep(orig, afterC, b) == [Bridge(a, c)] by {
      ChainSecondSteps(ab, bc, cd);
    }
    FoldTwo(orig, orig, c, b);
  }
}
