/** The hidden set of the resolver: every proper descendant of an id whose
    collapse flag is `true`, collected by `hideRecursive` into one set. */
module Collapse {
  import opened GraphModel

  // ---------------------------------------------------------------------------
  // Reachability along the original edges
  // ---------------------------------------------------------------------------

  /** `p` follows edges: each element is a child of the one before it. */
  ghost predicate IsPath(edges: seq<Edge>, p: seq<string>) {
    2 <= |p| && forall i :: 0 <= i < |p| - 1 ==> p[i + 1] in Children(edges, p[i])
  }

  /** `b` is reached from `a` by one or more `source -> target` edges. */
  ghost predicate Reaches(edges: seq<Edge>, a: string, b: string) {
    exists p :: IsPath(edges, p) && p[0] == a && p[|p| - 1] == b
  }

  /** Every id some edge points at. */
  function Targets(edges: seq<Edge>): set<string> {
    set e | e in edges :: e.target
  }

  /** The proper descendants of `id`. */
  ghost function Below(edges: seq<Edge>, id: string): set<string> {
    set n | n in Targets(edges) && Reaches(edges, id, n)
  }

  /** No cycle can be reached from `id`: exactly what `hideRecursive(id)`
      needs to terminate. */
  ghost predicate AcyclicFrom(edges: seq<Edge>, id: string) {
    !Reaches(edges, id, id) && forall n :: Reaches(edges, id, n) ==> !Reaches(edges, n, n)
  }

  /** The children and the descendants of every id in `cs`. */
  ghost function BelowEach(edges: seq<Edge>, cs: seq<string>): set<string> {
    if cs == [] then {}
    else BelowEach(edges, cs[..|cs| - 1]) + ({cs[|cs| - 1]} + Below(edges, cs[|cs| - 1]))
  }

  /** What the collapse flags of the ids in `ids` hide. */
  ghost function HiddenBy(edges: seq<Edge>, collapsed: Flags, ids: set<string>): set<string> {
    set n | n in Targets(edges) &&
      exists c :: c in ids && Flag(collapsed, c) && Reaches(edges, c, n)
  }

  /** The hidden set: what every collapse flag hides. */
  ghost function Hidden(edges: seq<Edge>, collapsed: Flags): set<string> {
    HiddenBy(edges, collapsed, collapsed.Keys)
  }

  // ---------------------------------------------------------------------------
  // Facts about paths
  // ---------------------------------------------------------------------------

  lemma {:induction false} ChildTarget(edges: seq<Edge>, a: string, c: string)
    requires c in Children(edges, a)
    ensures c in Targets(edges)
  {
    var i :| 0 <= i < |edges| && edges[i].source == a && edges[i].target == c;
    assert edges[i] in edges;
  }

  lemma {:induction false} ReachesChild(edges: seq<Edge>, a: string, c: string)
    requires c in Children(edges, a)
    ensures Reaches(edges, a, c)
  {
    assert IsPath(edges, [a, c]);
  }

  lemma {:induction false} ReachesThroughChild(edges: seq<Edge>, a: string, c: string, n: string)
    requires c in Children(edges, a) && Reaches(edges, c, n)
    ensures Reaches(edges, a, n)
  {
    var p :| IsPath(edges, p) && p[0] == c && p[|p| - 1] == n;
    var q := [a] + p;
    assert forall i :: 0 < i < |q| ==> q[i] == p[i - 1];
    assert IsPath(edges, q);
  }

  /** Every descent starts with a child. */
  lemma {:induction false} ReachesFirstStep(edges: seq<Edge>, a: string, n: string)
    requires Reaches(edges, a, n)
    ensures exists c :: c in Children(edges, a) && (c == n || Reaches(edges, c, n))
  {
    var p :| IsPath(edges, p) && p[0] == a && p[|p| - 1] == n;
    if 2 < |p| {
      var q := p[1..];
      assert forall i :: 0 <= i < |q| ==> q[i] == p[i + 1];
      assert IsPath(edges, q);
      assert p[1] in Children(edges, a) && Reaches(edges, p[1], n);
    }
  }

  /** What is reached is an edge target. */
  lemma {:induction false} ReachesTarget(edges: seq<Edge>, a: string, n: string)
    requires Reaches(edges, a, n)
    ensures n in Targets(edges)
  {
    var p :| IsPath(edges, p) && p[0] == a && p[|p| - 1] == n;
    ChildTarget(edges, p[|p| - 2], n);
  }

  // ---------------------------------------------------------------------------
  // The descendant sets
  // ---------------------------------------------------------------------------

  lemma {:induction false} BelowEachMember(edges: seq<Edge>, cs: seq<string>, n: string)
    ensures n in BelowEach(edges, cs) <==>
      exists k :: 0 <= k < |cs| && (n == cs[k] || n in Below(edges, cs[k]))
    decreases |cs|
  {
    if cs != [] {
      var init := cs[..|cs| - 1];
      BelowEachMember(edges, init, n);
      assert forall k :: 0 <= k < |init| ==> init[k] == cs[k];
    }
  }

  /** The descendants of `id` are its children and their descendants. */
  lemma {:induction false} BelowSplit(edges: seq<Edge>, id: string)
    ensures Below(edges, id) == BelowEach(edges, Children(edges, id))
  {
    var cs := Children(edges, id);
    forall n | n in Below(edges, id) ensures n in BelowEach(edges, cs) {
      ReachesFirstStep(edges, id, n);
      var c :| c in cs && (c == n || Reaches(edges, c, n));
      var k :| 0 <= k < |cs| && cs[k] == c;
      BelowEachMember(edges, cs, n);
    }
    forall n | n in BelowEach(edges, cs) ensures n in Below(edges, id) {
      BelowEachMember(edges, cs, n);
      var k :| 0 <= k < |cs| && (n == cs[k] || n in Below(edges, cs[k]));
      if n == cs[k] {
        ChildTarget(edges, id, n);
        ReachesChild(edges, id, n);
      } else {
        ReachesThroughChild(edges, id, cs[k], n);
      }
    }
  }

  /** A child of `id` inherits acyclicity and has strictly fewer descendants. */
  lemma {:induction false} ChildBelow(edges: seq<Edge>, id: string, c: string)
    requires AcyclicFrom(edges, id) && c in Children(edges, id)
    ensures AcyclicFrom(edges, c)
    ensures Below(edges, c) < Below(edges, id) && |Below(edges, c)| < |Below(edges, id)|
  {
    ReachesChild(edges, id, c);
    forall n | Reaches(edges, c, n) ensures Reaches(edges, id, n) {
      ReachesThroughChild(edges, id, c, n);
    }
    ChildTarget(edges, id, c);
    assert c in Below(edges, id) && c !in Below(edges, c);
    var rest := Below(edges, id) - Below(edges, c);
    assert Below(edges, id) == Below(edges, c) + rest;
  }

  lemma {:induction false} BelowEachStep(edges: seq<Edge>, cs: seq<string>, i: nat)
    requires i < |cs|
    ensures BelowEach(edges, cs[..i + 1]) == BelowEach(edges, cs[..i]) + ({cs[i]} + Below(edges, cs[i]))
  {
    assert cs[..i + 1][..i] == cs[..i];
  }

  lemma {:induction false} HiddenByAdd(edges: seq<Edge>, collapsed: Flags, ids: set<string>, id: string)
    ensures HiddenBy(edges, collapsed, ids + {id}) ==
      HiddenBy(edges, collapsed, ids) + (if Flag(collapsed, id) then Below(edges, id) else {})
  {
  }

  // ---------------------------------------------------------------------------
  // hideRecursive and the loop over the collapse entries
  // ---------------------------------------------------------------------------

  /** `hideRecursive(id)`: adds every child of `id` to the hidden set and
      recurses into it. */
  method HideRecursive(edges: seq<Edge>, id: string, hidden: set<string>) returns (h: set<string>)
    requires AcyclicFrom(edges, id)
    ensures h == hidden + Below(edges, id)
    decreases |Below(edges, id)|
  {
    var children := Children(edges, id);
    h := hidden;
    for i := 0 to |children|
      invariant h == hidden + BelowEach(edges, children[..i])
    {
      var child := children[i];
      ChildBelow(edges, id, child);
      BelowEachStep(edges, children, i);
      h := h + {child};
      h := HideRecursive(edges, child, h);
    }
    assert children[..|children|] == children;
    BelowSplit(edges, id);
  }

  /** `Object.entries(collapsed).forEach(...)`: hides below every id whose
      flag is `true`, in whatever order the entries come. */
  method HideCollapsed(edges: seq<Edge>, collapsed: Flags) returns (hidden: set<string>)
    requires forall c :: Flag(collapsed, c) ==> AcyclicFrom(edges, c)
    ensures hidden == Hidden(edges, collapsed)
  {
    hidden := {};
    var todo := collapsed.Keys;
    while todo != {}
      invariant todo <= collapsed.Keys
      invariant hidden == HiddenBy(edges, collapsed, collapsed.Keys - todo)
      decreases |todo|
    {
      var id :| id in todo;
      HiddenByAdd(edges, collapsed, collapsed.Keys - todo, id);
      if collapsed[id] {
        hidden := HideRecursive(edges, id, hidden);
      }
      assert collapsed.Keys - (todo - {id}) == (collapsed.Keys - todo) + {id};
      todo := todo - {id};
    }
  }
}
