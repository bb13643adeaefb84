/** The decisions CollapsibleNode.tsx makes for one node: whether it offers
    a toggle, the label it shows, and what clicking it does. */
module NodeView {
  import opened Optional
  import opened Labels
  import opened LabelProperties
  import opened GraphModel
  import opened Collapse
  import opened CollapseProperties
  import opened Elision
  import opened Resolver
  import opened ResolverProperties

  /** `hasChildren`: with an edge list, whether some edge of it leaves `id`;
      without one, whether the label does not end with `-value`. */
  predicate HasChildren(id: string, text: string, edges: Option<seq<Edge>>) {
    match edges
    case Some(es) => exists i :: 0 <= i < |es| && es[i].source == id
    case None => !EndsWith(text, "-value")
  }

  /** `displayLabel`: `getArrayIndexLabel(label) || cleanLabel(label)`, so the
      cleaned label also stands in for an empty array label. */
  function DisplayLabel(raw: string): string {
    match ArrayIndexLabel(raw)
    case Some(s) => if s != [] then s else CleanLabel(raw)
    case None => CleanLabel(raw)
  }

  /** What a node offers: the id its click hands to `onToggle`, its
      `aria-label` and the marker drawn after its label. */
  datatype Controls = Controls(onClick: Option<string>, aria: Option<string>, marker: Option<string>)

  /** The `onClick`, `aria-label` and marker choices of lines 75-84. */
  function NodeControls(id: string, hasChildren: bool, collapsed: bool): Controls {
    if !hasChildren then Controls(None, None, None)
    else Controls(Some(id), Some(if collapsed then "Expandir" else "Colapsar"), Some(if collapsed then "+" else "-"))
  }

  // ---------------------------------------------------------------------------
  // hasChildren
  // ---------------------------------------------------------------------------

  /** With an edge list, a node has children exactly when `getChildren` of
      that list is not empty. */
  lemma {:induction false} HasChildrenIff(id: string, text: string, es: seq<Edge>)
    ensures HasChildren(id, text, Some(es)) <==> Children(es, id) != []
  {
    var cs := Children(es, id);
    if i :| 0 <= i < |es| && es[i].source == id {
      assert es[i].target in cs;
    }
    if cs != [] {
      assert cs[0] in cs;
    }
  }

  /** A shown node with an input out-edge to a node that is not filtered
      offers its toggle, collapsed or not: the list it carries is the rewired
      list, which the hidden set does not filter. */
  lemma {:induction false} ShownNodeHasToggle(nodes: seq<Node>, edges: seq<Edge>, collapsed: Flags,
                                              v: VisibleNode, e: Edge)
    requires v in VisibleNodes(nodes, edges, collapsed)
    requires e in edges && e.source == v.id && e.target !in FilteredIds(nodes, edges)
    ensures HasChildren(v.id, v.text, Some(v.edges))
    ensures NodeControls(v.id, true, v.collapsed).onClick == Some(v.id)
  {
    ShownNodeKeepsOutEdges(nodes, edges, collapsed, v, e);
    var i :| 0 <= i < |v.edges| && v.edges[i] == e;
  }

  // ---------------------------------------------------------------------------
  // displayLabel
  // ---------------------------------------------------------------------------

  /** A label without a `[digits]` ending is shown cleaned. */
  lemma {:induction false} DisplayLabelPlain(raw: string)
    requires !EndsWithIndex(raw)
    ensures DisplayLabel(raw) == CleanLabel(raw)
  {
  }

  /** A label `prefix[digits]` is shown as the cleaned prefix and the 1-based
      index, unless the prefix holds a line terminator; then it is shown
      cleaned. */
  lemma {:induction false} DisplayLabelIndexed(raw: string, k: nat)
    requires IndexSuffixAt(raw, k)
    ensures NoLineTerminator(raw[..k]) ==>
      DisplayLabel(raw) == IndexedLabel(raw[..k], raw[k + 1..|raw| - 1])
    ensures !NoLineTerminator(raw[..k]) ==> DisplayLabel(raw) == CleanLabel(raw)
  {
    IndexSuffixStartExact(raw, k);
  }

  // ---------------------------------------------------------------------------
  // The toggle
  // ---------------------------------------------------------------------------

  /** Only a node with children can be clicked, and its click toggles its
      own id: the marker and the `aria-label` flip, and a second click
      restores both. */
  lemma {:induction false} ClickFlipsControls(collapsed: Flags, id: string, hasChildren: bool)
    ensures NodeControls(id, hasChildren, Flag(collapsed, id)).onClick.Some? <==> hasChildren
    ensures hasChildren ==>
      var before := NodeControls(id, true, Flag(collapsed, id));
      var once := Toggle(collapsed, before.onClick.value);
      var after := NodeControls(id, true, Flag(once, id));
      && before.onClick == Some(id)
      && after.marker != before.marker && after.aria != before.aria
      && NodeControls(id, true, Flag(Toggle(once, id), id)) == before
  {
  }

  /** A node showing `+` has every child, and every descendant, hidden. */
  lemma {:induction false} PlusMarkerHidesChildren(edges: seq<Edge>, collapsed: Flags, id: string)
    requires NodeControls(id, true, Flag(collapsed, id)).marker == Some("+")
    ensures forall c :: c in Children(edges, id) ==> c in Hidden(edges, collapsed)
    ensures Below(edges, id) <= Hidden(edges, collapsed)
  {
    CollapsedHidesBelow(edges, collapsed, id);
    forall c | c in Children(edges, id) ensures c in Below(edges, id) {
      ChildTarget(edges, id, c);
      ReachesChild(edges, id, c);
    }
  }
}
