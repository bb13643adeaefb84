/** What the hidden set is, and what it is not. */
module CollapseProperties {
  import opened GraphModel
  import opened Collapse

  /** A node is hidden exactly when it descends, by one or more edges, from an
      id whose flag is `true`. */
  lemma {:induction false} HiddenIff(edges: seq<Edge>, collapsed: Flags, n: string)
    ensures n in Hidden(edges, collapsed) <==>
      exists c :: Flag(collapsed, c) && Reaches(edges, c, n)
  {
    if c :| Flag(collapsed, c) && Reaches(edges, c, n) {
      ReachesTarget(edges, c, n);
    }
  }

  /** A collapsed node is itself hidden only when another collapsed node lies
      above it. */
  lemma {:induction false} CollapsedHiddenIff(edges: seq<Edge>, collapsed: Flags, c: string)
    requires Flag(collapsed, c) && AcyclicFrom(edges, c)
    ensures c in Hidden(edges, collapsed) <==>
      exists d :: d != c && Flag(collapsed, d) && Reaches(edges, d, c)
  {
    HiddenIff(edges, collapsed, c);
  }

  /** A node without out-edges has no descendants. */
  lemma {:induction false} LeafBelowEmpty(edges: seq<Edge>, c: string)
    requires Children(edges, c) == []
    ensures Below(edges, c) == {} && forall n :: !Reaches(edges, c, n)
  {
    forall n ensures !Reaches(edges, c, n) {
      if Reaches(edges, c, n) {
        ReachesFirstStep(edges, c, n);
      }
    }
  }

  /** Collapsing or expanding a node without out-edges hides nothing and
      shows nothing. */
  lemma {:induction false} ToggleLeafKeepsHidden(edges: seq<Edge>, collapsed: Flags, c: string)
    requires Children(edges, c) == []
    ensures Hidden(edges, Toggle(collapsed, c)) == Hidden(edges, collapsed)
  {
    LeafBelowEmpty(edges, c);
    var toggled := Toggle(collapsed, c);
    forall n ensures n in Hidden(edges, toggled) <==> n in Hidden(edges, collapsed) {
      HiddenIff(edges, toggled, n);
      HiddenIff(edges, collapsed, n);
      if d :| Flag(toggled, d) && Reaches(edges, d, n) {
        assert d != c && Flag(collapsed, d);
      }
      if d :| Flag(collapsed, d) && Reaches(edges, d, n) {
        assert d != c && Flag(toggled, d);
      }
    }
  }

  /** With no flag set nothing is hidden. */
  lemma {:induction false} NothingCollapsed(edges: seq<Edge>, collapsed: Flags)
    requires forall c :: !Flag(collapsed, c)
    ensures Hidden(edges, collapsed) == {}
  {
    forall n ensures n !in Hidden(edges, collapsed) {
      HiddenIff(edges, collapsed, n);
    }
  }

  /** Collapsing an id hides every descendant of it. */
  lemma {:induction false} CollapsedHidesBelow(edges: seq<Edge>, collapsed: Flags, c: string)
    requires Flag(collapsed, c)
    ensures Below(edges, c) <= Hidden(edges, collapsed)
  {
    forall n | n in Below(edges, c) ensures n in Hidden(edges, collapsed) {
      HiddenIff(edges, collapsed, n);
    }
  }

  /** Clicking a node never hides or shows that node itself, as long as no
      cycle passes through it. */
  lemma {:induction false} ToggleKeepsSelf(edges: seq<Edge>, collapsed: Flags, c: string)
    requires !Reaches(edges, c, c)
    ensures c in Hidden(edges, Toggle(collapsed, c)) <==> c in Hidden(edges, collapsed)
  {
    var toggled := Toggle(collapsed, c);
    HiddenIff(edges, toggled, c);
    HiddenIff(edges, collapsed, c);
    if d :| Flag(toggled, d) && Reaches(edges, d, c) {
      assert d != c && Flag(collapsed, d);
    }
    if d :| Flag(collapsed, d) && Reaches(edges, d, c) {
      assert d != c && Flag(toggled, d);
    }
  }
}
