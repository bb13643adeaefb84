/** What the two edge queries and the toggle update guarantee. */
module GraphProperties {
  import opened Optional
  import opened GraphModel

  /** Toggling changes the flag of `id` and only that flag; an absent key
      becomes `true`. */
  lemma {:induction false} ToggleFlags(collapsed: Flags, id: string, k: string)
    ensures Flag(Toggle(collapsed, id), k) == if k == id then !Flag(collapsed, id) else Flag(collapsed, k)
    ensures id !in collapsed ==> Toggle(collapsed, id)[id]
  {
  }

  /** Toggling twice restores `!!collapsed[id]`, and leaves the key present. */
  lemma {:induction false} ToggleTwice(collapsed: Flags, id: string)
    ensures Toggle(Toggle(collapsed, id), id) == collapsed[id := Flag(collapsed, id)]
    ensures forall k :: Flag(Toggle(Toggle(collapsed, id), id), k) == Flag(collapsed, k)
  {
    var once := Toggle(collapsed, id);
    var twice := Toggle(once, id);
    assert Flag(once, id) == !Flag(collapsed, id);
  }

  /** `getChildren` distributes over concatenation, so it keeps edge order. */
  lemma {:induction false} ChildrenConcat(a: seq<Edge>, b: seq<Edge>, id: string)
    ensures Children(a + b, id) == Children(a, id) + Children(b, id)
    decreases |a|
  {
    if a == [] {
      assert a + b == b;
    } else {
      assert (a + b)[1..] == a[1..] + b;
      ChildrenConcat(a[1..], b, id);
    }
  }
}
