# Graph visibility and simplification, in Dafny

This project models the client-side engine of a JSON graph visualiser. The engine
takes the node/edge graph built from a JSON document and a map of collapse
flags, and computes what the renderer is given:

- the nodes that stay visible, each with its collapse flag and an edge list;
- the edges that stay visible.

It also models the label logic, and how each node decides whether it can be
clicked and what it shows. The sources are `client/src/components/GraphResult.tsx`
and `client/src/components/CollapsibleNode.tsx`.

Modules, in dependency order:

- `Optional` and `Sequences`: an `Option` type; subsequences (`SubseqOf`); and
  `Distinct`, the iteration order of a JavaScript `Set` built from a list.
- `Labels`: `cleanLabel` (defined twice in the source, identically, at
  `GraphResult.tsx:7-26` and `CollapsibleNode.tsx:13-32`; modelled once as
  `CleanLabel`), its steps (`KeepAfterLast`, `RemoveValueEnding`,
  `DropTrailingDash`, `StripIndexes`, `Trim`), the `/\[\d+\]$/` test
  (`EndsWithIndex`) and `getArrayIndexLabel` (`ArrayIndexLabel`).
  `LabelProperties` holds the lemmas about them.
- `GraphModel`: nodes, edges, `getChildren`, `getParent` and `handleToggle`.
  `GraphProperties` holds lemmas about toggling.
- `Collapse`: `hideRecursive` and the loop over the collapse flags, as
  methods. They are proved against `Hidden`, the set of nodes reached by one or
  more edges from an id whose flag is `true`. `CollapseProperties` holds the
  lemmas about the hidden set.
- `Elision`: the wrapper test (`IsWrapper`), `nodesToFilter` (`FilteredIds`)
  and the rewiring loop. The loop is a method proved against the left fold
  `RewireFold`. `ElisionProperties` holds the lemmas about them.
- `Resolver`: the whole `useMemo` body as the method `Resolve`, proved against
  the specification functions `VisibleNodes` and `VisibleEdges`.
  `ResolverProperties` holds the lemmas about what is shown.
- `NodeView`: `hasChildren`, `displayLabel`, and the click, `aria-label` and
  `+`/`-` choices of `CollapsibleNode`.

JavaScript semantics the model follows:

- `split(c).pop()` keeps the text after the last `c`.
- `replace("-value", "")` removes the first occurrence, wherever it is.
- `/\[\d+\]/g` is one left-to-right pass over the text.
- `trim()` removes the ECMAScript white space and line terminator characters.
- In `^(.*)\[(\d+)\]$`, `.` does not match a line terminator.
- `parseInt` of a digit string is an unbounded natural number.
- `Object.fromEntries` keeps the last node with a given id.
- A `Set` keeps the first occurrence of each id.
- `!parentId` treats the empty id as no parent.
- The `displayLabel` fallback is taken only on a falsy (absent or empty) label.
- `!!collapsed[id]` reads an absent key as `false`.

## Model

| member | source | states |
|---|---|---|
| `Labels.IndexOf` | client/src/components/GraphResult.tsx:13 | the first position at or after `from` where the pattern occurs, or none when it occurs nowhere there |
| `Labels.AfterLast` | client/src/components/GraphResult.tsx:10 | `split(c).pop()`: a suffix of the text without `c`, starting right after the last `c`; the whole text when there is no `c` |
| `Labels.KeepAfterLast` | client/src/components/GraphResult.tsx:18-23 | the guarded cut after the last separator leaves no separator and only deletes characters; `KeepAfterLastSuffix` states it is the suffix after the last separator, and the whole text when there is none |
| `Labels.RemoveValueEnding` | client/src/components/GraphResult.tsx:12-14 | on a `-value` ending, the result is the text with its FIRST `-value` occurrence cut out (six characters fewer); otherwise the text is unchanged |
| `Labels.DropTrailingDash` | client/src/components/GraphResult.tsx:15-17 | exactly one character is deleted when the text ends with `-`, none otherwise; `DropTrailingDashExact` states the deleted character is that final `-` |
| `Labels.TrimStart` | client/src/components/GraphResult.tsx:25 | removes the leading white space and nothing more |
| `Labels.TrimEnd` | client/src/components/GraphResult.tsx:25 | removes the trailing white space and nothing more |
| `Labels.Trim` | client/src/components/GraphResult.tsx:25 | the result only deletes characters and neither starts nor ends with white space; `TrimIsSlice` states it is one contiguous slice with only white space outside it |
| `Labels.LeadingDigits` | client/src/components/GraphResult.tsx:24 | the length of the longest run of digits at the start of the text |
| `Labels.IndexTokenAt` | client/src/components/GraphResult.tsx:24 | a non-zero result is the length of a `[digits]` match at the start of the text, and 0 means no `[digits]` match starts it |
| `Labels.TrailingDigits` | client/src/components/CollapsibleNode.tsx:35 | the length of the longest run of digits at the end of the text |
| `Labels.IndexSuffixStart` | client/src/components/CollapsibleNode.tsx:35 | a position it returns is where a `[digits]` ending starts |
| `Labels.DigitChar` | client/src/components/CollapsibleNode.tsx:37 | the digit character whose value is `d` |
| `Labels.NatToDecimal` | client/src/components/CollapsibleNode.tsx:37 | the decimal text of a number is non-empty, all digits and has no leading zero |
| `Labels.StripIndexes` | client/src/components/GraphResult.tsx:24 | the global replace as one left-to-right pass; the `StripIndexes*` lemmas state what it deletes, and `StripIndexesNoToken` that text in which no `[digits]` match starts is kept |
| `Labels.CleanLabel` | client/src/components/GraphResult.tsx:7-26 | the seven steps in the code's order; `CleanLabelShape`, `CleanLabelPlain` and the examples below state what it does |
| `Labels.EndsWithIndex` | client/src/components/GraphResult.tsx:70 | the test `/\[\d+\]$/`; `EndsWithIndexIff` states it in both directions |
| `Labels.DecimalValue` | client/src/components/CollapsibleNode.tsx:37 | `parseInt(digits, 10)`; `DecimalRoundTrip` and `LeadingZeroIgnored` state its value |
| `Labels.IndexedLabel` | client/src/components/CollapsibleNode.tsx:37 | the array label is never empty and always holds a space |
| `Labels.ArrayIndexLabel` | client/src/components/CollapsibleNode.tsx:34-40 | a label it returns is never empty and always holds a space, so the fallback to the cleaned label on line 50 never replaces it |
| `LabelProperties.TrimIsSlice` | client/src/components/GraphResult.tsx:25 | `trim` keeps one contiguous slice of the text, and every character it removes, at either end, is white space |
| `LabelProperties.KeepAfterLastSuffix` | client/src/components/GraphResult.tsx:18-23 | the cut keeps exactly the suffix after the last separator, which precedes it, and the whole text when the separator is absent |
| `LabelProperties.DropTrailingDashExact` | client/src/components/GraphResult.tsx:15-17 | on a trailing `-` the result plus `-` is the input; otherwise the input is unchanged |
| `LabelProperties.StripIndexesSubseq` | client/src/components/GraphResult.tsx:24 | deleting the `[digits]` matches only deletes characters |
| `LabelProperties.StripIndexesNoBracket` | client/src/components/GraphResult.tsx:24 | text without `[` is left alone |
| `LabelProperties.StripIndexesNoToken` | client/src/components/GraphResult.tsx:24 | text in which no `[digits]` match starts anywhere, such as `a[b`, is left alone |
| `LabelProperties.StripIndexesTokenFirst` | client/src/components/GraphResult.tsx:24 | a `[digits]` token at the start is deleted |
| `LabelProperties.StripIndexesSplit` | client/src/components/GraphResult.tsx:24 | a `[digits]` token anywhere is deleted, and the text on each side of it is cleaned independently |
| `LabelProperties.StripIndexesEveryOccurrence` | client/src/components/GraphResult.tsx:24 | the pass is global: `a[1]b[22]` becomes `ab` |
| `LabelProperties.CleanLabelSubseq` | client/src/components/GraphResult.tsx:7-26 | `cleanLabel` only deletes characters, so it never lengthens its input |
| `LabelProperties.CleanLabelNoEquals` | client/src/components/GraphResult.tsx:9-11 | no `=` survives `cleanLabel` |
| `LabelProperties.CleanLabelNoPathSeparators` | client/src/components/GraphResult.tsx:18-23 | no `/` and no `.` survives `cleanLabel` |
| `LabelProperties.CleanLabelShape` | client/src/components/GraphResult.tsx:7-26 | `cleanLabel` is total, only deletes characters, removes every `=`, `/` and `.`, and leaves no white space at either end |
| `LabelProperties.CleanLabelWithoutMarkers` | client/src/components/GraphResult.tsx:7-26 | without `=`, `/`, `.` and the two endings, only the index deletion and the trim act |
| `LabelProperties.CleanLabelPlain` | client/src/components/GraphResult.tsx:7-26 | a trimmed name with no marker is its own cleaned label |
| `LabelProperties.CleanLabelValueEnding` | client/src/components/GraphResult.tsx:12-14 | on a `-value` ending with no other marker, the label is the trimmed, index-free text after the `-value` removal |
| `LabelProperties.CleanLabelRemovesFirstValue` | client/src/components/GraphResult.tsx:12-14 | the `-value` step removes the first occurrence: `a-value-b-value` becomes `a-b-value` |
| `LabelProperties.CleanLabelTrimExposesValue` | client/src/components/GraphResult.tsx:12-25 | `cleanLabel` is not idempotent: `"foo-value "` gives `foo-value`, which gives `foo` |
| `LabelProperties.CleanLabelNestedIndex` | client/src/components/GraphResult.tsx:24 | `cleanLabel` is not idempotent: `[[1]2]` gives `[2]`, which gives the empty label |
| `LabelProperties.IndexSuffixStartExact` | client/src/components/CollapsibleNode.tsx:35 | a `[digits]` ending is found, and at the only position where it can start |
| `LabelProperties.EndsWithIndexIff` | client/src/components/GraphResult.tsx:70 | `/\[\d+\]$/.test(s)` holds exactly when `s` ends with `[`, one or more digits and `]` |
| `LabelProperties.ArrayIndexLabelIff` | client/src/components/CollapsibleNode.tsx:34-40 | a label is returned exactly when the text ends with `[digits]` and the text before that has no line terminator |
| `LabelProperties.ArrayIndexLabelAt` | client/src/components/CollapsibleNode.tsx:35-37 | for `prefix[digits]`, the label is the cleaned prefix, a space, and the parsed digits plus one |
| `LabelProperties.DecimalRoundTrip` | client/src/components/CollapsibleNode.tsx:37 | parsing the printed decimal text of a number gives that number back |
| `LabelProperties.LeadingZeroIgnored` | client/src/components/CollapsibleNode.tsx:37 | `parseInt` ignores a leading zero |
| `LabelProperties.IndexedLabelLeadingZero` | client/src/components/CollapsibleNode.tsx:37 | `a[007]` is shown with the same index as `a[7]` |
| `GraphModel.Children` | client/src/components/GraphResult.tsx:32 | `c` is a child exactly when some edge leads from `id` to `c` |
| `GraphModel.Parent` | client/src/components/GraphResult.tsx:33-36 | none exactly when no edge targets `id`; otherwise the source of the first edge that does |
| `GraphModel.Toggle` | client/src/components/GraphResult.tsx:43-45 | the key is added, its flag is negated, and every other entry is unchanged |
| `GraphModel.Flag` | client/src/components/GraphResult.tsx:104 | `!!collapsed[id]`, with an absent key read as `false`; `ToggleFlags` and `ToggleTwice` state how a click changes it |
| `GraphProperties.ToggleFlags` | client/src/components/GraphResult.tsx:44 | toggling changes the flag of `id` and no other flag; an absent key becomes `true` |
| `GraphProperties.ToggleTwice` | client/src/components/GraphResult.tsx:44 | toggling twice restores every flag, and leaves the key present |
| `GraphProperties.ChildrenConcat` | client/src/components/GraphResult.tsx:32 | `getChildren` keeps edge order: it distributes over concatenation |
| `Collapse.Hidden` | client/src/components/GraphResult.tsx:48-58 | every node reached by one or more edges from an id whose flag is `true`; `HideCollapsed` computes it and `HiddenIff` states it |
| `Collapse.BelowSplit` | client/src/components/GraphResult.tsx:50-54 | the descendants of an id are its children and their descendants |
| `Collapse.ChildBelow` | client/src/components/GraphResult.tsx:49-55 | a child of an acyclic id is acyclic and has strictly fewer descendants, so the recursion ends |
| `Collapse.HiddenByAdd` | client/src/components/GraphResult.tsx:56-58 | each `true` flag adds exactly the descendants of its id, and a `false` flag adds nothing |
| `Collapse.HideRecursive` | client/src/components/GraphResult.tsx:49-55 | `hideRecursive(id)` adds exactly the descendants of `id` to the hidden set |
| `Collapse.HideCollapsed` | client/src/components/GraphResult.tsx:48-58 | the hidden set is exactly what the `true` flags hide, whatever order the entries come in |
| `CollapseProperties.HiddenIff` | client/src/components/GraphResult.tsx:48-58 | a node is hidden exactly when it is reached by one or more edges from an id whose flag is `true` |
| `CollapseProperties.CollapsedHiddenIff` | client/src/components/GraphResult.tsx:48-58 | a collapsed node is itself hidden exactly when another collapsed node lies above it |
| `CollapseProperties.LeafBelowEmpty` | client/src/components/GraphResult.tsx:50-51 | a node without out-edges has no descendants |
| `CollapseProperties.ToggleLeafKeepsHidden` | client/src/components/GraphResult.tsx:43-58 | toggling a node without out-edges leaves the hidden set unchanged |
| `CollapseProperties.NothingCollapsed` | client/src/components/GraphResult.tsx:56-58 | with no flag set, nothing is hidden |
| `CollapseProperties.CollapsedHidesBelow` | client/src/components/GraphResult.tsx:56-57 | collapsing an id hides every descendant of it |
| `CollapseProperties.ToggleKeepsSelf` | client/src/components/GraphResult.tsx:43-58 | clicking a node never hides or shows the node itself, when no cycle passes through it |
| `Sequences.Distinct` | client/src/components/GraphResult.tsx:61-81 | the `Set` holds each element once, and exactly the elements of the list; of two elements, the earlier one occurs in the list before any occurrence of the later one |
| `Elision.NodeById` | client/src/components/GraphResult.tsx:60 | `nodeMap[id]` is none exactly when no node has the id; otherwise it is the last node with the id |
| `Elision.TruthyParent` | client/src/components/GraphResult.tsx:64-65 | the parent passes `!parentId` exactly when it exists and is not the empty id |
| `Elision.IdsWhere` | client/src/components/GraphResult.tsx:62-80 | `filter(keep).map(n => n.id)` holds exactly the ids of the nodes that are kept; its order is stated by `IdsWhereConcat` and `IdsWherePosition` |
| `Elision.IsWrapper` | client/src/components/GraphResult.tsx:63-79 | the filter callback, tested in the code's order; `WrapperByLabel` and `FilteredConditions` state when it holds |
| `Elision.FilteredIds` | client/src/components/GraphResult.tsx:61-81 | `nodesToFilter` in visiting order; `FilteredIff`, `FilteredOnce` and `FilteredInNodeOrder` state its members, their uniqueness and their node order |
| `Elision.Bridge` | client/src/components/GraphResult.tsx:90-94 | the pushed edge `e-p-c` from `p` to `c`; `RewireShape` states that only such edges are added |
| `Elision.RewireStep` | client/src/components/GraphResult.tsx:85-95 | one `forEach` pass: parent and children from the original edges, removal from the current list; `RewireStepClears` states that the id is gone afterwards |
| `Elision.RewireFold` | client/src/components/GraphResult.tsx:84-96 | the `forEach` as a left fold over `nodesToFilter`; `RewireShape`, `RewireKeepsUntouched` and `RewireIdle` state its result |
| `Elision.Avoid` | client/src/components/GraphResult.tsx:88 | keeps exactly the edges that touch none of the ids, in order |
| `Elision.Bridges` | client/src/components/GraphResult.tsx:89-95 | one edge `e-p-c` from the parent to each child, in child order |
| `Elision.PushBridges` | client/src/components/GraphResult.tsx:89-95 | the loop appends the bridges after the current edges |
| `Elision.Rewire` | client/src/components/GraphResult.tsx:83-96 | the loop computes the left fold of the rewiring step over `nodesToFilter` |
| `ElisionProperties.FilteredIff` | client/src/components/GraphResult.tsx:61-81 | an id is filtered exactly when some node with that id is a wrapper |
| `ElisionProperties.FilteredOnce` | client/src/components/GraphResult.tsx:61-81 | the `forEach` visits each filtered id once |
| `ElisionProperties.IdsWhereConcat` | client/src/components/GraphResult.tsx:62-80 | `filter(keep).map(n => n.id)` keeps node order: it distributes over concatenation, and one node gives its id exactly when it is kept |
| `ElisionProperties.IdsWherePosition` | client/src/components/GraphResult.tsx:62-80 | the id at each position comes from a kept node, and the nodes before it give exactly the ids before that position |
| `ElisionProperties.KeptInOrder` | client/src/components/GraphResult.tsx:61-81 | of two ids of the deduplicated list, the earlier belongs to a kept node before every kept node with the later id |
| `ElisionProperties.FilteredInNodeOrder` | client/src/components/GraphResult.tsx:61-84 | the `forEach` visits the wrappers in node order: the id visited first belongs to a wrapper before every wrapper with the other id |
| `ElisionProperties.FilteredConditions` | client/src/components/GraphResult.tsx:63-79 | a filtered id has a non-empty parent that is a node, is neither an array element nor a `-value` entry, has no array-element child, and has its parent's cleaned label |
| `ElisionProperties.WrapperByLabel` | client/src/components/GraphResult.tsx:63-79 | once those structural checks pass, a node is a wrapper exactly when its cleaned label equals its parent's |
| `ElisionProperties.AvoidNothing` | client/src/components/GraphResult.tsx:88 | filtering on no id keeps the whole list |
| `ElisionProperties.AvoidConcat` | client/src/components/GraphResult.tsx:88 | the filter distributes over concatenation |
| `ElisionProperties.AvoidAvoid` | client/src/components/GraphResult.tsx:88 | two successive filters are one filter on the union of the ids |
| `ElisionProperties.AvoidFewer` | client/src/components/GraphResult.tsx:88 | filtering on fewer ids keeps more edges, in the same order |
| `ElisionProperties.RewireShape` | client/src/components/GraphResult.tsx:83-96 | the rewired list is the input minus the edges touching an acting wrapper, in input order, followed by bridges only, each from a wrapper's first parent to one of its original children |
| `ElisionProperties.RewireKeepsUntouched` | client/src/components/GraphResult.tsx:83-96 | every input edge that touches no filtered id survives, in input order |
| `ElisionProperties.RewireIdle` | client/src/components/GraphResult.tsx:84-86 | when no filtered id has a non-empty parent, the edges are left as they are |
| `ElisionProperties.RewireStepClears` | client/src/components/GraphResult.tsx:85-95 | provided the original edges hold no edge from the filtered id to itself, right after its own step no edge has that id as source or target |
| `ElisionProperties.ChainRewire` | client/src/components/GraphResult.tsx:83-96 | on `a->b->c->d` with `b`, `c` filtered in that order, only `b->d` is left: the step for `c` re-reads `c`'s original parent `b` |
| `ElisionProperties.ChainRewireReversed` | client/src/components/GraphResult.tsx:83-96 | in the order `c`, `b`, only `a->c` is left, an edge to a filtered node |
| `Resolver.KeptNodes` | client/src/components/GraphResult.tsx:98 | keeps exactly the nodes whose id is not dropped, in input order; `KeptNodesCount` states that every copy of a kept node survives |
| `Resolver.Present` | client/src/components/GraphResult.tsx:100-115 | one renderer node per kept node, with its id, its label, `!!collapsed[id]` and the rewired edges |
| `Resolver.VisibleNodes` | client/src/components/GraphResult.tsx:98-115 | the nodes neither filtered nor hidden, in input order; `VisibleNodeIff`, `VisibleNodeFields`, `VisibleNodesInOrder` and `VisibleNodeCount` state it, the last one including how many copies of a repeated node are shown |
| `Resolver.VisibleEdges` | client/src/components/GraphResult.tsx:117-123 | the rewired edges with neither end hidden; `VisibleEdgesShape` and `UntouchedEdgesVisible` state it |
| `Resolver.Resolve` | client/src/components/GraphResult.tsx:47-126 | the `useMemo` body computes the visible nodes and edges that the specification functions define |
| `ResolverProperties.VisibleNodeIff` | client/src/components/GraphResult.tsx:98-115 | an input node is shown exactly when its id is neither filtered nor hidden |
| `ResolverProperties.VisibleNodeFields` | client/src/components/GraphResult.tsx:98-115 | a shown node comes from the input, is neither filtered nor hidden, and carries its own flag and the whole rewired list |
| `ResolverProperties.KeptNodesCount` | client/src/components/GraphResult.tsx:98 | the filter keeps a node as many times as it occurs when its id is not dropped, and never otherwise |
| `ResolverProperties.VisibleNodeCount` | client/src/components/GraphResult.tsx:98-115 | a node neither filtered nor hidden is shown as many times as it occurs in the input, and any other node never |
| `ResolverProperties.VisibleNodesInOrder` | client/src/components/GraphResult.tsx:98-100 | the shown nodes keep the input order |
| `ResolverProperties.VisibleEdgesShape` | client/src/components/GraphResult.tsx:83-118 | the shown edges are the input edges touching no acting wrapper and no hidden node, in input order, followed only by bridges with neither end hidden |
| `ResolverProperties.UntouchedEdgesVisible` | client/src/components/GraphResult.tsx:83-118 | every input edge touching no filtered and no hidden node is shown, in input order |
| `ResolverProperties.ShownNodeKeepsOutEdges` | client/src/components/GraphResult.tsx:98-114 | a shown node carries every input out-edge to an unfiltered node, even while collapsed |
| `ResolverProperties.ChainRootKept` | client/src/components/GraphResult.tsx:64-65 | the chain's root `a`, which has no parent, is not a wrapper |
| `ResolverProperties.ChainInnerWrappers` | client/src/components/GraphResult.tsx:63-79 | along a plain chain, each inner node is a wrapper exactly when its cleaned label equals its parent's |
| `ResolverProperties.ChainFiltered` | client/src/components/GraphResult.tsx:61-81 | in the four-node chain, `nodesToFilter` is `[b, c]` |
| `ResolverProperties.ChainRewired` | client/src/components/GraphResult.tsx:83-96 | in that chain, the rewired list is only `b->d` |
| `ResolverProperties.ChainVisibleEdges` | client/src/components/GraphResult.tsx:117-118 | with nothing collapsed, the only shown edge is `b->d` |
| `ResolverProperties.ChainDisconnects` | client/src/components/GraphResult.tsx:47-126 | `a` reaches `d` in the input, and both are shown, yet the only shown edge starts at the unshown `b`: the elision leaves `a` unconnected |
| `NodeView.HasChildren` | client/src/components/CollapsibleNode.tsx:43-48 | the two branches of `hasChildren`; `HasChildrenIff` states the edge-list branch |
| `NodeView.DisplayLabel` | client/src/components/CollapsibleNode.tsx:50 | the array label, or the cleaned label when there is none; `DisplayLabelPlain` and `DisplayLabelIndexed` state both cases |
| `NodeView.NodeControls` | client/src/components/CollapsibleNode.tsx:75-84 | the click handler, `aria-label` and marker; `ClickFlipsControls` and `PlusMarkerHidesChildren` state them |
| `NodeView.HasChildrenIff` | client/src/components/CollapsibleNode.tsx:43-48 | with an edge list, `hasChildren` holds exactly when `getChildren` of that list is not empty |
| `NodeView.ShownNodeHasToggle` | client/src/components/CollapsibleNode.tsx:43-45 | a shown node with an out-edge to an unfiltered node offers its toggle, collapsed or not |
| `NodeView.DisplayLabelPlain` | client/src/components/CollapsibleNode.tsx:50 | a label without a `[digits]` ending is shown cleaned |
| `NodeView.DisplayLabelIndexed` | client/src/components/CollapsibleNode.tsx:50 | `prefix[digits]` is shown as the array label, unless the prefix holds a line terminator; then it is shown cleaned |
| `NodeView.ClickFlipsControls` | client/src/components/CollapsibleNode.tsx:75-84 | only a node with children is clickable; its click toggles its own id, which flips the marker and the `aria-label`, and a second click restores both |
| `NodeView.PlusMarkerHidesChildren` | client/src/components/CollapsibleNode.tsx:80-84 | a node showing `+` has every child and every descendant hidden |

## Where the code and its description disagree

The model follows the code in each case.

- The `-value` step is described as stripping the suffix. The code's
  `replace` removes the first occurrence instead. `CleanLabelRemovesFirstValue`
  shows `a-value-b-value` becoming `a-b-value`.
- Labelling is described as idempotent. It is not.
  `CleanLabelTrimExposesValue` shows a trim exposing a `-value` ending.
  `CleanLabelNestedIndex` shows an index deletion exposing a new `[digits]`.
- Elision is described as keeping every visible node connected.
  `ChainDisconnects` shows two chained wrappers leaving the root without an
  edge. `ChainRewireReversed` shows that, with the other visiting order, the
  surviving edge ends at a filtered node.
- The worked example for `items[2]` says `Items 3`. The code gives `items 3`,
  because `cleanLabel` does not change case. `ArrayIndexLabelAt` and
  `CleanLabelPlain` give this label for a plain prefix and one-digit index.

## Left out

- Rendering, layout, the node `position`, the `style` objects, and the
  `animated`/`style` fields added to each edge. These are cosmetic, so
  `Node`, `Edge` and `VisibleNode` keep only ids, labels, endpoints, the flag
  and the carried edge list.
- React state, `useState`, `useMemo` and `useCallback`. `handleToggle` is the
  pure map update `Toggle`. Memoisation and callback identity do not change
  any value.
- `collapsed[id]` and `nodeMap[id]` are plain object lookups. An id such as
  `toString` would find an inherited `Object.prototype` member. The model
  reads maps only.
- Numbers are unbounded and printed as exact decimals. The source's number
  arithmetic differs for large indexes, and the model does not capture that:
  `parseInt` loses precision above 2^53; from 10^21 on, the index is printed
  in exponent form such as `1e+21`; and digits whose value exceeds the largest
  double (about 1.8 times 10^308), such as a run of 309 nines, parse to
  `Infinity`, which is printed as `Infinity`.
- Strings are sequences of Unicode scalar values, one `char` each, not of
  UTF-16 code units: a surrogate pair is one `char`, and a lone surrogate
  cannot be written. No operation of the model depends on this.
- `hasChildren` is modelled for both branches. The renderer may never forward
  an `edges` prop to a custom node; then only the `-value` branch runs. That
  depends on the rendering library, which is not part of this model.
- `Collapse.HideRecursive`: requires that no cycle can be reached from the
  collapsed id. On such a cycle the source recurses without end and exhausts
  the call stack. The model does not describe that failure.
- `Collapse.HideCollapsed`: requires the same of every id whose flag is
  `true`, for the same reason.
- `Resolver.Resolve`: requires the same, because it calls `HideCollapsed`.
- The concrete label `items[2]` is not stated as its own lemma. The general
  lemmas `ArrayIndexLabelAt`, `CleanLabelPlain` and `DecimalRoundTrip` give
  `items 3` for it.
