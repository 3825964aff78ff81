# thm-ptas in Dafny

A model of the sequential core of thm-ptas, a toolkit for planar graphs and tree
decompositions, and of its web viewer. The Rust side has several parts:

- doubly connected edge lists (DCELs) and two DCEL builders;
- sub-DCELs with their vertex and arc mappings;
- the BFS spanning tree and the dual graph;
- tree decompositions: the approximate decomposition built from a DCEL, the
  conversion of a DCEL into bags, nice tree decompositions, parent/child
  relations, and BFS and post-order traversals;
- the maximum-independent-set dynamic programme on a nice tree decomposition,
  with its two dynamic tables and its subset iterator;
- an adjacency-list graph with kernelisation reductions, and the functions that
  carry an independent set back through them;
- a string serialiser for the web format.

The JavaScript viewer is modelled too: it steps through faces, bags, rings and
donuts and toggles overlays by adding and removing class names on element ids.

Every operation is a pure function or a method over immutable datatypes, with
`seq`, `set` and `map` for the collections. The Rust code panics in some places:

- where the panic is structural (an index the caller must keep in range), the
  model puts it in a `requires`;
- where it depends on the data (a missing table entry, a face walk that never
  closes), the model returns `None`.

Loops whose termination depends on the input being well formed carry an explicit
`fuel` bound.

Where the source is evidently wrong (see "## Findings"), both versions are
modelled. The operations the rest of the source calls follow the code as
written: `ApproxTds.New` and `ApproxTds.Approximate`, `NiceTds.Insert` and the
conversion built on it, `Reductions.IsolatedCliqueReductions` and
`QuickGraphs.ContractEdge`. Their corrected partners carry the intended property:
`ApproxTds.ApproximateCorrected`, `NiceTds.InsertBetweenBags`,
`Reductions.IsolatedCliqueReductionsCorrected`, `QuickGraphs.RemoveVertex` and
`QuickGraphs.ContractEdgeCorrected`.

Each module follows one source component. Names are those of the source,
written in Dafny style.

## Model

| member | source | states |
|---|---|---|
| ClassSurface.Fresh | web/static/script.js:430-478 | the surface `cytoscape` starts with holds exactly the given ids, each with no class |
| ClassSurface.AddClass | web/static/script.js:507-509 | `addClassToElement` adds the class to that id only, and leaves every id set the same |
| ClassSurface.RemoveClass | web/static/script.js:511-513 | `removeClassFromElement` removes the class from that id only |
| ClassSurface.AddClassAll | web/static/script.js:515-522 | `addClassTo` on a list adds the class exactly on the listed ids present on the surface |
| ClassSurface.RemoveClassAll | web/static/script.js:524-531 | `removeClassFrom` on a list removes the class exactly on the listed ids |
| ClassSurface.AddThenRemoveRestores | web/static/script.js:515-531 | adding a class no listed id had and then removing it gives back the same surface |
| ClassSurface.RemoveThenAddRestores | web/static/script.js:515-531 | removing a class every listed id had and then adding it gives back the same surface |
| Navigator.Initial | web/static/script.js:285-293 | the constructed component has no vertices, no arcs and no surface; its pointers and flags start at the values `load` sets (all pointers -1, only the tree decomposition visible), which makes it valid |
| Navigator.Id | web/static/script.js:249-281 | an element id starts with the kind's prefix and has at least one digit after it |
| Navigator.IdInjective | web/static/script.js:249-281 | two objects of one kind get the same id only when their numbers are equal |
| Navigator.KindsDisjoint | web/static/script.js:249-281 | `v`, `a`, `dv` and `da` ids never collide across kinds |
| Navigator.Prefixed | web/static/script.js:342-345 | mapping a prefix over a list keeps its length and prefixes every entry |
| Navigator.PrefixedDistinct | web/static/script.js:342-345 | prefixed entries are equal exactly when the original numbers are |
| Navigator.ArcOf | web/static/script.js:249-257 | a primal arc element has id `a<id>`, ends `v<source>` and `v<target>`, and keeps `is_added` |
| Navigator.DualArcOf | web/static/script.js:275-282 | a dual arc element has id `da<id>` and ends `dv<source>` and `dv<target>` |
| Navigator.GroupOf | web/static/script.js:371-390 | a ring or donut keeps its arcs as `a` ids and its vertices as `v` ids |
| Navigator.Load | web/static/script.js:330-399 | empty data changes nothing; otherwise the scene is rebuilt, every pointer is -1, MIS, spanning-tree, added-edge and donut-arc flags are off, the decomposition is visible, and well-formed data gives a valid view |
| Navigator.SceneOf | web/static/script.js:337-395 | every vertex, arc, dual vertex, dual arc, bag, face, ring, donut, tree arc and MIS vertex appears under its prefixed id, in delivery order |
| Navigator.TriangulatedEdges | web/static/script.js:419-424 | the donut's triangulated arcs become edges `ta-0`, `ta-1`, ... joining `v<src>` and `v<dst>` |
| Navigator.GetNodes | web/static/script.js:414-416 | the primal vertices followed by the dual vertices |
| Navigator.GetArcs | web/static/script.js:418-428 | primal arcs, then dual arcs, then the current donut's triangulated edges exactly when a donut is selected and those edges are shown |
| Navigator.DrawnSurface | web/static/script.js:430-485 | the drawn surface holds every node and edge id; dual vertices and dual arcs carry `td` and nothing else carries a class |
| Navigator.Draw | web/static/script.js:430-485 | nothing is drawn without vertices; drawing keeps the scene, pointers and flags; with vertices the new surface holds exactly the ids of `get_nodes` and of the edges of `get_arcs`, the dual vertices and dual arcs carry `td` alone, and every other element has no class |
| Navigator.Step | web/static/script.js:533-541 | from a pointer in [-1, max] the step stays in [-1, max]; forward from max gives -1, backward from -1 gives max, and otherwise the step is plus or minus one |
| Navigator.HighlightNext | web/static/script.js:533-546 | the new pointer is `Step`; the lowlight callback runs exactly for the old pointer when it is at least 0, the highlight callback exactly for the new one when it is at least 0, and lowlight runs first |
| Navigator.EmptyCollectionStep | web/static/script.js:533-546 | with an empty collection the pointer stays -1 in both directions and no callback runs |
| Navigator.StepInverse | web/static/script.js:533-541 | a step forward and a step back cancel, in either order |
| Navigator.StepUpN | web/static/script.js:533-541 | below max, n forward steps add n |
| Navigator.StepDownN | web/static/script.js:533-541 | above -1, n backward steps subtract n |
| Navigator.StepNAdd | web/static/script.js:533-541 | m steps followed by n steps in the same direction equal m + n steps |
| Navigator.FullCycle | web/static/script.js:533-541 | max + 2 steps in one direction come back to the start |
| Navigator.HighlightFace | web/static/script.js:605-614 | `highlightFace` swaps `td` for `highlighted` on the face's dual vertex and adds `highlighted` to its arcs and vertices, leaving other ids alone |
| Navigator.LowlightFace | web/static/script.js:601-603 | `lowlightFace` removes `highlighted` from the dual vertex, arcs and vertices and puts `td` back on the dual vertex |
| Navigator.HighlightBag | web/static/script.js:573-580 | `highlightBag` adds `bag` to the bag's vertices and swaps `td` for `bag` on its dual vertex |
| Navigator.LowlightBag | web/static/script.js:581-587 | `lowlightBag` removes `bag` from those ids and puts `td` back on the dual vertex |
| Navigator.HighlightGroup | web/static/script.js:691-701 | ring and donut highlighting adds `blue` or `red` exactly on the group's arc and vertex ids |
| Navigator.LowlightGroup | web/static/script.js:703-713 | ring and donut lowlighting removes that class exactly on the group's ids |
| Navigator.HighlightFaceEffects | web/static/script.js:609-614 | only `td` and `highlighted` change, only on the face's ids, every face id ends highlighted, and the dual vertex loses `td` |
| Navigator.LowlightFaceEffects | web/static/script.js:616-621 | only `td` and `highlighted` change, every face id ends unhighlighted, and the dual vertex carries `td` |
| Navigator.HighlightBagEffects | web/static/script.js:573-580 | only `td` and `bag` change, every bag id ends with `bag`, and the dual vertex loses `td` |
| Navigator.LowlightBagEffects | web/static/script.js:581-587 | only `td` and `bag` change, every bag id ends without `bag`, and the dual vertex carries `td` |
| Navigator.HighlightGroupEffects | web/static/script.js:691-701 | only the group's class changes, and it ends on every group id |
| Navigator.LowlightGroupEffects | web/static/script.js:703-713 | only the group's class changes, and it ends off every group id |
| Navigator.Highlight | web/static/script.js:573-614 | the highlight callback of each kind changes only its own classes on its own ids and leaves the item shown lit |
| Navigator.Lowlight | web/static/script.js:573-621 | the lowlight callback of each kind changes only its own classes on its own ids and leaves the item shown plain |
| Navigator.HighlightLowlightRestores | web/static/script.js:573-621 | on a plainly shown item, highlighting then lowlighting restores every class set on the surface |
| Navigator.FaceRestores | web/static/script.js:609-621 | `highlightFace` then `lowlightFace` restores the surface when the face ids are unhighlighted and the dual vertex carries `td` |
| Navigator.BagRestores | web/static/script.js:573-587 | `highlightBag` then `lowlightBag` restores the surface under the same condition for `bag` |
| Navigator.GroupRestores | web/static/script.js:691-754 | ring or donut highlight then lowlight restores the surface when the group's ids lack the class |
| Navigator.ApplyCall | web/static/script.js:543-544 | one callback changes only its kind's classes and leaves the named item lit or plain as it says |
| Navigator.ApplyCallsEndsLit | web/static/script.js:543-544 | because highlight runs last, the new item ends fully highlighted even where it shares ids with the old one |
| Navigator.CallsFit | web/static/script.js:548-557 | every item a step's callbacks name exists in its collection |
| Navigator.HighlightNextOf | web/static/script.js:548-557 | `highlightNextBag`, `highlightNextFace`, `highlightNextRing` and `highlightNextDonut` move only their own pointer by `Step` and change only their own classes |
| Navigator.StepLightsNewItem | web/static/script.js:548-557 | after a step the newly selected item is shown lit |
| Navigator.AddedArcIds | web/static/script.js:623-639 | the ids `showAdditionalEdges` touches are exactly the arcs flagged `is_added` |
| Navigator.ToggleMIS | web/static/script.js:560-571 | flips its flag and afterwards exactly the MIS vertices carry `yellow` when it is on and none do when it is off; nothing else changes |
| Navigator.ToggleAdditionalEdges | web/static/script.js:623-650 | flips its flag; `green` is on exactly the added arcs when it is on and on none of them when it is off; nothing else changes |
| Navigator.ToggleSpanningTree | web/static/script.js:652-668 | flips its flag; `spanning-tree` follows the flag on the tree arcs; nothing else changes |
| Navigator.ToggleTD | web/static/script.js:670-689 | flips its flag; `invisible` is on the dual vertices exactly when the decomposition is hidden; nothing else changes |
| Navigator.ToggleTwiceRestores | web/static/script.js:560-689 | every toggle applied twice gives back the same view |
| Navigator.ParseEvent | web/static/script.js:306-328 | the message table: each of the twelve `data` strings maps to its event and back (`NEXT_FACE` exactly to a forward face step, `TOGGLE_ADDITIONAL_EDGES` exactly to the added-arc toggle, and so on), so any other string is unknown |
| Navigator.Dispatch | web/static/script.js:307-327 | each event has its case's effect on a drawn view: a step moves only its kind's pointer by one in its direction and touches only that kind's classes; a toggle flips only its flag and puts its class on its elements exactly when the flag says so; an unknown event changes nothing |
| Navigator.HandleEvent | web/static/script.js:306-328 | events that arrive before the first draw change nothing; on a drawn view the message data selects the event of the table and the view performs exactly that event's effect |
| Navigator.StepKeepsOverlays | web/static/script.js:533-557 | stepping keeps every overlay class in agreement with its flag |
| Navigator.TogglesKeepOverlays | web/static/script.js:560-689 | each toggle keeps every overlay in agreement with its flag |
| Navigator.EventKeepsOverlays | web/static/script.js:306-328 | every event keeps the overlays in agreement with their flags |
| Navigator.FreshSurfaceIsPlain | web/static/script.js:430-485 | a freshly drawn view has no item lit and every overlay agrees with its flag |
| Navigator.Reload | web/static/script.js:299-304 | a graph update loads and draws: with well-formed data the view is valid, all pointers are -1, nothing is highlighted and the overlays agree with their flags |
| MisSizes.Add | src/graph/mis_finder.rs:29-41 | the sum is `Invalid` exactly when either side is, and otherwise adds the sizes |
| MisSizes.Sub | src/graph/mis_finder.rs:43-55 | the difference is `Invalid` exactly when either side is, and otherwise adding back the right size gives the left one; a valid difference needs `l >= r` because the source subtracts machine words |
| MisSizes.Cmp | src/graph/mis_finder.rs:18-22 | the derived order: `Invalid` below every valid size, valid sizes by value, equal only when identical |
| MisSizes.MaxBy | src/graph/mis_finder.rs:261 | `max_by` returns one of its arguments, no smaller than either, and the second one unless the first is strictly greater |
| MisSizes.Display | src/graph/mis_finder.rs:57-64 | only `Invalid` prints with a leading minus sign |
| MisSizes.InvalidAbsorbs | src/graph/mis_finder.rs:29-55 | `Invalid` absorbs on both sides of `+` and `-` |
| MisSizes.InvalidIsBottom | src/graph/mis_finder.rs:18-22 | `Invalid` is at most every size and strictly below every valid one |
| MisSizes.CmpFlip | src/graph/mis_finder.rs:18-22 | the order is antisymmetric and total |
| MisSizes.LeTransitive | src/graph/mis_finder.rs:18-22 | the order is transitive |
| MisSizes.AddSubCancel | src/graph/mis_finder.rs:29-55 | subtracting what was added gives back the original size |
| MisSizes.AddCommutes | src/graph/mis_finder.rs:29-41 | addition commutes |
| MisSizes.AddMonotone | src/graph/mis_finder.rs:29-41 | adding the same size keeps the order |
| MisSizes.DisplayInjective | src/graph/mis_finder.rs:57-64 | different sizes print differently |
| MisFinder.IsIndependent | src/graph/mis_finder.rs:85-87 | `is_independent(adj, v, S)` holds exactly when no `u` in `S` has `adj[v][u]`; it is `None` only where the matrix index would panic |
| MisFinder.IntroduceItem | src/graph/mis_finder.rs:218-240 | introducing `v`: a subset without `v` copies the child's entry; an independent subset with `v` takes the child's `S \ {v}` entry plus one; a dependent one is `Invalid` with no pointers; the entry is missing where the child's lookup is |
| MisFinder.ForgetItem | src/graph/mis_finder.rs:243-263 | forgetting `v`: the size is the larger of the child's sizes for `S` and `S + {v}`, and the back-link names the child item that size came from |
| MisFinder.JoinItem | src/graph/mis_finder.rs:268-285 | joining: the size is left(S) + right(S) minus the size of S, `Invalid` when either side is, the pointers are the two child indices, and the entry is missing exactly when a valid sum is below the size of S (where the source's subtraction panics) |
| MisFinder.LeafEntry | src/graph/mis_finder.rs:197-205 | a leaf bag gets exactly two entries, the empty set at size 0 and the bag's set at size 1 |
| MisFinder.Subsets | src/graph/mis_finder.rs:217-272 | the subsets enumerated for a bag lie in the bag and include every subset of it |
| MisFinder.RuleEntry | src/graph/mis_finder.rs:217-284 | a bag's entry is defined exactly when every subset's rule is; it then has one item per subset of the bag, each the rule's item for that subset |
| MisFinder.NodeOf | src/graph/mis_finder.rs:192-246 | a bag is a leaf exactly when it has no children; an introduce, forget or join names the child bags and the vertex introduced or forgotten; one child with the same set is its own case |
| MisFinder.BagEntry | src/graph/mis_finder.rs:192-289 | the entry added for one bag: the leaf entry, nothing for a single child with the same set, otherwise the rule's entry; every item's set lies in the bag |
| MisFinder.BuildTables | src/graph/mis_finder.rs:192-289 | filling the table in post order keeps the construction table's length and gives every visited bag an entry |
| MisFinder.IntroduceSound | src/graph/mis_finder.rs:218-240 | a valid introduced item is an independent set no larger than its size promises, given a sound child table |
| MisFinder.ForgetSound | src/graph/mis_finder.rs:243-263 | forgetting keeps the table sound |
| MisFinder.JoinSound | src/graph/mis_finder.rs:268-285 | on a sound table the join's subtraction never underflows, and the item stays sound |
| MisFinder.BagEntrySound | src/graph/mis_finder.rs:192-289 | every item added for a bag is sound when the leaves hold at most one vertex |
| MisFinder.BuildTablesSound | src/graph/mis_finder.rs:192-289 | the whole table stays sound |
| MisFinder.BagEntryCovers | src/graph/mis_finder.rs:192-289 | when the children's entries cover their bags, a bag's entry exists and has an item for every subset of the bag |
| MisFinder.ItemDefined | src/graph/mis_finder.rs:217-284 | with the children covered, each rule is defined on every subset of the bag |
| MisFinder.BuildTablesWithin | src/graph/mis_finder.rs:192-289 | every set in the table lies in some bag |
| MisFinder.Reconstruct | src/graph/mis_finder.rs:98-156 | the walk returns a set containing the starting set and the item's set, and everything in it comes from the table |
| MisFinder.PostOrder | src/graph/mis_finder.rs:193 | the bags come in post order: in range, each once, the root last |
| MisFinder.FindMis | src/graph/mis_finder.rs:181-303 | the result pairs a set with its cardinality, needs a root, and every member of the set lies in some bag |
| DynTables.AddItem | src/graph/dyn_table/dt_normal.rs:60-62 | `DynTableValue::add` appends the item after the existing ones |
| DynTables.FindChildSize | src/graph/dyn_table/dt_normal.rs:118-126 | `find_child_size` returns the first index whose stored set equals the query, with its size; it is `None` (the source's panic) exactly when no stored set matches |
| DynTables.NormalGet | src/graph/dyn_table/dt_normal.rs:14-17 | `get` returns an index whose item holds the query set and the returned size, and succeeds whenever the bag has the set |
| DynTables.NormalGetByIndex | src/graph/dyn_table/dt_normal.rs:19-22 | `get_by_index` succeeds exactly for a stored bag and an index in range, and returns that item's set and size |
| DynTables.NormalPut | src/graph/dyn_table/dt_normal.rs:34-42 | `put` creates the bag's entry if missing, appends the item at its end, and leaves every other bag alone |
| DynTables.MaxIndex | src/graph/dyn_table/dt_normal.rs:24-32 | `max_by` over the entry gives an index of maximal size and the last one on ties |
| DynTables.NormalMaxRootSetIndex | src/graph/dyn_table/dt_normal.rs:24-32 | `get_max_root_set_index` is defined exactly for a stored non-empty bag and returns an in-range index of maximal size |
| DynTables.NormalAddToMis | src/graph/dyn_table/dt_normal.rs:44-51 | `add_to_mis` keeps the old set and adds exactly the indexed item's set |
| DynTables.NormalPutGetFresh | src/graph/dyn_table/dt_normal.rs:14-42 | after putting a set the bag did not yet hold, `get` returns the new index (the old length) and the size put |
| DynTables.NormalPutGetExisting | src/graph/dyn_table/dt_normal.rs:14-42 | putting a set the bag already holds does not change what `get` answers for it, because `get` finds the first match |
| DynTables.NormalPutGetByIndex | src/graph/dyn_table/dt_normal.rs:19-42 | `get_by_index` at the old length returns exactly what was put |
| DynTables.FastNew | src/graph/dyn_table/dt_fast.rs:36-46 | the new table is empty and well formed |
| DynTables.FastPut | src/graph/dyn_table/dt_fast.rs:74-83 | `put` gives the set the bag's next index, increments only that bag's count, and rebinds the set to the new index |
| DynTables.FastGet | src/graph/dyn_table/dt_fast.rs:48-52 | `get` returns the set's recorded index and that index's size, and fails where the source's map lookups panic |
| DynTables.FastGetByIndex | src/graph/dyn_table/dt_fast.rs:54-59 | `get_by_index` returns the set and size stored under that index |
| DynTables.FoldMax | src/graph/dyn_table/dt_fast.rs:61-72 | the fold from `(0, Valid(0))` ends at least `Valid(0)` and no smaller than any size; a result above `Valid(0)` is at the first strictly largest index, and otherwise the index is 0 |
| DynTables.FastMaxRootSetIndex | src/graph/dyn_table/dt_fast.rs:61-72 | `get_max_root_set_index` is defined on a well-formed table for a stored bag; when some size exceeds `Valid(0)` it is the first index of maximal size, and otherwise 0 |
| DynTables.FastAddToMis | src/graph/dyn_table/dt_fast.rs:85-91 | `add_to_mis` adds exactly the indexed set's members |
| DynTables.FastPutKeepsWf | src/graph/dyn_table/dt_fast.rs:74-83 | `put` keeps the table's index maps consistent |
| DynTables.FastPutGet | src/graph/dyn_table/dt_fast.rs:48-83 | after `put`, `get` of the set and `get_by_index` of the new index both return what was put, even when the set was put before |
| DynTables.FastPutKeepsOlder | src/graph/dyn_table/dt_fast.rs:54-83 | `put` leaves every older index of every bag answering as before |
| DynTables.PutKeepsAgree | src/graph/dyn_table/dt_fast.rs:74-83 | the two tables, fed the same puts, keep the same sets and sizes at the same indices |
| DynTables.AgreeGetByIndex | src/graph/dyn_table/dt_normal.rs:19-22 | agreeing tables answer every by-index lookup alike |
| SubsetIter.WithElement | src/graph/iterators/subset.rs:40-47 | the new half is the old buffer, in order, with the next element inserted |
| SubsetIter.New | src/graph/iterators/subset.rs:13-21 | the iterator starts with the buffer holding only the empty set, nothing handed out and no element processed |
| SubsetIter.Grow | src/graph/iterators/subset.rs:40-54 | processing an element doubles the buffer and keeps the old buffer as its prefix |
| SubsetIter.Next | src/graph/iterators/subset.rs:27-57 | `next` hands out the next buffered subset, growing the buffer first when it is used up; `None` leaves the iterator unchanged |
| SubsetIter.PowerSeqPrefix | src/graph/iterators/subset.rs:40-54 | the subsets of a prefix are a prefix of the subsets of the whole |
| SubsetIter.PowerSeqLength | src/graph/iterators/subset.rs:27-57 | n elements give 2^n subsets |
| SubsetIter.DrainRest | src/graph/iterators/subset.rs:27-57 | from any reachable state the iterator yields the rest of the reference sequence, from its current position |
| SubsetIter.GrowDoubles | src/graph/iterators/subset.rs:40-54 | after k elements the buffer is exactly the reference sequence of the first k elements |
| SubsetIter.DrainNew | src/graph/iterators/subset.rs:13-57 | a fresh iterator yields exactly the reference sequence, 2^n subsets, the empty set first |
| SubsetIter.PowerSeqFirst | src/graph/iterators/subset.rs:13-33 | the first subset yielded is the empty set |
| SubsetIter.PowerSeqSubsets | src/graph/iterators/subset.rs:40-54 | every yielded subset lies in the input |
| SubsetIter.PowerSeqComplete | src/graph/iterators/subset.rs:40-54 | every subset of the input is yielded |
| SubsetIter.PowerSeqDistinct | src/graph/iterators/subset.rs:40-54 | for distinct elements no subset is yielded twice |
| SubsetIter.NewBitSetIter | src/graph/iterators/subset.rs:67-113 | `SubBitSetIter` yields the same subsets in the same order |
| TreeDecomps.AddBag | src/graph/nice_tree_decomp.rs:205 | `add_bag` appends a bag with no neighbours whose id is its index, returns that id, makes it the root when there is none yet, and keeps bag ids equal to indices |
| TreeDecomps.Link | src/graph/nice_tree_decomp.rs:206 | linking adds the bag to a neighbour list once and keeps the old entries |
| TreeDecomps.AddEdge | src/graph/nice_tree_decomp.rs:206 | `add_edge` makes the two bags neighbours of each other and only grows neighbour lists |
| TreeDecomps.AddEdgeOnly | src/graph/nice_tree_decomp.rs:206 | the only new neighbours are the two bags themselves |
| NiceTds.BagIntersection | src/graph/nice_tree_decomp.rs:153-161 | `get_bag_intersection` returns `I = s1 * s2` and the elements of `s1 - I` and `s2 - I`, each once |
| NiceTds.IntroduceSets | src/graph/nice_tree_decomp.rs:181-188 | the introduce chain holds `I` plus the first k elements of `b1_diff`, for k from its length minus one down to 0 |
| NiceTds.ForgetSets | src/graph/nice_tree_decomp.rs:191-200 | the forget chain holds `I` plus the first k elements of `b2_diff`, for k from 1 to its length minus one |
| NiceTds.ChainOf | src/graph/nice_tree_decomp.rs:181-216 | the sets added are the introduce sets, then the forget sets, then `s2` when a final bag is added |
| NiceTds.Reverse | src/graph/nice_tree_decomp.rs:182 | the reversed list holds the same elements in the opposite order |
| NiceTds.Moves | src/graph/nice_tree_decomp.rs:181-200 | one vertex is moved per element of the two differences |
| NiceTds.PathAtIndex | src/graph/nice_tree_decomp.rs:181-216 | with the final bag added, the k-th bag on the path from `s1` is the reference set for step k |
| NiceTds.PathAtStep | src/graph/nice_tree_decomp.rs:181-216 | consecutive reference sets differ by exactly one vertex |
| NiceTds.PathSteps | src/graph/nice_tree_decomp.rs:181-216 | the path from `s1` has one bag per moved vertex, ends at `s2`, and each step moves one vertex |
| NiceTds.ChainSteps | src/graph/nice_tree_decomp.rs:181-216 | the corrected chain has one bag per moved vertex, ends at `s2` (is empty only when the sets are equal), and each bag differs from the one before by one vertex |
| NiceTds.ChainParts | src/graph/nice_tree_decomp.rs:153-161 | both sets are the intersection plus their own difference lists, and the chain is built from those parts |
| NiceTds.ChainShape | src/graph/nice_tree_decomp.rs:181-216 | the corrected chain has length equal to the two differences together and ends at `s2` |
| NiceTds.ChainEnds | src/graph/nice_tree_decomp.rs:181-216 | the corrected chain ends at `s2`, or is empty when the sets are equal |
| NiceTds.ChainAsWrittenStopsShort | src/graph/nice_tree_decomp.rs:190-216 | as written, going from `{0}` to `{0, 1}` adds no bag and the path ends at `{0}`, not at `s2` |
| NiceTds.ChainAgrees | src/graph/nice_tree_decomp.rs:190-216 | the written chain and the corrected chain agree unless `s2 - s1` has exactly one vertex |
| NiceTds.BagRelationsNew | src/graph/nice_tree_decomp.rs:229-240 | `BagRelations::new` maps every bag id to itself in both directions and holds nothing else |
| NiceTds.AddChain | src/graph/nice_tree_decomp.rs:202-208 | one bag per set is appended; the last parent is the final new bag, or the given parent when there are none |
| NiceTds.AddChainKeeps | src/graph/nice_tree_decomp.rs:202-208 | older bags keep their sets and only gain neighbours |
| NiceTds.AddChainSets | src/graph/nice_tree_decomp.rs:202-208 | the new bags hold the chain's sets in order |
| NiceTds.AddChainEdges | src/graph/nice_tree_decomp.rs:202-208 | the first new bag is a neighbour of the parent and each new bag of the one before it, so the chain is a path |
| NiceTds.InsertChain | src/graph/nice_tree_decomp.rs:202-221 | after the chain is added, an old child id maps to the final bag in `to_new`, and that bag maps back in `to_old` |
| NiceTds.InsertBetweenBagsAsWritten | src/graph/nice_tree_decomp.rs:167-222 | as written, the old child maps to the last bag added, or to the parent when none was added; older bags keep their sets, the root is set only when it was unset and bags were added, the maximal bag size stays, and ids stay equal to indices |
| NiceTds.InsertAsWrittenMapsToParent | src/graph/nice_tree_decomp.rs:210-221 | as written, inserting from `{0}` to `{0, 1}` maps the old child to the parent bag, whose set is `{0}` and not `{0, 1}` |
| NiceTds.InsertChainKeeps | src/graph/nice_tree_decomp.rs:202-221 | inserting a chain leaves the vertex sets of the older bags alone |
| NiceTds.InsertBetweenBags | src/graph/nice_tree_decomp.rs:167-222 | the corrected insertion adds one bag per moved vertex and leaves older bags' sets, the root and the maximal bag size alone |
| NiceTds.InsertBetweenBagsChild | src/graph/nice_tree_decomp.rs:218-221 | the old child maps to a bag in both directions, and that bag holds `s2` when the parent holds `s1` |
| NiceTds.InsertBetweenBagsPath | src/graph/nice_tree_decomp.rs:202-216 | the inserted bags form a path below the parent whose first bag is one move from `s1`, whose each step is one move, and whose last bag is `s2` |
| NiceTds.FirstMatch | src/graph/nice_tree_decomp.rs:17-21 | the first original bag with an equal vertex set, or none |
| NiceTds.LocalRule | src/graph/nice_tree_decomp.rs:25-42 | a leaf has exactly one vertex, a single child differs by exactly one vertex in one direction, a join bag lies in both children, and more than two children fail; `None` marks the source's panics |
| NiceTds.CoveredStep | src/graph/nice_tree_decomp.rs:15-24 | marking one more bag's first match is what the coverage check needs |
| NiceTds.ValidateFrom | src/graph/nice_tree_decomp.rs:14-44 | the check over the remaining bags accepts exactly when each satisfies its rule and the coverage holds |
| NiceTds.Validate | src/graph/nice_tree_decomp.rs:14-44 | `validate` accepts exactly when every bag satisfies its rule and every original bag is the first with its set and that set appears in the nice decomposition |
| NiceTds.PresentMeans | src/graph/nice_tree_decomp.rs:15-43 | an original bag is marked present exactly when it is the first with its set and some new bag has that set |
| NiceTds.EndSet | src/graph/nice_tree_decomp.rs:129 | a leaf's end set has one of its vertices, or none when it is empty |
| NiceTds.Insert | src/graph/nice_tree_decomp.rs:86-139 | each insertion, with `insert_between_bags` as written, only appends bags, keeps older sets, the root and the maximal bag size, and maps the old child to a bag of the new decomposition |
| NiceTds.Joins | src/graph/nice_tree_decomp.rs:75-96 | the join fold, with the insertion as written, only appends bags and returns a clone of the bag's set as the next parent |
| NiceTds.ConvertBag | src/graph/nice_tree_decomp.rs:62-140 | handling one original bag, with the insertion as written, only appends to the new decomposition |
| NiceTds.ConvertAll | src/graph/nice_tree_decomp.rs:62-141 | the breadth-first loop, with the insertion as written, only appends to the new decomposition |
| NiceTds.Seed | src/graph/nice_tree_decomp.rs:51-60 | the new decomposition starts with the original root and maximal bag size and one bag copying the root bag's set |
| NiceTds.Grow | src/graph/nice_tree_decomp.rs:49-141 | with the insertion as written, the bags grown from the seed keep the seed's bag, root and maximal bag size |
| NiceTds.Convert | src/graph/nice_tree_decomp.rs:47-146 | the conversion, with the insertion as written, needs a root, keeps the root and maximal bag size, starts with the root bag's set, and keeps ids equal to indices |
| NodeRelations.VisitNeighbors | src/graph/node_relations.rs:33-42 | the unvisited neighbours are enqueued in order; a neighbour without a parent gets `Real(b)` and is listed as b's child; existing parents stay; the children keep neighbour order |
| NodeRelations.Step | src/graph/node_relations.rs:28-42 | one dequeue marks the bag visited, keeps every recorded parent, and fails only where the bag index would panic |
| NodeRelations.New | src/graph/node_relations.rs:19-46 | without a root the source panics, and the model gives `None` |
| NodeRelations.StartInv | src/graph/node_relations.rs:23-26 | the walk starts with the root's parent `Fake` and nothing dequeued |
| NodeRelations.StepInv | src/graph/node_relations.rs:28-42 | each dequeue keeps the relations consistent: the root stays `Fake`, listed children point back at their parent, and every parent has been dequeued |
| NodeRelations.ChildrenHaveParent | src/graph/node_relations.rs:38-41 | every listed child has the lister as its `Real` parent |
| NodeRelations.RunInv | src/graph/node_relations.rs:28-43 | the whole loop ends with consistent relations |
| NodeRelations.NewRelations | src/graph/node_relations.rs:19-46 | `new` gives the root parent `Fake`, every listed child a `Real` parent that lists it, and children in neighbour order |
| TdIters.PostOrderNew | src/graph/iterators/post_order.rs:12-18 | the traversal starts with the root on the stack and nothing visited, and needs a root |
| TdIters.Traverse | src/graph/iterators/post_order.rs:23-32 | `traverse_subtrees` only pushes, each pushed bag newly visited and pushed once, marks every neighbour visited, and leaves the pushed bags' neighbours visited too |
| TdIters.Next | src/graph/iterators/post_order.rs:39-52 | `next` is `None` exactly on an empty stack; otherwise it returns a bag that was on the stack or unvisited, and it either visits more bags or pops the top |
| TdIters.NextInv | src/graph/iterators/post_order.rs:39-52 | a returned bag has all its neighbours visited and is off the stack, so it is returned only after them |
| TdIters.TraverseInv | src/graph/iterators/post_order.rs:23-32 | the traversal keeps the stack's shape: the root at the bottom, every other entry visited, no entry twice |
| TdIters.StackOnRoot | src/graph/iterators/post_order.rs:12-18 | the initial stack satisfies the invariant |
| TdIters.DrainDistinct | src/graph/iterators/post_order.rs:39-52 | no bag is returned twice |
| TdIters.DrainFrom | src/graph/iterators/post_order.rs:39-52 | every returned bag was on the stack or unvisited |
| TdIters.DrainRootLast | src/graph/iterators/post_order.rs:39-52 | the root is returned last |
| TdIters.PostOrderRun | src/graph/iterators/post_order.rs:10-52 | the whole traversal returns bags in range, each once, ending with the root |
| TdIters.TdBfsNew | src/graph/iterators/bfs.rs:86-92 | the tree-decomposition BFS starts with the root queued and nothing visited |
| TdIters.Unvisiteds | src/graph/iterators/bfs.rs:110-113 | the enqueued neighbours are exactly the unvisited ones, in order |
| TdIters.TdBfsNext | src/graph/iterators/bfs.rs:99-116 | `next` is `None` exactly on an empty queue; otherwise it returns the front, marks it visited and appends exactly its unvisited neighbours |
| TdIters.TdBfsDrain | src/graph/iterators/bfs.rs:99-116 | the drained order starts at the front of the queue and names only bags |
| TdIters.TdBfsRootFirst | src/graph/iterators/bfs.rs:86-116 | the root comes first |
| TreePaths.Climb | src/graph/approximated_td.rs:92-101 | the climb lists v, then each vertex's discoverer, and stops at the first vertex whose path is known; `None` past `fuel` |
| TreePaths.InclusiveRange | src/graph/approximated_td.rs:106 | Rust's `lo..=hi` counts up from lo to hi, and is empty when lo > hi |
| TreePaths.Descending | src/graph/approximated_td.rs:106 | the intended range counts down from j to 0 |
| TreePaths.WriteAt | src/graph/approximated_td.rs:107-110 | one write gives the vertex its parent followed by the parent's path, marks it computed, and changes no other vertex |
| TreePaths.WriteAllMarks | src/graph/approximated_td.rs:106-111 | a run of writes keeps known paths known, marks every position it writes, and gives a path only to a vertex it marks |
| TreePaths.TreePathAsWritten | src/graph/approximated_td.rs:91-112 | as written, `tree_path` keeps known paths known, and changes no vertex but `v`: the range `stack.len()-2..=0` writes `v` alone when the climb has two entries and nothing otherwise |
| TreePaths.TreePath | src/graph/approximated_td.rs:91-112 | the corrected `tree_path` keeps known paths known and leaves `v` known |
| TreePaths.InitFrom | src/graph/approximated_td.rs:86-88 | the loop keeps known paths known and stores paths only for known vertices; with the corrected `tree_path` every vertex from `v` on ends up known |
| TreePaths.Start | src/graph/approximated_td.rs:77-85 | at the start no vertex has a path and only the root counts as computed |
| TreePaths.InitPathsAsWritten | src/graph/approximated_td.rs:84-89 | as written, the root stays known and only known vertices have a stored path |
| TreePaths.InitPaths | src/graph/approximated_td.rs:84-89 | with the corrected write-back every vertex ends up known |
| TreePaths.RootPathShape | src/graph/approximated_td.rs:91-112 | the reference path of v has `level[v]` vertices, starts at v's parent, follows parents, and ends at the root |
| TreePaths.WriteAtGood | src/graph/approximated_td.rs:107-110 | a write from a computed parent keeps every computed path equal to the reference path |
| TreePaths.WritesGood | src/graph/approximated_td.rs:106-111 | writing down the whole climb, top first, leaves v computed with correct paths |
| TreePaths.ClimbSome | src/graph/approximated_td.rs:92-101 | on a BFS tree the climb reaches a computed vertex within `fuel` |
| TreePaths.TreePathGood | src/graph/approximated_td.rs:91-112 | the corrected `tree_path` computes v's path and keeps every computed path correct |
| TreePaths.InitFromGood | src/graph/approximated_td.rs:84-89 | the loop from v on computes every vertex's path correctly |
| TreePaths.InitPathsRootPaths | src/graph/approximated_td.rs:84-112 | with the corrected write-back every vertex's stored path is its path to the root |
| TreePaths.InitPathsAsWrittenLosesPath | src/graph/approximated_td.rs:102-111 | as written, with root 0 and vertex 1 discovered from 2, vertex 1's path `[2, 0]` is never stored and 1 stays uncomputed |
| TreePaths.TreePathAsWrittenGood | src/graph/approximated_td.rs:91-112 | on a BFS tree one as-written `tree_path` call succeeds, every known path stays the path to the root, and unknown vertices keep an empty path |
| TreePaths.InitFromAsWrittenGood | src/graph/approximated_td.rs:84-89 | the as-written loop from v on succeeds on a BFS tree and keeps every known path correct and every unknown one empty |
| TreePaths.InitPathsAsWrittenSound | src/graph/approximated_td.rs:84-112 | as written, `initialize_tree_paths` succeeds on a BFS tree and each stored path is the path to the root or, for a vertex it missed, empty |
| ApproxTds.New | src/graph/approximated_td.rs:71-82 | `TDBuilder::new` makes one empty bag and one empty adjacency list per face and stores the paths `initialize_tree_paths` computes as written, failing exactly when that does |
| ApproxTds.NewCorrected | src/graph/approximated_td.rs:71-82 | the same builder over the corrected `initialize_tree_paths` |
| ApproxTds.NewSoundPaths | src/graph/approximated_td.rs:71-112 | on a BFS tree the builder as written exists and each stored path is the path to the root or empty |
| ApproxTds.NewRootPaths | src/graph/approximated_td.rs:71-89 | on a BFS tree the corrected builder exists and stores every vertex's root path |
| ApproxTds.AddFace | src/graph/approximated_td.rs:359-369 | `add_face` adds every boundary arc's source to the bag and appends the twin's face for every boundary arc outside the tree, in walk order; nothing else changes |
| ApproxTds.SrcsInRange | src/graph/approximated_td.rs:120-126 | a face's vertices are vertices of the graph |
| ApproxTds.AddOnPathToRoot | src/graph/approximated_td.rs:372-380 | `add_on_path_to_root` only grows its own bag, by exactly the stored root paths of the bag's vertices |
| ApproxTds.WithPathsClosed | src/graph/approximated_td.rs:372-380 | a bag grown by correct root paths holds the parent of each of its vertices but the root |
| ApproxTds.WithPathsClosure | src/graph/approximated_td.rs:372-380 | a bag grown by sound stored paths lies within the closure of its vertices under taking the parent, and is that closure when every path is stored |
| ApproxTds.FillBag | src/graph/approximated_td.rs:385-388 | one round of `build` fills bag i from face i and touches no other bag |
| ApproxTds.Build | src/graph/approximated_td.rs:383-389 | `build` fills every bag from its face, in order, and fails exactly where a face walk never closes |
| ApproxTds.ToTd | src/graph/approximated_td.rs:156-164 | `to_td` builds, fixes root bag 0, and `num_bags` is the number of faces |
| ApproxTds.Approximate | src/graph/approximated_td.rs:71-389 | with the paths as written: every bag holds its face's vertices and is linked to the faces across its non-tree arcs; on a BFS tree it is built exactly when every face walk closes, and each bag lies within the closure of its face's vertices under taking the parent |
| ApproxTds.ApproximateCorrected | src/graph/approximated_td.rs:71-389 | with the corrected paths: the same, and on a BFS tree each bag is exactly that closure, so it holds the parent of every vertex in it but the root |
| ApproxTds.FilledFaces | src/graph/approximated_td.rs:383-389 | the built bags hold the face vertices and the adjacency equals the faces across non-tree arcs |
| ApproxTds.FilledClosed | src/graph/approximated_td.rs:372-389 | with correct root paths the built bags are closed under parents |
| ApproxTds.FilledClosure | src/graph/approximated_td.rs:372-389 | with sound stored paths every built bag lies within the closure of its face's vertices, and equals it when every path is stored |
| ApproxTds.SubSpanningTreeContains | src/graph/approximated_td.rs:178-186 | a donut arc counts as a tree arc exactly when its original arc is one, and an unmapped arc always counts |
| DualGraphs.TwinFaces | src/graph/dual_graph.rs:31-37 | a face contributes at most one neighbour per boundary arc |
| DualGraphs.TwinFacesIn | src/graph/dual_graph.rs:31-37 | the neighbours added for a walk are exactly the faces across its arcs outside the spanning tree |
| DualGraphs.New | src/graph/dual_graph.rs:14-22 | `new` makes one empty adjacency list per face |
| DualGraphs.AddFace | src/graph/dual_graph.rs:30-38 | `add_face` appends, in walk order, the twin's face of every boundary arc outside the tree, to that face's list only |
| DualGraphs.TwinFacesStep | src/graph/dual_graph.rs:31-37 | one more arc adds its twin's face exactly when the arc is not a tree arc |
| DualGraphs.Build | src/graph/dual_graph.rs:24-28 | `build` fills every face's list in index order, and fails exactly where a face walk never closes |
| DualGraphs.GetVertices | src/graph/dual_graph.rs:44-54 | `get_vertices` lists each of `0..num_vertices` exactly once |
| DualGraphs.BuiltSymmetric | src/graph/dual_graph.rs:24-38 | when the face walks agree with the arcs' faces and the tree holds arcs with their twins, the dual graph is undirected |
| DualGraphs.Toward | src/graph/dual_graph.rs:30-38 | if face j is across a non-tree arc of face i, then face i is across that arc's twin from face j |
| TdFromDcel.CollectWalk | src/graph/tree_decomposition.rs:15-18 | the bag's set holds exactly the ids on the face walk |
| TdFromDcel.FromDcel | src/graph/tree_decomposition.rs:5-26 | one bag per face in face order, each holding the arc ids of its walk, with no neighbours; the maximal bag size is the number of faces; fails exactly where a walk never closes |
| TdFromDcel.BagsPartitionArcs | src/graph/tree_decomposition.rs:14-20 | when the walks agree with the arcs' faces, each arc lies in exactly the bag of its own face |
| Dcels.Empty | src/graph/dcel.rs:75-81 | a new DCEL has no vertices, arcs or faces |
| Dcels.SetFace | src/graph/dcel/arc.rs:53-55 | `set_face` changes the arc's face and no other field |
| Dcels.PushVertexArc | src/graph/dcel/vertex.rs:18-20 | `push_arc` appends the arc at the end of the rotation and keeps the earlier entries |
| Dcels.PushVertex | src/graph/dcel.rs:82-84 | `push_vertex` appends one vertex, keeps the earlier ones, and leaves arcs and faces alone |
| Dcels.PushArc | src/graph/dcel.rs:86-88 | `push_arc` appends one arc, keeps the earlier ones, and leaves vertices and faces alone |
| Dcels.PushFace | src/graph/dcel.rs:90-92 | `push_face` appends one face, keeps the earlier ones, and leaves vertices and arcs alone |
| Dcels.WalkFrom | src/graph/dcel.rs:98-102 | the loop only extends the arcs listed so far, and lists only arcs when it starts from arcs |
| Dcels.WalkFace | src/graph/dcel.rs:94-103 | every id on a face walk is an arc of the DCEL |
| Dcels.WalkFromCycle | src/graph/dcel.rs:98-102 | a loop that comes back turns a partial cycle into a whole face cycle |
| Dcels.WalkFaceCycle | src/graph/dcel.rs:94-103 | a walk that comes back is a face cycle: it starts at the start arc, each arc's `next` is the following one, the last one's `next` is the start arc, and the start arc occurs only first |
| Dcels.CycleDistinct | src/graph/dcel.rs:94-103 | a face cycle lists no arc twice |
| Dcels.CycleShift | src/graph/dcel.rs:98-102 | two equal entries of a face cycle have equal successors |
| Dcels.WalkFromFinds | src/graph/dcel.rs:98-102 | the loop, started inside a face cycle, returns exactly that cycle |
| Dcels.WalkFaceFinds | src/graph/dcel.rs:94-103 | conversely, whenever a face cycle from the start arc exists, the walk returns exactly it |
| Dcels.FaceIterNew | src/graph/dcel/face.rs:23-71 | a new face iterator yields the start arc first |
| Dcels.FaceIterNext | src/graph/dcel/face.rs:45-59 | the iterator yields its pending arc and then that arc's `next`, unless that is the start arc, after which it is exhausted for good |
| Dcels.WalkFromIter | src/graph/dcel.rs:98-102 | the loop of `Dcel::walk_face` and the face iterator yield the same arcs from any arc other than the start |
| Dcels.WalkFaceAgree | src/graph/dcel/face.rs:15-21 | `Face::walk_face` (through the iterator) and `Dcel::walk_face` list the same arcs, and both fail on the same faces |
| DcelBuilders.NewArc | src/graph/builder/types.rs:14-25 | a new builder arc knows its ends and nothing else |
| DcelBuilders.New | src/graph/builder/dcel_builder.rs:17-23 | a new builder has no vertices, arcs or faces |
| DcelBuilders.Grow | src/graph/builder/dcel_builder.rs:29-32 | the vertex list grows with empty vertices until the source exists, and existing vertices are kept |
| DcelBuilders.FirstTwin | src/graph/builder/dcel_builder.rs:41-51 | the twin is the first arc in the destination's rotation that ends at the source, and there is none exactly when no such arc is listed |
| DcelBuilders.Append | src/graph/builder/dcel_builder.rs:25-39 | the new arc gets the next arc id and the source port equal to its position at the end of the source's rotation; other vertices and earlier arcs are unchanged |
| DcelBuilders.AppendWf | src/graph/builder/dcel_builder.rs:25-39 | appending keeps rotations, ports and twins consistent |
| DcelBuilders.AppendListed | src/graph/builder/dcel_builder.rs:29-39 | every rotation entry still names an arc leaving that vertex at that port |
| DcelBuilders.AppendPorted | src/graph/builder/dcel_builder.rs:29-39 | every arc still sits in its source's rotation at its source port |
| DcelBuilders.PushArc | src/graph/builder/dcel_builder.rs:25-51 | `push_arc` appends the arc and changes only twin links of earlier arcs, and only that of the twin it finds |
| DcelBuilders.PairTwins | src/graph/builder/dcel_builder.rs:46-47 | the two arcs become each other's twins and no other arc changes |
| DcelBuilders.PushArcTwin | src/graph/builder/dcel_builder.rs:41-51 | the new arc gets a twin exactly when the destination lists an arc back to the source; that twin then points back, leaves the destination and is an arc |
| DcelBuilders.PushArcWf | src/graph/builder/dcel_builder.rs:25-51 | `push_arc` keeps rotations, ports and twins consistent |
| DcelBuilders.PushArcReverse | src/graph/builder/dcel_builder.rs:41-51 | every twin link joins two arcs running opposite ways |
| DcelBuilders.PushArcFresh | src/graph/builder/dcel_builder.rs:25-51 | `push_arc` sets no face, next or previous link and adds no face |
| DcelBuilders.SetDestPortsFrom | src/graph/builder/dcel_builder.rs:71-76 | the loop fails exactly when some remaining arc has no twin (the `unwrap` panics) and otherwise changes only destination ports |
| DcelBuilders.SetDestPorts | src/graph/builder/dcel_builder.rs:70-77 | `set_dest_ports` succeeds exactly when every arc has a twin, and then changes only destination ports |
| DcelBuilders.SetDestPortsTwins | src/graph/builder/dcel_builder.rs:70-77 | when twins pair up, every arc's destination port is its twin's source port |
| DcelBuilders.SetDestPortsWf | src/graph/builder/dcel_builder.rs:70-77 | setting destination ports keeps the builder consistent and sets no face link |
| DcelBuilders.NextArc | src/graph/builder/dcel_builder.rs:111-124 | the next arc of a face is the one after the arc's destination port in the destination's rotation, wrapping round to port 0; it fails exactly when the port is unset or out of range |
| DcelBuilders.NextArcLeaves | src/graph/builder/dcel_builder.rs:111-124 | that next arc is an arc leaving the destination, at the port after the destination port |
| DcelBuilders.NextArcs | src/graph/builder/dcel_builder.rs:111-124 | the successor table gives `find_next_arc` for every arc |
| DcelBuilders.FaceLoop | src/graph/builder/dcel_builder.rs:90-101 | the inner loop keeps the arc and visited vectors' lengths and never fails when every arc has a successor |
| DcelBuilders.FacesFrom | src/graph/builder/dcel_builder.rs:83-103 | the outer loop only appends faces and never fails when every arc has a successor |
| DcelBuilders.BuildFaces | src/graph/builder/dcel_builder.rs:79-106 | `build_faces` keeps the vertices and the number of arcs, only appends faces, and succeeds whenever every arc has a next arc |
| DcelBuilders.BuildFacesSound | src/graph/builder/dcel_builder.rs:79-106 | after `build_faces` only face links changed, every next link is the arc `find_next_arc` gives, previous links invert next links, every arc has a face and each face's start arc lies on that face |
| DcelBuilders.ToArc | src/graph/builder/dcel_builder.rs:62 | converting an arc needs every link set (each `unwrap`), and then copies the ends and links |
| DcelBuilders.ToArcs | src/graph/builder/dcel_builder.rs:61-63 | the arcs convert in order, and the conversion fails exactly when some arc has a link missing |
| DcelBuilders.ToVertices | src/graph/builder/dcel_builder.rs:58-60 | each vertex keeps its rotation |
| DcelBuilders.ToFaces | src/graph/builder/dcel_builder.rs:64-66 | each face keeps its start arc |
| DcelBuilders.Build | src/graph/builder/dcel_builder.rs:54-68 | `build` succeeds only when every arc has a twin, and keeps the vertices with their rotations and the number of arcs |
| DcelBuilders.BuildSound | src/graph/builder/dcel_builder.rs:54-124 | a built DCEL is closed, keeps each arc's ends and twin, follows `find_next_arc` for next links, has previous links inverting them, and puts each face's start arc on that face |
| DcelBuilders.BuildFrom | src/graph/builder/dcel_builder.rs:57-67 | the conversion of a traced builder gives a closed DCEL with those same properties |
| DcelBuilders.TracedArcs | src/graph/builder/dcel_builder.rs:61-63 | each converted arc keeps its ends and twin and has in-range links that follow the successor table |
| DcelBuilders.TracedFaces | src/graph/builder/dcel_builder.rs:64-66 | each converted face's start arc is an arc of that face |
| BuilderRemoval.CountBelow | src/graph/builder/dcel_builder.rs:128-130 | the count of removed positions below the index is zero exactly when none lies below it, and the whole list exactly when all do |
| BuilderRemoval.DecreaseIndex | src/graph/builder/dcel_builder.rs:127-132 | `decrease_index` never raises an index, and keeps it exactly when no removed position lies below it |
| BuilderRemoval.CountRank | src/graph/builder/dcel_builder.rs:128-133 | for a list of distinct removed positions, the count `decrease_index` subtracts is the number of removed positions below the index |
| BuilderRemoval.CountBelowBound | src/graph/builder/dcel_builder.rs:128-133 | for distinct removed positions the subtraction in `decrease_index` never underflows |
| BuilderRemoval.DecreaseSingle | src/graph/builder/dcel_builder.rs:168-169 | decreasing by the single removed vertex u lowers exactly the indices above u by one |
| BuilderRemoval.DecreaseKeeps | src/graph/builder/dcel_builder.rs:128-147 | a surviving element's decreased index is its position in the list with the removed positions dropped |
| BuilderRemoval.DecreaseInjective | src/graph/builder/dcel_builder.rs:128-133 | two different surviving indices never decrease to the same index |
| BuilderRemoval.KeepLen | src/graph/builder/dcel_builder.rs:145-147 | dropping a set of positions shortens the list by the number of dropped positions inside it |
| BuilderRemoval.KeepAt | src/graph/builder/dcel_builder.rs:145-147 | a kept element moves down by the number of dropped positions below it |
| BuilderRemoval.RemoveAtKeep | src/graph/builder/dcel_builder.rs:145-147 | removing the largest remaining position d after the larger ones is the same as dropping d together with them |
| BuilderRemoval.IncidentArcs | src/graph/builder/dcel_builder.rs:139-140 | the collected indices are exactly the arcs with u as source or destination, in ascending order |
| BuilderRemoval.Removed | src/graph/builder/dcel_builder.rs:139-144 | after `sort` and `reverse` the list holds the same arcs, strictly descending, without repetitions |
| BuilderRemoval.DropArcs | src/graph/builder/dcel_builder.rs:145-147 | removing the arcs one by one in descending order leaves exactly the other arcs, in their old order |
| BuilderRemoval.Retain | src/graph/builder/dcel_builder.rs:154 | `retain` keeps exactly the entries not removed, and keeps a list without repetitions so |
| BuilderRemoval.DecreaseAll | src/graph/builder/dcel_builder.rs:159-161 | every entry of a rotation is replaced by its decreased index, at the same position |
| BuilderRemoval.Relabel | src/graph/builder/dcel_builder.rs:167-177 | an updated arc gets shifted ends, its port as source port and a twin exactly when it had one, and keeps the destination port, next, previous and face |
| BuilderRemoval.RemoveAt | src/graph/builder/dcel_builder.rs:150 | after `vertices.remove(u)` vertex w is the old vertex w, or w + 1 from u on |
| BuilderRemoval.RetainAll | src/graph/builder/dcel_builder.rs:153-155 | every rotation keeps exactly its arcs that are not removed |
| BuilderRemoval.DecreaseLists | src/graph/builder/dcel_builder.rs:158-162 | every rotation keeps its length and has each entry decreased |
| BuilderRemoval.ListsUnique | src/graph/builder/dcel_builder.rs:150-162 | on a consistent builder the new rotations list no arc twice |
| BuilderRemoval.KeptArcs | src/graph/builder/dcel_builder.rs:139-147 | the surviving arcs and the removed arcs together are all the old arcs |
| BuilderRemoval.UpdateArcs | src/graph/builder/dcel_builder.rs:165-179 | the update pass changes only source, destination, source port and twin, and gives every listed arc its update |
| BuilderRemoval.RemovedMoved | src/graph/builder/dcel_builder.rs:137-179 | every surviving arc, at its new index, keeps its destination port, next, previous and face |
| BuilderRemoval.RemovedListed | src/graph/builder/dcel_builder.rs:150-179 | after the removal each rotation entry names an arc leaving that vertex at that port |
| BuilderRemoval.SurvivorListed | src/graph/builder/dcel_builder.rs:150-162 | every surviving arc is listed in the rotation of its shifted source |
| BuilderRemoval.RemovedRenumbered | src/graph/builder/dcel_builder.rs:165-179 | a surviving arc gets shifted ends, a source port, and its twin's new index as twin |
| BuilderRemoval.RemoveVertex | src/graph/builder/dcel_builder.rs:137-180 | `remove_vertex` drops u and every arc at u, keeps the faces, renumbers the survivors in order, keeps their face links, and on a consistent builder shifts their ends, renumbers their twins and keeps the rotations consistent |
| SubDcels.Position | src/graph/sub_dcel.rs:121-127 | the position found is the first occurrence of the element, and there is none exactly when it is absent |
| SubDcels.GetLocalIndex | src/graph/sub_dcel.rs:40-42 | the local index maps back to the main vertex, and there is none exactly when the vertex is not mapped |
| SubDcels.GetOriginalArc | src/graph/sub_dcel.rs:44-46 | an original arc exists exactly for local arc indices inside the mapping, and is the mapping's entry at that index |
| SubDcels.GetOriginalVertex | src/graph/sub_dcel.rs:48-50 | an original vertex exists exactly for local vertex indices inside the mapping, and is the mapping's entry at that index |
| SubDcels.OriginalOfLocal | src/graph/sub_dcel.rs:40-50 | a mapped main vertex's local index leads back to it |
| SubDcels.LocalOfOriginal | src/graph/sub_dcel.rs:40-50 | with a mapping without repetitions, a local vertex's original leads back to that local vertex |
| SubDcels.UntriangulatedArcs | src/graph/sub_dcel.rs:60-62 | the untriangulated arcs are the first `pre_triangulation_arc_count` arcs |
| SubDcels.TriangulatedArcs | src/graph/sub_dcel.rs:64-67 | the untriangulated arcs followed by the triangulated ones are all the arcs |
| SubDcels.WasTriangulated | src/graph/sub_dcel.rs:69-71 | a sub-DCEL counts as triangulated exactly when its untriangulated part is non-empty |
| SubDcels.NewBuilder | src/graph/sub_dcel.rs:90-100 | a new builder maps nothing, holds an empty DCEL builder and satisfies the builder invariant |
| SubDcels.PushVertex | src/graph/sub_dcel.rs:121-135 | a mapped vertex returns its first position and changes nothing; otherwise it is appended and its new position returned; the mapping never gains a repetition |
| SubDcels.ContainsArc | src/graph/sub_dcel.rs:137-156 | an arc counts as contained only when both its ends are mapped and the source's local copy is a builder vertex |
| SubDcels.PushArc | src/graph/sub_dcel.rs:158-162 | `push_arc` maps both ends and pushes exactly one arc |
| SubDcels.PushArcEnds | src/graph/sub_dcel.rs:158-162 | the pushed builder arc has the ends it was given and every arc keeps mapped ends |
| SubDcels.PushArcInv | src/graph/sub_dcel.rs:158-162 | the pushed arc joins the local copies of the main arc's ends, and the builder invariant is kept |
| SubDcels.LastMatch | src/graph/sub_dcel.rs:174-180 | the match found is the last main arc with those originals as ends, and there is none exactly when no main arc has them |
| SubDcels.ArcMappingOf | src/graph/sub_dcel.rs:170-181 | each sub-arc maps to the last main arc between the originals of its ends, or to 0 when none exists |
| SubDcels.Build | src/graph/sub_dcel.rs:164-191 | `build` fails exactly when the DCEL builder's `build` panics; otherwise the sub-DCEL is that DCEL, keeps the main DCEL and vertex mapping, and maps each arc to the last main arc between the originals of its ends |
| SubDcels.BuiltEnds | src/graph/sub_dcel.rs:169 | every arc of the built sub-DCEL joins two mapped vertices |
| Bfs.New | src/graph/iterators/bfs.rs:28-39 | a new search queues only the start, which is the only discovered vertex; nothing is visited, no vertex has a discovering arc and every level is 0 |
| Bfs.Discover | src/graph/iterators/bfs.rs:53-67 | an arc that is invalid or ends at a discovered vertex changes nothing |
| Bfs.Scan | src/graph/iterators/bfs.rs:53-68 | the scan of a vertex's arcs appends, without repetition, exactly the newly discovered vertices, each found through a valid arc of that vertex one level further; earlier discoveries keep level and arc; every valid arc's end ends up discovered |
| Bfs.Next | src/graph/iterators/bfs.rs:45-74 | `next` yields nothing exactly when the queue is empty; otherwise it yields the front vertex with its level and discovering arc, and marks it visited |
| Bfs.Vertices | src/graph/iterators/bfs.rs:47-51 | the vertices of the yielded items, in order |
| Bfs.NextInv | src/graph/iterators/bfs.rs:45-74 | on a non-empty queue one `next` keeps the search invariant: queue without repetitions, discovered means visited or queued, visited means yielded, levels and arcs stable, queue levels within one of each other |
| Bfs.InitInv | src/graph/iterators/bfs.rs:28-39 | the search invariant holds at the start |
| Bfs.DoneCovers | src/graph/iterators/bfs.rs:45-74 | once the queue is empty, every valid arc of a yielded vertex ends at a yielded vertex at most one level further |
| Bfs.InvBound | src/graph/iterators/bfs.rs:45-74 | no more items are yielded than there are vertices |
| Bfs.DrainFromOrder | src/graph/iterators/bfs.rs:45-74 | running the iterator to its end from an invariant state succeeds and ends in a BFS order covering every valid arc |
| Bfs.DrainOrder | src/graph/iterators/bfs.rs:28-74 | the search from `start` yields `start` first at level 0, every vertex at most once, every later vertex through a valid arc from an earlier vertex one level up, levels never decreasing, and every valid arc of a yielded vertex leads to a yielded vertex at most one level further |
| SpanningTrees.New | src/graph/dcel/spanning_tree.rs:14-22 | a new tree holds no arc, every level is 0 and the maximal level is 0 |
| SpanningTrees.Record | src/graph/dcel/spanning_tree.rs:27-37 | an item without a discovering arc changes nothing |
| SpanningTrees.TreeArcsMembers | src/graph/dcel/spanning_tree.rs:27 | the tree arcs are exactly the arcs the items were discovered through |
| SpanningTrees.Paired | src/graph/dcel/spanning_tree.rs:31-32 | each tree arc is listed followed by its twin |
| SpanningTrees.PairedAppend | src/graph/dcel/spanning_tree.rs:31-32 | pairing a concatenation pairs each part |
| SpanningTrees.RecordAllContains | src/graph/dcel/spanning_tree.rs:26-38 | an arc is in the tree afterwards exactly when it was before or it or its twin is an item's discovering arc |
| SpanningTrees.RecordAllArcs | src/graph/dcel/spanning_tree.rs:26-38 | the arc list grows by the discovering arcs in item order, each followed by its twin |
| SpanningTrees.RecordAllLevel | src/graph/dcel/spanning_tree.rs:26-38 | every vertex reached through an arc gets its item's level, and every other vertex keeps its level |
| SpanningTrees.RecordAllMax | src/graph/dcel/spanning_tree.rs:34-36 | the maximal level never shrinks, bounds every recorded level, and is the old maximum or one of them |
| SpanningTrees.Build | src/graph/dcel/spanning_tree.rs:24-39 | `build` keeps one flag per arc and one level per vertex |
| SpanningTrees.BuildTree | src/graph/dcel/spanning_tree.rs:24-39 | the tree holds exactly the discovering arcs of the BFS and their twins, lists them in discovery order each followed by its twin, records every yielded vertex's BFS level, and its maximal level is the largest one |
| SpanningTrees.TreeTwinClosed | src/graph/dcel/spanning_tree.rs:28-30 | when twins pair up, the tree holds an arc exactly when it holds the arc's twin |
| DcelWriters.VertexRecordInjective | src/graph/dcel_file_writer.rs:11-16 | a vertex record names exactly one vertex id, so different vertices give different records |
| DcelWriters.ArcRecordInjective | src/graph/dcel_file_writer.rs:18-22 | an arc record determines its arc number, source and target |
| DcelWriters.VertexRecords | src/graph/dcel_file_writer.rs:60-61 | vertex i is written with id i, for every i below the vertex count |
| DcelWriters.ArcRecords | src/graph/dcel_file_writer.rs:76-79 | the k-th arc is written with number k + 1 and its own source and target |
| DcelWriters.VertexLinesJoin | src/graph/dcel_file_writer.rs:60-67 | after k vertex records the lines are those records joined by `,` and newline, followed by a separator that is a bare newline only after the last record |
| DcelWriters.VertexLinesAll | src/graph/dcel_file_writer.rs:60-67 | the whole vertex loop writes every record joined by `,` and newline, with a bare newline after the last |
| DcelWriters.AppendVertices | src/graph/dcel_file_writer.rs:57-72 | the `vertices` array equals the reference layout: every vertex record, separated by `,` and newline, with a bare newline after the last |
| DcelWriters.ArcLinesJoin | src/graph/dcel_file_writer.rs:76-85 | after k arc records the lines are those records joined by `,` and newline, followed by a bare newline only when k reaches the bound of the test |
| DcelWriters.ArcLinesAll | src/graph/dcel_file_writer.rs:76-85 | the whole arc loop writes every record joined by `,` and newline; the last is followed by a bare newline only when the bound of the test is the arc count |
| DcelWriters.AppendArcsAsWritten | src/graph/dcel_file_writer.rs:74-88 | as written, the test `i < num_arcs * 2` always holds, so the `arcs` array is the reference layout with `,` and newline after the last record too |
| DcelWriters.AppendArcs | src/graph/dcel_file_writer.rs:74-88 | with the test against the arc count the arcs are laid out like the vertices, with a bare newline after the last record |
| DcelWriters.AppendArcsAsWrittenDiffers | src/graph/dcel_file_writer.rs:80 | with at least one arc the written array differs from the intended one |
| DcelWriters.WriteDcelAsWritten | src/graph/dcel_file_writer.rs:45-93 | as written, the file opens with `let data = {`, holds the reference `vertices` array and the `arcs` array with a trailing comma after its last record, and closes with `}` |
| DcelWriters.WriteDcel | src/graph/dcel_file_writer.rs:45-93 | with the corrected separator the file opens with `let data = {`, holds the reference `vertices` and `arcs` arrays, each record naming its vertex or its arc's number, source and target, and closes with `}` |
| QuickGraphs.Without | src/graph/quick_graph.rs:33-34 | `retain(x != v)` keeps exactly the entries other than v, and changes nothing when v is absent |
| QuickGraphs.WithoutDistinct | src/graph/quick_graph.rs:33-34 | on a list without repetitions it stays so, and loses exactly one entry when v was there |
| QuickGraphs.RenumberHas | src/graph/quick_graph.rs:42-49 | after dropping u and shifting the entries above it, y is listed exactly when its old index was |
| QuickGraphs.HoldingDegree | src/graph/quick_graph.rs:40 | on a symmetric simple graph the number of lists holding u is u's degree |
| QuickGraphs.DropVertexSum | src/graph/quick_graph.rs:40-49 | removing u and its occurrences lowers the total list length by twice u's degree |
| QuickGraphs.ValidDegree | src/graph/quick_graph.rs:40 | on a valid graph a degree never exceeds the edge counter, so the subtraction cannot underflow |
| QuickGraphs.New | src/graph/quick_graph.rs:8-11 | `new(n)` has n isolated vertices, no edges, and is a valid graph |
| QuickGraphs.NumVertices | src/graph/quick_graph.rs:13 | on a valid graph every listed neighbour is a vertex number below `num_vertices` |
| QuickGraphs.NumEdges | src/graph/quick_graph.rs:14 | on a valid graph `num_edges` is half the total length of the neighbour lists and bounds every vertex's degree |
| QuickGraphs.Degree | src/graph/quick_graph.rs:15 | on a valid graph `degree` counts distinct neighbours and is at most the number of edges |
| QuickGraphs.Neighborhood | src/graph/quick_graph.rs:16 | on a valid graph the neighbourhood lists distinct vertices other than v, each of which lists v back |
| QuickGraphs.AreAdjacent | src/graph/quick_graph.rs:17 | on a valid graph `are_adjacent` is symmetric and irreflexive |
| QuickGraphs.AddVertex | src/graph/quick_graph.rs:19-21 | `add_vertex` appends one isolated vertex and keeps everything else |
| QuickGraphs.AddVertexValid | src/graph/quick_graph.rs:19-21 | adding a vertex keeps a graph valid |
| QuickGraphs.AddEdge | src/graph/quick_graph.rs:23-29 | `add_edge` changes nothing for adjacent ends; otherwise it appends each end to the other's list, counts one more edge, and touches no other list; afterwards the ends are adjacent |
| QuickGraphs.AddEdgeIdempotent | src/graph/quick_graph.rs:23-29 | adding the same edge twice is adding it once |
| QuickGraphs.AddEdgeValid | src/graph/quick_graph.rs:23-29 | adding an edge between two different vertices keeps a graph valid |
| QuickGraphs.RemoveEdge | src/graph/quick_graph.rs:31-37 | `remove_edge` changes nothing for non-adjacent ends; otherwise it counts one edge less; afterwards the ends are not adjacent and other lists are unchanged |
| QuickGraphs.RemoveEdgeValid | src/graph/quick_graph.rs:31-37 | removing an edge keeps a graph valid and never underflows the counter |
| QuickGraphs.RemoveAddedEdge | src/graph/quick_graph.rs:23-37 | removing an edge just added to a valid graph restores the graph |
| QuickGraphs.RemoveAddedLoop | src/graph/quick_graph.rs:23-37 | the same round trip holds for a loop u = u |
| QuickGraphs.RemoveVertexAsWritten | src/graph/quick_graph.rs:39-50 | as written, the counter drops by u's degree and u's list is removed, but u is not taken out of the other lists |
| QuickGraphs.RemoveVertexAsWrittenBreaks | src/graph/quick_graph.rs:39-50 | as written, on the single edge {0, 1} removing 0 leaves vertex 0 listing itself with counter 0: not a valid graph |
| QuickGraphs.DecreaseHas | src/graph/quick_graph.rs:42-49 | as written, a renumbered list holds y exactly when the old list held the old index of y, or y is the removed vertex and the old list still named it |
| QuickGraphs.RemoveVertexAsWrittenAdjacent | src/graph/quick_graph.rs:39-50 | as written, a remaining list holds `b` exactly when the old list held the old index of `b`, or `b` is `u` and the old list held the removed vertex |
| QuickGraphs.RemoveVertexAgrees | src/graph/quick_graph.rs:39-50 | when no list names the removed vertex, the removal as written is the corrected one |
| QuickGraphs.RemoveVertex | src/graph/quick_graph.rs:39-50 | corrected: the counter drops by u's degree and one vertex fewer remains |
| QuickGraphs.RemoveVertexAdjacent | src/graph/quick_graph.rs:39-50 | after the corrected removal two vertices are adjacent exactly when their old indices were |
| QuickGraphs.RemoveVertexValid | src/graph/quick_graph.rs:39-50 | the corrected removal keeps a valid graph valid and never underflows the counter |
| QuickGraphs.Before | src/graph/quick_graph.rs:55 | `take_while(x != v)` is a prefix without v |
| QuickGraphs.BeforeAfter | src/graph/quick_graph.rs:55-58 | a list holding v is the part before its first v, then v, then the part after |
| QuickGraphs.Replace | src/graph/quick_graph.rs:63-64 | every v becomes u and every other entry stays |
| QuickGraphs.ReplaceHas | src/graph/quick_graph.rs:63-64 | after replacing, x is listed exactly when it was listed and is not v, or it is u and v was listed |
| QuickGraphs.CombinedHas | src/graph/quick_graph.rs:54-59 | u's combined list holds exactly u's other neighbours and v's neighbours other than u |
| QuickGraphs.ContractEdge | src/graph/quick_graph.rs:52-72 | as written, with `remove_vertex` as written: `contract_edge` changes nothing unless u lists v; otherwise it fails exactly where removing v would underflow the counter, and else one vertex fewer remains and the counter is half the total list length, rounded down |
| QuickGraphs.ContractEdgeCorrected | src/graph/quick_graph.rs:52-72 | the same merge with v also taken out of every other list: the same no-op, failure and size behaviour |
| QuickGraphs.ContractEdgeDefined | src/graph/quick_graph.rs:52-72 | on a valid graph contracting two different vertices never hits the counter underflow, as written or corrected |
| QuickGraphs.ContractEdgeAsWrittenStale | src/graph/quick_graph.rs:60-68 | as written, contracting the edge {0, 1} of the triangle gives [[1, 1], [0, 1]] with counter 2, where vertex 1 lists itself and the graph is not valid; the corrected contraction gives [[1, 1], [0]] with counter 1 |
| QuickGraphs.ContractedNeighbors | src/graph/quick_graph.rs:52-72 | as written, the merged vertex is adjacent to exactly the former neighbours of u or v other than u |
| QuickGraphs.ContractedNeighborsCorrected | src/graph/quick_graph.rs:52-72 | the corrected contraction gives the merged vertex the same neighbours |
| QuickGraphs.ContractedOtherAsWritten | src/graph/quick_graph.rs:60-68 | as written, every other vertex keeps its neighbours with v read as the merged vertex, and a vertex that listed both u and v also keeps an entry v, which now names another vertex |
| QuickGraphs.ContractedOther | src/graph/quick_graph.rs:60-68 | corrected, every other vertex keeps exactly its neighbours, with v read as the merged vertex |
| ReductionUtils.Shift | src/graph/reductions/utils.rs:2-6 | an index above the removed vertex moves down by one, any other index stays |
| ReductionUtils.Unshift | src/graph/reductions/utils.rs:9-13 | an index at or above the restored vertex moves up by one, any other stays, so the restored vertex is never hit |
| ReductionUtils.DecreaseVertices | src/graph/reductions/utils.rs:2-6 | `decrease_vertices` lowers exactly the entries above the vertex by one, position by position |
| ReductionUtils.IncreaseVertices | src/graph/reductions/utils.rs:9-13 | `increase_vertices` raises exactly the entries at or above the vertex by one, and the vertex itself is no longer listed |
| ReductionUtils.IncreaseDecrease | src/graph/reductions/utils.rs:2-13 | increasing undoes decreasing on a list that does not hold the vertex |
| ReductionUtils.DecreaseIncrease | src/graph/reductions/utils.rs:2-13 | decreasing undoes increasing on every list |
| ReductionUtils.RestoreIndependenceSet | src/graph/reductions/utils.rs:16-33 | `restore_independence_set` shifts the set up past each removed vertex, the last removed first, and keeps its size |
| ReductionUtils.Reverse | src/graph/reductions/utils.rs:24 | `reverse` puts entry i at position n - 1 - i |
| ReductionUtils.RestoreReduce | src/graph/reductions/utils.rs:16-33 | restoring after a sequence of removals that never removed a listed vertex gives back the original indices |
| Reductions.IsIsolatedClique | src/graph/reductions.rs:84-97 | the test succeeds exactly when every neighbour of the vertex lists every other neighbour |
| Reductions.Originals | src/graph/reductions.rs:117-126 | the original vertices named by a sequence of removals, one per removal, when every index is in range at its moment |
| Reductions.Pick | src/graph/reductions.rs:118-126 | position k names the surviving original at index `nb[k]` |
| Reductions.PickAfterRemoval | src/graph/reductions.rs:99-103 | renumbering the remaining neighbours past a removed position keeps them in range, distinct, and naming the same originals |
| Reductions.PopOriginals | src/graph/reductions.rs:120-126 | with the corrected renumbering the neighbour loop removes exactly the neighbours, the last first |
| Reductions.PopRemovalsAsWritten | src/graph/reductions.rs:120-126 | as written, the neighbour loop makes one removal per neighbour |
| Reductions.PopRemovals | src/graph/reductions.rs:120-126 | corrected, the neighbour loop still makes one removal per neighbour |
| Reductions.CliqueRemovalsAsWritten | src/graph/reductions.rs:117-126 | as written, the loop removes `vertex` and then one index per neighbour, renumbering the rest past `vertex` |
| Reductions.CliqueRemovals | src/graph/reductions.rs:117-126 | corrected, the loop removes `vertex` and then one index per neighbour, renumbering the rest past the neighbour just removed |
| Reductions.CliqueRemovalsOriginals | src/graph/reductions.rs:112-126 | the corrected round deletes exactly `vertex` and then its neighbours, the last first |
| Reductions.CliqueRemovalsAsWrittenWrong | src/graph/reductions.rs:125 | as written, vertex 0 with neighbours 3, 4, 1 among five vertices deletes 0, 1, 4 and 2, which is not a neighbour, while the corrected loop deletes 0, 1, 4 and 3 |
| Reductions.CorrectedOriginals | src/graph/reductions.rs:125 | on that input the corrected loop deletes exactly the clique |
| Reductions.RemoveVertexReversible | src/graph/reductions.rs:27-31 | the record holds the vertex and its list; with `remove_vertex` as written the graph loses that vertex, the counter drops by its degree, and the rest keep their adjacency under renumbering except that entries naming the removed vertex now name vertex `u`; a panic exactly when the index is out of range or the degree exceeds the counter |
| Reductions.RemoveAll | src/graph/reductions.rs:117-126 | as written, the removals take one vertex each, record the removed indices in order, and lower the counter by exactly the recorded list lengths |
| Reductions.CliqueCheck | src/graph/reductions.rs:84-97 | `is_isolated_clique` as written: with every neighbour a vertex it gives an answer; `true` means every neighbour's list holds every other neighbour; `false` names a neighbour missing one; it panics only on a neighbour that is not a vertex |
| Reductions.CliqueCheckDecides | src/graph/reductions.rs:84-97 | on lists naming vertices the check is exactly the isolated-clique test |
| Reductions.FirstCliqueFrom | src/graph/reductions.rs:109-110 | the scan returns the first vertex the check accepts, with every earlier one rejected, or none when all are rejected, or the panic of a check |
| Reductions.FirstCliqueAgrees | src/graph/reductions.rs:109-110 | on lists naming vertices the scan never panics and finds the same vertex as the reference search |
| Reductions.IsolatedCliqueRound | src/graph/reductions.rs:112-127 | one round as written removes `vertex` and then one index per neighbour, records them from `vertex` on, and lowers the counter by the recorded list lengths |
| Reductions.IsolatedCliqueReductions | src/graph/reductions.rs:105-133 | as written: when no panic occurs, the check accepts no vertex of the final graph, every record starts with its isolated vertex, and neither the counter nor the vertex count grows |
| Reductions.IsolatedCliqueReductionsPanics | src/graph/reductions.rs:105-133 | on the single edge {0, 1} the loop as written picks vertex 0, removes index 0 twice, and panics on the counter's underflow at the second removal |
| Reductions.IsolatedVertexRoundAgrees | src/graph/reductions.rs:112-127 | on a valid graph a round on a vertex without neighbours goes through and is the same as written and corrected |
| Reductions.RemoveVertexReversibleCorrected | src/graph/reductions.rs:27-31 | with the corrected removal the record holds the vertex and its list, and adjacency among the rest is kept under renumbering |
| Reductions.RemoveAllCorrected | src/graph/reductions.rs:117-126 | the corrected removals keep the graph valid, remove one vertex each and record the removed indices in order |
| Reductions.RemoveAllCorrectedDefined | src/graph/reductions.rs:117-126 | the corrected removals go through exactly when each index is in range at its moment |
| Reductions.IsolatedCliqueRoundCorrected | src/graph/reductions.rs:112-127 | one corrected round removes the vertex and its neighbours, keeps the graph valid, and its record starts with the vertex itself |
| Reductions.IsolatedCliqueRoundCorrectedRemoves | src/graph/reductions.rs:112-127 | on a valid graph the corrected round goes through and deletes exactly the vertex and its neighbours |
| Reductions.FirstIsolatedClique | src/graph/reductions.rs:109-110 | the reference search returns the first isolated clique from its start, and none exactly when there is none |
| Reductions.IsolatedCliqueReductionsCorrected | src/graph/reductions.rs:105-133 | with the corrected removals the loop always finishes; afterwards the graph is valid, no vertex is an isolated clique, and every record starts with removing its own isolated vertex |
| Reductions.RestoreClique | src/graph/reductions.rs:142-149 | undoing one clique shifts the set back past every removal and then appends the isolated vertex |
| Reductions.TransferIsolatedCliques | src/graph/reductions.rs:136-152 | the set grows by one vertex per clique |
| Reductions.RestoreDistinct | src/graph/reductions.rs:143-148 | shifting back keeps a set free of repetitions and never names the first removed vertex |
| Reductions.TransferIsolatedCliquesDistinct | src/graph/reductions.rs:136-152 | undoing well-formed clique records keeps the set free of repetitions |
| Reductions.FirstFold | src/graph/reductions.rs:36-38 | the search finds the first vertex of degree two whose neighbours are not adjacent, or reports that none exists, or the panic on an out-of-range neighbour |
| Reductions.MergeVerticesReversible | src/graph/reductions.rs:21-25 | the record keeps the old adjacency and both vertices, and the graph is the merge's result |
| Reductions.FoldReductions | src/graph/reductions.rs:33-54 | the records come in pairs: a fold candidate merged with its first neighbour, then the renumbered candidate merged with its renumbered second neighbour |
| Reductions.FoldBack | src/graph/reductions.rs:61-79 | undoing one fold shifts the set back past both neighbours; the folded vertex joins it when absent, and otherwise is traded for its two neighbours, with every other vertex kept and nothing else added |
| Reductions.FoldBackGrows | src/graph/reductions.rs:61-79 | undoing one fold on a set without repetitions adds exactly one vertex and keeps it free of repetitions; the folded vertex is in the result exactly when it was not in the shifted set |
| Reductions.TransferFold | src/graph/reductions.rs:56-82 | undoing the folds keeps a set free of repetitions and grows it by one vertex per pair of records |
| ReductionRules.FirstWhere | src/graph/reductions/isolated_clique_reduction.rs:11-12 | `find` and `position` return the least index that satisfies the test, and none exactly when none does |
| ReductionRules.TwinRecord | src/graph/reductions/twin_reduction.rs:18-28 | the record is made exactly when u is present with at least three neighbours, and holds the twins, u's list and the adjacency of its first three neighbours |
| ReductionRules.TwinOffer | src/graph/reductions/twin_reduction.rs:68-76 | both twins are among the vertices an undone twin reduction may add |
| ReductionRules.TwinStep | src/graph/reductions/twin_reduction.rs:68-76 | undoing one twin reduction only appends vertices, and only vertices it may add |
| ReductionRules.TransferTwin | src/graph/reductions/twin_reduction.rs:62-78 | the transfer keeps the given set as a prefix and adds only vertices some reduction may add |
| ReductionRules.TransferTwinSplit | src/graph/reductions/twin_reduction.rs:67 | undoing a list is undoing its later part first, then its earlier part |
| ReductionRules.TransferTwinReductions | src/graph/reductions/twin_reduction.rs:62-78 | the pop loop empties the list and computes the transfer |
| ReductionRules.PushFrom | src/graph/reductions/twin_reduction.rs:73-75 | pushing from index `from` appends exactly the rest of the list |
| ReductionRules.SelectNodalFold | src/graph/reductions/nodal_fold_reduction.rs:14-29 | the fold chosen is the first present vertex with two non-adjacent neighbours, records those neighbours, and none is chosen exactly when none exists |
| ReductionRules.NodalStep | src/graph/reductions/nodal_fold_reduction.rs:51-57 | an inner vertex in the set is replaced by its neighbours, otherwise it joins the set; nothing else changes |
| ReductionRules.TransferNodalKeeps | src/graph/reductions/nodal_fold_reduction.rs:45-59 | apart from the vertices the folds mention, the transfer keeps the given set's elements in order |
| ReductionRules.TransferNodalFoldReduction | src/graph/reductions/nodal_fold_reduction.rs:45-59 | the pop loop empties the list and computes the transfer |
| ReductionRules.SelectIsolatedClique | src/graph/reductions/isolated_clique_reduction.rs:11-16 | the first vertex the clique test accepts is chosen, with its neighbours followed by itself as the members to remove; none is chosen exactly when no vertex passes |
| ReductionRules.TransferIsolatedClique | src/graph/reductions/isolated_clique_reduction.rs:35-42 | the set keeps its elements and then the isolated vertices follow, in order |
| ReductionRules.TransferIsolatedCliqueSet | src/graph/reductions/isolated_clique_reduction.rs:35-42 | the result holds exactly the elements of both inputs, and has no repetitions exactly when neither input has and they share nothing |
| Strings.NatToString | src/graph/dcel_file_writer.rs:12-21 | a number is written as at least one decimal digit |
| Strings.NatToStringRoundTrip | src/graph/dcel_file_writer.rs:12-21 | reading the digits back gives the number |
| Strings.NatToStringInjective | src/graph/dcel_file_writer.rs:12-21 | different numbers are written differently |

## Left out

- Fuel bounds: loops whose end depends on well-formed input take a `fuel` argument. These are the face walks, the BFS, post-order and parent/child traversals, the root-path climbs, the nice-decomposition conversion, the reconstruction of the independent set and `FoldReductions`. Inputs that would need more steps than the bound give `None` or stop early, where the Rust code would keep looping or panic.
- Foreign code becomes parameters or is left out, with no invented contract:
  - `QuickGraph::merge_vertices`, `find_twins`, `are_adjacent_triple` and the method form of `is_isolated_clique` on the `Option` adjacency are not in the source files. The reductions take the graph after each step, or the twins found, as inputs.
  - The merge step of the new DCEL builder (src/graph/builder/dcel_builder.rs:182-183) has an empty body and is not modelled.
  - The DCEL methods `twin`, `faces`, `triangulate` and `get_neighborhood` are not part of this model. `SubDcels.ContainsArc` takes the neighbourhood as a parameter, and the BFS takes the invalid-arc flags as a parameter. The root-path climb takes the spanning tree's `discovered_by(v).src()` as a parent table.
  - The arboretum tree decomposition is modelled by the small `TreeDecomps` record with `AddBag` and `AddEdge`. Four behaviours are assumed of it, none of which the source files show: bags get consecutive ids; edges are recorded on both bags; the first bag added to a decomposition without a root becomes its root; and adding a bag or an edge leaves the maximal bag size unchanged.
- The graph edits inside the twin, nodal-fold and vertex-fold loops call `merge_vertices` and the twin search, which are not part of this model. For those loops the model covers the selection rules and the records pushed, not the edited graph.
- The isolated-clique loop edits the graph with the core's own `remove_vertex`, and its edits are modelled: `Reductions.IsolatedCliqueReductions` runs on `QuickGraphs.RemoveVertexAsWritten`, as the source does, and `Reductions.IsolatedCliqueReductionsCorrected` runs the same loop on the corrected `QuickGraphs.RemoveVertex`. `insert_vertex`, used when the cliques are undone, is not part of this model.
- The fake-root helpers of the sub-DCEL (`fake_root`, `insert_fake_root`, `connect_fake_root`, `connect_with_fake_root`) call `triangulate` and `get_neighborhood`, which are not part of this model.
- `SubTDBuilder` apart from `spanning_tree_contains`, and `TDBuilder::vertex_mapping`: the latter is the identity and needs no model.
- Getters that only read a field (`Arc::get_*`, `Face::start_arc`, `Vertex::arcs`, `DualGraphs.NumVertices`, `DualGraphs.GetNeighbors` and the spanning-tree accessors), and `Face::set_start_arc`, are Dafny field reads and field updates.
- `println!` tracing (src/graph/iterators/bfs.rs:55 and elsewhere) has no effect on the result and is dropped.
- File I/O: `DcelWriter::new` creates a file and panics when it cannot. The model returns the text that would be written, and write errors are not modelled.
- Hash sets, bit sets and hash maps are mathematical sets and maps. Where the source depends on hash iteration order, the model fixes one order; `NiceTds.EndSet` is the case that shows in a result.
- The viewer's floating-point work (`position_tree_decomposition`, `LAYOUT_FACTOR`), cytoscape construction and styles, the React sidebar, `fetch`, `localStorage` and the modal dialogs are left out. The rendering surface is the map from element id to class set.
- `find_mis_fast` is commented out in the source and is not modelled.
- Navigator.HandleEvent: `Valid` asks for at most one bag and at most one face per dual vertex. The model assumes the data carries one bag and one face per dual vertex; the code that writes that data is not part of this model. On other data, stepping to a bag or face with no dual vertex throws a TypeError in `highlightBag` and `highlightFace` (web/static/script.js:578-579, 610-611), and that throw is not modelled.
- The web server, the generator script, the layout data, the cytoscape wrapper, the logger, `main`, the module file and the `Reducible` trait hold no logic of the core.
- The 7-bag example test of the nice tree decomposition (src/graph/nice_tree_decomp.rs:256-289) is not reproduced as a lemma.
- NodeRelations.NewRelations: states only that every child lists its parent. The converse fails off trees, because a bag dequeued twice has its children reset (src/graph/node_relations.rs:30). It also does not state that every dequeued bag gets an entry.
- TdIters.PostOrderRun: states that the traversal returns only bags of the tree, and distinct ones. It does not prove that every bag is returned or that descendants come first.
- MisFinder.BagEntryCovers: states definedness bag by bag, for nice bags whose children's tables are complete. It does not prove that the whole tree's tables are complete.
- MisFinder.FindMis: states that the reported size is the size of the set and that every member lies in some bag. It does not prove the reconstructed set independent or maximum.
- TreePaths.TreePath: the path property is stated by the lemmas `TreePathGood` and `InitPathsRootPaths`, not by the function's own contract.
- TreePaths.InitPaths: as for `TreePath`.
- MisSizes.Add: adds unbounded naturals, where the source's `usize` addition would overflow. Sizes are bounded by the vertex count, so this is not reached in practice.
- Reductions.RemoveVertexReversible: the counter's `usize` underflow is modelled as the panic of a debug build. A release build wraps around instead and carries on.
- NiceTds.EndSet: takes the least vertex of the set, where the source takes the first in hash order.
- TdFromDcel.FromDcel: the root becomes `Some(0)` once a bag is added, because the model's `AddBag` sets it. The source starts from `root: None` (src/graph/tree_decomposition.rs:8-12). The bags hold arc ids, as in the source.
- SubDcels.ContainsArc: states only that the arc is absent unless both endpoints are mapped. The neighbourhood is a parameter.
- QuickGraphs.ContractEdge: the combined neighbour list may repeat a vertex, so the contract states the counter only as half the sum of list lengths, and validity is not claimed, as written or corrected.
- Reductions.PopRemovals: its contract gives the lengths; `PickAfterRemoval` and `CliqueRemovalsOriginals` carry the property.
- Reductions.PopRemovalsAsWritten: as for `PopRemovals`.
- SpanningTrees.Build: its contract gives the shape; `BuildTree` and `TreeTwinClosed` carry the property.
- DcelBuilders.FaceLoop: its contract gives lengths and bounds; `BuildFacesSound` carries the property.

## Findings

| source | as written | input that shows it | evidently intended | confidence | as-written member | corrected member |
|---|---|---|---|---|---|---|
| src/graph/approximated_td.rs:106 | the path of each climbed vertex is written over the range `stack.len()-2..=0`, which counts up and is empty unless the stack holds exactly two entries | root 0, parents [0, 2, 0]: vertex 1 climbs through 2, and its path stays empty although its path to the root is [2, 0] | write the path for every climbed vertex, counting down | not executed | TreePaths.InitPathsAsWrittenLosesPath | TreePaths.InitPathsRootPaths |
| src/graph/quick_graph.rs:39-50 | `remove_vertex` renumbers the other lists but never removes the vertex itself from them | the single edge {0, 1}, remove 0: the result is [[0]] with counter 0, a loop that the counter does not count | remove the vertex from every neighbour's list before renumbering | not executed | QuickGraphs.RemoveVertexAsWrittenBreaks | QuickGraphs.RemoveVertexValid |
| src/graph/nice_tree_decomp.rs:190-216 | the forget chain starts at index 1, so for a single extra vertex it adds no bag, and the old child is mapped to the parent | s1 = {0}, s2 = {0, 1}: no bag is inserted between the two, and the child id maps to the parent | one bag per step, so that consecutive bags differ by one vertex and the child maps to the last new bag | not executed | NiceTds.InsertAsWrittenMapsToParent | NiceTds.InsertBetweenBagsPath |
| src/graph/nice_tree_decomp.rs:193-200 | the forget chain covers `1..len` and stops one set short | s1 = {0}, s2 = {0, 1}: the chain is empty | a chain whose sets grow by one vertex each, from the intersection up to s2 | not executed | NiceTds.ChainAsWrittenStopsShort | NiceTds.ChainSteps |
| src/graph/dcel_file_writer.rs:80 | the separator test compares against twice the number of arcs, so the last arc record is also followed by a comma | any DCEL with at least one arc | a newline, not a comma, after the last arc record, as for vertices | not executed | DcelWriters.AppendArcsAsWrittenDiffers | DcelWriters.WriteDcel |
| src/graph/quick_graph.rs:60-68 | the redirecting loop skips a vertex that lists both u and v, and `remove_vertex` as written then leaves its entry v in place, where it names another vertex | the triangle [[1, 2], [0, 2], [0, 1]], contracting (0, 1): the result is [[1, 1], [0, 1]] with counter 2, and vertex 1 lists itself | drop v from the lists of vertices that already list u, so that every other vertex keeps exactly its neighbours | not executed | QuickGraphs.ContractEdgeAsWrittenStale | QuickGraphs.ContractedOther |
| src/graph/reductions.rs:105-133 | each round removes with `remove_vertex` as written, which leaves the removed vertex in its neighbours' lists, so a clique's remaining vertex lists itself and its list outgrows the edge counter | the single edge {0, 1}: vertex 0 is found, removing it leaves [[0]] with counter 0, and removing index 0 next underflows the counter | remove the whole clique and leave an empty graph | not executed | Reductions.IsolatedCliqueReductionsPanics | Reductions.IsolatedCliqueRoundCorrectedRemoves |
| src/graph/reductions.rs:125 | after each removed neighbour, the remaining neighbours are renumbered past the clique's vertex, not past the neighbour just removed | vertex 0 with neighbours [3, 4, 1] among 5 vertices: the removals delete the original vertices 0, 1, 4, 2 | delete 0, 1, 4, 3, the vertex and its neighbours | not executed | Reductions.CliqueRemovalsAsWrittenWrong | Reductions.CorrectedOriginals |
