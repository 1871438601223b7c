# attackTreeDraw: the attack-tree data model and the view's edge offsets, in Dafny

This project models the core of attackTreeDraw, an editor for attack trees.

**The tree.** The tree is the `Tree` class of `attackTreeDraw/data/types.py`:
- `nodeList` maps ids to `Threat`, `Countermeasure` and `Conjunction` nodes;
- `edgeList` holds `Edge(source, destination)` objects;
- every node keeps `children` and `parents` id lists.

The model covers these operations, and proves what each one promises:
- id allocation (`getNextID`) and insertion (`addNode`);
- the edge rules of `addEdge`, built on the type searches `getTypeRecursiveDown`, `getTypeRecursiveUp` and `getFirstElementRecursiveUp`;
- `removeEdge` and `removeNode`;
- the three validators `checkMeta`, `checkNodes` and `checkExtended` (`checkMeta` is a plain definition; the contracts of the constructor and of `removeNode` say when it fails);
- the depth-first cycle check `checkCycle`/`dfs` with `Node.initDFS`;
- the rewrite `makeSimple`, which splits every node with several parents.

**The view.** The second part is the view node of `attackTreeDraw/gui/items.py`:
- the offset (-50, 0 or 50) that `addEdge` and `actualizeEdges` give an arrow;
- the left/right partition of `getLeftRightChildren`;
- the view's own type searches.

**Modules.**

| module | file | holds |
|---|---|---|
| `Lists` | lists.dfy | `Option`; Python's `list.remove` and filters; pigeonhole and cardinality facts |
| `NodeIds` | node_ids.dfy | `N####` ids, `str(n).zfill(4)`, `Edge` and its key `source-destination` |
| `ConjunctionWalk` | conjunction_walk.dfy | the "follow the first link while on a Conjunction" search for both sides, with fuel, and the proof that the fuel is exact |
| `TreeGraph` | tree_graph.dfy | node kinds; the adjacency (edge list plus both id lists) and its consistency; adding and removing edges; the depth-first search invariant; the copy loop of `makeSimple` |
| `TreeRules` | tree_rules.dfy | the type searches of the tree and the rule cascade of `addEdge`, evaluated the way Python's `and`, `is` and exceptions evaluate it |
| `AttackTree` | tree.dfy | the `Tree` class. Its methods change `nodeList`, the adjacency, the search flags and the other fields in place, each proved against the functions above |
| `ViewItems` | view_items.dfy | the view scene as a class: arrows are handles into an arena, so the one `Edge` object in both `childEdges` and `parentEdges` is shared |

**Walks that never end.** A type search in the source recurses without a bound. On a chain of Conjunctions whose first links loop back, it recurses until Python raises `RecursionError` (the same for `makeSimple`'s self-call). The model does not hide this:
- a search runs with fuel equal to the number of nodes;
- `ConjunctionWalk.SearchDiverges` proves that running out of fuel happens exactly when the unbounded recursion never returns;
- an `addEdge` whose rules meet such a search yields the verdict `Raise`, and the steps after it are not taken, as with the exception.

## Model

| member | source | states |
|---|---|---|
| NodeIds.DecimalStringValue | attackTreeDraw/data/types.py:355-357 | `str(n)` read back as decimal digits is `n` |
| NodeIds.IdOfShape | attackTreeDraw/data/types.py:355-357 | for `i < 10000`, `'N' + str(i).zfill(4)` is an `N` followed by four digits that spell `i` |
| NodeIds.IdOfInjective | attackTreeDraw/data/types.py:354-357 | different slots of the scan give different ids |
| NodeIds.HashInjective | attackTreeDraw/data/types.py:87-92 | as ids contain no `-`, two edges with the same key `source-destination` are the same edge |
| NodeIds.LowestFreeUnique | attackTreeDraw/data/types.py:354-359 | the lowest free id is unique, and it is in none of `nodeList`, `keyList` and `reservedList` |
| ConjunctionWalk.Links.Walk | attackTreeDraw/data/types.py:132-140 | a search that stops ends on a node where it cannot go on (not a Conjunction, or no first link); a node where it cannot go on is its own answer |
| ConjunctionWalk.SearchStep | attackTreeDraw/data/types.py:133-137 | a Conjunction with a first link has the answer of that first link |
| ConjunctionWalk.SearchIsExact | attackTreeDraw/data/types.py:123-159 | fuel equal to the node count gives the answer of any larger fuel; no answer with it means no answer with any fuel |
| ConjunctionWalk.SearchDiverges | attackTreeDraw/data/types.py:123-159 | the search has no answer exactly when every bounded unfolding of the recursion runs out |
| ConjunctionWalk.WalkMonotone | attackTreeDraw/data/types.py:123-159 | more fuel never changes an answer once there is one |
| TreeGraph.PlusWellFormed | attackTreeDraw/data/types.py:264-268 | appending a new edge between two different nodes to `edgeList`, to the source's children and to the destination's parents keeps "in `edgeList` iff in both lists, no repeats, no self-loops" |
| TreeGraph.PlusMinus | attackTreeDraw/data/types.py:264-266 | removing an edge right after adding it gives back the original lists |
| TreeGraph.RemoveOne | attackTreeDraw/data/types.py:394-396 | on consistent lists the three `list.remove` calls remove the only occurrence of the edge and of its two entries, and keep the lists consistent |
| TreeGraph.MinusOne | attackTreeDraw/data/types.py:394-396 | removing one edge changes only the edge list, the source's children and the destination's parents |
| TreeGraph.MinusWellFormed | attackTreeDraw/data/types.py:381-399 | removing any set of edges keeps the lists consistent |
| TreeGraph.EdgeWithKeyFinds | attackTreeDraw/data/types.py:388-392 | the search by key in `removeEdge` finds an edge exactly when it is in `edgeList` |
| TreeGraph.EdgeWithKey | attackTreeDraw/data/types.py:388-392 | a found edge is in the list and has the key searched for |
| TreeGraph.AddKeyWellFormed | attackTreeDraw/data/types.py:214 | a new node with two empty lists keeps the lists consistent |
| TreeGraph.UnlinkAllIsMinus | attackTreeDraw/data/types.py:368-373 | removing a list of edges one at a time removes the set of them |
| TreeGraph.UnlinkAllEdges | attackTreeDraw/data/types.py:368-373 | afterwards `edgeList` holds exactly the edges not in the list |
| TreeGraph.MinusIncident | attackTreeDraw/data/types.py:367-373 | removing every edge at `x` empties both lists of `x` and filters `x` out of every other node's lists |
| TreeGraph.DeletedWellFormed | attackTreeDraw/data/types.py:361-379 | deleting a node keeps the remaining lists consistent, and no edge mentions it |
| TreeGraph.DeletedLists | attackTreeDraw/data/types.py:361-379 | what deleting a node leaves: the edges not at `x`, and every other node's lists with `x` filtered out |
| TreeGraph.RankedAcyclic | attackTreeDraw/data/types.py:320-324 | when every node is finished after all of its children, no walk along children comes back to where it began |
| TreeGraph.SearchEnter | attackTreeDraw/data/types.py:338 | marking an unvisited node pushes it on the path of calls in progress and keeps the search invariant |
| TreeGraph.SearchFinish | attackTreeDraw/data/types.py:343-344 | finishing a node whose children are all finished pops it and keeps the search invariant |
| TreeGraph.SearchGray | attackTreeDraw/data/types.py:335-337 | meeting a visited, unfinished node again closes a cycle through it |
| TreeGraph.GrayCycle | attackTreeDraw/data/types.py:335-337 | a path of calls in progress closed by a link back to one of them is a cycle |
| TreeGraph.CopyOutChildren | attackTreeDraw/data/types.py:419 | the clone's children become the children of the original; no other node's children change |
| TreeGraph.CopyOutParents | attackTreeDraw/data/types.py:420-422 | every copied child gains the clone as its last parent, and no other parents change |
| TreeGraph.CopyOutEdges | attackTreeDraw/data/types.py:420-421 | `edgeList` gains `clone-c` for every child `c`, in order |
| TreeGraph.CopyOutWellFormed | attackTreeDraw/data/types.py:419-422 | linking a clone without children to other nodes, none twice, keeps the lists consistent |
| TreeRules.TypeDownSteps | attackTreeDraw/data/types.py:123-140 | a non-Conjunction gives its own class; a Conjunction without children gives Conjunction; otherwise the class of its FIRST child; no answer exactly when the recursion never ends |
| TreeRules.FirstUpSteps | attackTreeDraw/data/types.py:142-197 | the same steps over the FIRST parent, for both `getFirstElementRecursiveUp` and `getTypeRecursiveUp`; the answer is a non-Conjunction or a Conjunction without parents |
| TreeRules.EdgeVerdict | attackTreeDraw/data/types.py:225-239 | `addEdge` accepts only between two nodes of the tree, different, not already linked |
| TreeRules.CascadeTable | attackTreeDraw/data/types.py:241-257 | once the searches have answers, the first five rules raise nothing and reject exactly the forbidden cases |
| TreeRules.SiblingScanAccepts | attackTreeDraw/data/types.py:259-262 | the inner test of the sibling loop needs the destination NOT to resolve to Conjunction, so under the outer guard it never rejects |
| TreeRules.SiblingRuleNeverRejects | attackTreeDraw/data/types.py:258-262 | the last rule never rejects an edge: its inner test needs the destination not to resolve to Conjunction, its outer guard needs it to, so the rule is dead code |
| TreeRules.TypeRulesTable | attackTreeDraw/data/types.py:241-262 | once the three searches have answers, the rules raise nothing and reject exactly when the edge is forbidden: a Countermeasure above a Threat, two Conjunctions resolving to different classes, or a busy non-Conjunction source meeting its own class or, for a Countermeasure source, a Conjunction |
| AttackTree.ConsistentInsert | attackTreeDraw/data/types.py:214 | inserting a new node keeps the tree's bookkeeping |
| AttackTree.ConsistentForget | attackTreeDraw/data/types.py:376 | deleting a node no edge mentions keeps the bookkeeping |
| AttackTree.InEdgesHas | attackTreeDraw/data/types.py:368-370 | the edges built from a copy of `parents` are exactly the edges into the node |
| AttackTree.OutEdgesHas | attackTreeDraw/data/types.py:371-373 | the edges built from a copy of `children` are exactly the edges out of the node |
| AttackTree.RemovalChain | attackTreeDraw/data/types.py:368-376 | the two loops of `removeNode` remove exactly the edges at the node, leave it without lists, and deleting it then gives `Deleted` |
| AttackTree.UntitledHas | attackTreeDraw/data/types.py:288-290 | the collected ids are exactly the listed ids whose node has an empty title |
| AttackTree.UntitledNodes | attackTreeDraw/data/types.py:282-292 | over the iteration order, the collected ids are exactly the untitled nodes, and none are collected iff every node has a title |
| AttackTree.UntitledSame | attackTreeDraw/data/types.py:288-290 | what `checkNodes` collects depends only on the titles of the listed nodes |
| AttackTree.NewConjunctionNotFlagged | attackTreeDraw/gui/items.py:827-828 | a Conjunction the scene creates, titled with its conjunction type, and inserted under a new id at the end of the order adds nothing to what `checkNodes` collects |
| AttackTree.DetachedShape | attackTreeDraw/data/types.py:411-417 | after the clone is added and the edge from the last parent removed, `x` keeps its other parents and its children, and the clone has no lists |
| AttackTree.AttachedShape | attackTreeDraw/data/types.py:418 | `addEdge(parent, clone)` gives the clone at most that one parent and changes no other parents |
| AttackTree.SplitShape | attackTreeDraw/data/types.py:410-422 | one split keeps the tree consistent: `x` loses its last parent; the clone has at most that parent and the children of `x`; every child of `x` gains the clone as last parent; no other parents change |
| AttackTree.Tree.constructor | attackTreeDraw/data/types.py:100-121 | a new tree is empty, `extended` is False whatever the argument, `meta` holds the five empty entries, and `checkMeta` fails |
| AttackTree.Tree.GetNextID | attackTreeDraw/data/types.py:346-359 | the result is the id of the lowest slot free in `nodeList`, `keyList` and `reservedList`, or None when all 10000 are taken |
| AttackTree.Tree.AddNode | attackTreeDraw/data/types.py:199-215 | a node without an id takes the lowest free id; success exactly when that id exists and is new; on success one key is added with empty lists and nothing else changes; on failure only `lastError` changes, to the message of the case |
| AttackTree.Tree.Insert | attackTreeDraw/data/types.py:214 | `nodeList[id] = node` for a new id adds that key at the end of the iteration order with empty lists |
| AttackTree.Tree.AddEdge | attackTreeDraw/data/types.py:217-268 | the verdict is that of the rules on the old tree; an accepted edge is appended to `edgeList`, the source's children and the destination's parents; anything else changes nothing |
| AttackTree.Tree.Append | attackTreeDraw/data/types.py:264-268 | the three appends keep the tree consistent |
| AttackTree.Tree.RemoveEdge | attackTreeDraw/data/types.py:381-399 | true exactly when some edge has the key; then that edge leaves `edgeList` and both lists and nothing else changes; otherwise nothing changes |
| AttackTree.Tree.Detach | attackTreeDraw/data/types.py:394-396 | the three `list.remove` calls take out exactly that edge |
| AttackTree.Tree.RemoveInEdges | attackTreeDraw/data/types.py:368-370 | `removeEdge(p + '-' + id)` for each parent in a copy of the list removes those edges one after the other |
| AttackTree.Tree.RemoveOutEdges | attackTreeDraw/data/types.py:371-373 | the same for the children |
| AttackTree.Tree.Unlink | attackTreeDraw/data/types.py:368-373 | the two loops leave no edge at the node, and deleting it then gives `Deleted` |
| AttackTree.Tree.Forget | attackTreeDraw/data/types.py:374-376 | `root` is cleared for the root, then the key is deleted |
| AttackTree.Tree.RemoveNode | attackTreeDraw/data/types.py:361-379 | false and nothing changes for an unknown id; otherwise every edge at the node goes, every other node's lists lose it, `root` is cleared if it was the root (and `checkMeta` then fails), and the key is deleted |
| AttackTree.Tree.InitNode | attackTreeDraw/data/types.py:30-35 | clears both flags of one node |
| AttackTree.Tree.InitDFS | attackTreeDraw/data/types.py:318-319 | afterwards no node is visited or finished |
| AttackTree.Tree.Dfs | attackTreeDraw/data/types.py:326-344 | true leaves the node finished and the search invariant kept; false stores in `cycleNode` a node of the tree that lies on a cycle and is visited but not finished |
| AttackTree.Tree.Visit | attackTreeDraw/data/types.py:338-344 | marks the node, searches its children in order, and finishes it once all are finished, or stops at the first child that finds a cycle |
| AttackTree.Tree.CheckCycle | attackTreeDraw/data/types.py:313-324 | true exactly when the children relation has no cycle, and then every node is finished; on false `cycleNode` lies on a cycle and is visited but not finished |
| AttackTree.Tree.CheckNodes | attackTreeDraw/data/types.py:282-292 | `falseNodes` is exactly the untitled nodes in iteration order; the result is true iff there are none |
| AttackTree.Tree.CheckExtended | attackTreeDraw/data/types.py:294-311 | true, and stored in `extended`, exactly when some node is a Conjunction without children, a non-root node without parents, or a node with several parents |
| AttackTree.Tree.MakeSimple | attackTreeDraw/data/types.py:401-425 | on a normal return no node has more than one parent; on a tree already of that shape it returns normally and changes nothing (idempotence); every node of the old tree survives unchanged |
| AttackTree.Tree.Pass | attackTreeDraw/data/types.py:407-423 | a pass that splits nothing changes nothing and leaves no node with more than one parent; a tree of that shape is not changed |
| AttackTree.Tree.Split | attackTreeDraw/data/types.py:410-423 | the body of the loop for one node: the clone takes the lowest free id; the edge from the last parent moves to the clone when `addEdge` accepts it; the clone gets the children of the node; stops where no id is left or `addEdge` raises |
| AttackTree.Tree.Relink | attackTreeDraw/data/types.py:416-422 | after the clone is in: re-attaching and copying the children give `Spliced` unless `addEdge` raises |
| AttackTree.Tree.Reattach | attackTreeDraw/data/types.py:416-418 | `removeEdge` of the last parent's edge, then `addEdge(parent, clone)` with the verdict of the rules |
| AttackTree.Tree.DetachLast | attackTreeDraw/data/types.py:416-417 | the last parent is returned and its edge to the node removed |
| AttackTree.Tree.CopyCloneChildren | attackTreeDraw/data/types.py:419-422 | copying the children finishes `Spliced` |
| AttackTree.Tree.CopyChildren | attackTreeDraw/data/types.py:419-422 | the loop appends `Edge(clone, c)` and `clone` to the parents of `c`, for each child in turn, bypassing `addEdge` |
| ViewItems.TypeDownSteps | attackTreeDraw/gui/items.py:71-85 | the view's `getTypeRecursiveDown`: own type for a non-Conjunction; Conjunction without child arrows; otherwise the answer of the destination of the FIRST child arrow |
| ViewItems.TypeUpSteps | attackTreeDraw/gui/items.py:87-92 | the walk over the FIRST parent arrow's start, as `getTypeRecursiveUp`'s documentation describes it |
| ViewItems.UpWalksChildEdges | attackTreeDraw/gui/items.py:87-101 | on a Conjunction under a Countermeasure and above a Threat, `getTypeRecursiveUp` as written answers Threat where the walk over parents answers Countermeasure |
| ViewItems.SandwichWellFormed | attackTreeDraw/gui/items.py:50-51 | the sample scene is consistent |
| ViewItems.SandwichDown | attackTreeDraw/gui/items.py:71-85 | in the sample, the downward walk of the Conjunction answers Threat |
| ViewItems.SandwichUp | attackTreeDraw/gui/items.py:87-92 | in the sample, the walk over the parents answers Countermeasure |
| ViewItems.LinkedWellFormed | attackTreeDraw/gui/items.py:115-116 | appending a new arrow to the start's `childEdges` and the destination's `parentEdges` keeps every listed arrow at the node listing it |
| ViewItems.LinkedOk | attackTreeDraw/gui/items.py:108-116 | a fresh handle is not in the scene, and adding it keeps the scene consistent |
| ViewItems.OffsetsOk | attackTreeDraw/gui/items.py:122-128 | new offsets for the same arrows keep the scene consistent |
| ViewItems.OffsetRule | attackTreeDraw/gui/items.py:108-113 | the offset is -50, 0 or 50: -50 exactly from a Threat to a node resolving Down to Threat, 50 exactly from a Threat to one resolving to Countermeasure |
| ViewItems.Retargeted | attackTreeDraw/gui/items.py:122-128 | retargeting some arrows keeps the set of arrows and changes no other arrow's offset |
| ViewItems.RetargetedStep | attackTreeDraw/gui/items.py:122-128 | one more turn of the loop is one more map update |
| ViewItems.NoneRaiseStep | attackTreeDraw/gui/items.py:122-123 | one more arrow whose walk ends keeps the loop free of exceptions so far |
| ViewItems.ActualizedIdempotent | attackTreeDraw/gui/items.py:118-128 | `actualizeEdges` twice equals once, and it touches no arrow that does not start at the node |
| ViewItems.DealIsPicked | attackTreeDraw/gui/items.py:146-159 | the loop deals each arrow to the side `GoesLeft` names (negative left, positive right, offset 0 alternating from the left), and `neutralLeft` ends true iff the count of offset-0 arrows is odd |
| ViewItems.PickedSizes | attackTreeDraw/gui/items.py:146-159 | the sides together are as long as the arrows; left holds the negatives and half the neutrals rounded up, right the positives and half rounded down |
| ViewItems.PickedCover | attackTreeDraw/gui/items.py:140-160 | every destination lands on exactly one side: as multisets the two sides add up to the list of destinations |
| ViewItems.SignedSides | attackTreeDraw/gui/items.py:148-152 | an arrow with a negative offset is on the left, a positive one on the right |
| ViewItems.Scene.constructor | attackTreeDraw/gui/items.py:50-51 | every view node starts with empty `childEdges` and `parentEdges` |
| ViewItems.Scene.AddEdge | attackTreeDraw/gui/items.py:103-116 | a new arrow with the offset of the rule goes to the end of the start's `childEdges` and of the destination's `parentEdges` (the same handle); it raises, and nothing changes, exactly when the rule's walk never ends |
| ViewItems.Scene.ActualizeEdges | attackTreeDraw/gui/items.py:118-128 | the loop ends normally exactly when no child arrow's walk raises, and then the offsets are `Actualized`; on a raise, at the first child arrow whose walk raises, the arrows before it have the offset of the rule and it and the later ones keep theirs (`RaisedAt`); arrows not starting at the node keep their offsets |
| ViewItems.Scene.ActualizeOne | attackTreeDraw/gui/items.py:122-128 | one turn of the loop: the next child arrow gets the offset of the rule, or the walk raises, nothing changes, and the arrow is the first that raises (`RaisedAt`) |
| ViewItems.Scene.GetLeftRightChildren | attackTreeDraw/gui/items.py:140-160 | the two lists are exactly the destinations `Picked` for the left and for the right side, in the order of `childEdges` |

## Left out

- The Qt user interface is not modelled: painting, arrow geometry, the scene's `addItem`, mouse and menu handlers, and the layout of `gui/main.py`. Only the list logic of the view node is modelled.
- Copy/paste, undo/redo, the file handlers and the parsers are not part of this model. The `reservedList` that copy/paste fills is a field whose value the model takes as given.
- `getFirstElementRecursiveDown` (types.py:161-178) is not modelled: nothing outside itself calls it. Its documentation says it searches downwards, but its loop walks `node.parents` (types.py:171), so as written it is the same search as `getFirstElementRecursiveUp`. This is the same kind of mismatch as the Finding below; with no caller and no contract that depends on it, it is recorded here rather than modelled.
- AttackTree.Tree.AddNode: the model's node value has no `children`/`parents`, and the new key gets empty lists. The source inserts the node object with whatever lists it holds.
  - The scene, the extended parser and `makeSimple` pass a node with empty lists (items.py:828, 869, 886; parsers.py:44; types.py:412-415 after clearing both), so for them nothing is lost.
  - The simple-tree parser appends the parent to `n.parents` before `addNode` (parsers.py:70-75). It then calls `tree.addEdge` with three arguments (parsers.py:82, 89), but `addEdge` takes two (types.py:217).
  - As written, that call raises `TypeError`, which leaves a parent entry with no edge. An `addEdge` that accepted the third argument would append the parent a second time, since it looks only in `edgeList`.
  - Either way the trees this parser builds fall outside the model's consistency invariant (`Consistent`); the parsers are out of scope, as said above.
- `node.view`, `node.position`, `attributes` and `description` play no part in the tree logic. Only `title`, `isRoot` and the node's class are kept.
- Ids are modelled as strings without `-`. The key `source-destination` identifies an edge only for such ids, and every id `getNextID` produces is of the form `N####`.
- The order Python iterates `nodeList` in (insertion order) is kept as a separate list `order`. Python's per-node `visited`/`finished` flags are kept as two sets.
- The type searches and `dfs` recurse without a bound in the source, and deep recursion can raise `RecursionError` before a search or a depth-first search ends. The model lets every finite search end and treats only the searches that never end as raising.
- AttackTree.Tree.MakeSimple: takes a `fuel` bound on the number of nested re-runs, standing for Python's recursion limit. Running out gives `OutOfFuel`, a case the source reports as `RecursionError`.
- AttackTree.Tree.Split: `copy.copy(node)` (types.py:411) also copies the node's `visited`/`finished` flags to the clone. The model gives the clone no marks. This makes no difference, because `checkCycle` resets every flag with `initDFS` before any `dfs`.
- AttackTree.Tree.Split: when `getNextID` finds no free id, the source goes on with a clone whose id is None and adds edges to it. The model stops the pass with `IdsExhausted` and does not follow that corruption.
- AttackTree.Tree.Split: when `addEdge(parent, clone)` raises, the model stops with the clone added and the old edge removed, which is where the exception leaves the source. Nothing after that point is modelled.
- AttackTree.Tree.CopyChildren: the source sets the clone's `children` to a copy of the original's in one assignment. The model appends the same entries one at a time, in that order, and reaches the same lists.
- AttackTree.Tree.Pass: `changed` is set for every node the pass tries to split. This includes a split that stops early, after which the pass returns at once. For `Raised` the exception ends the pass there in the source too; for `IdsExhausted` see the Split line above.
- AttackTree.Tree.Dfs: the finishing times `rank` and `clock` are ghost parameters, used only in the proof.
- ViewItems.Scene: view nodes and arrows are handles (natural numbers) standing for object identity; an arrow's ends and its offset live in maps.
- ViewItems.Scene.AddEdge: the view's walk raising is modelled as the call failing with nothing changed. The source raises before it creates the arrow.

## Findings

| source | as written | input that shows it | evidently intended | confidence | as-written member | corrected member |
|---|---|---|---|---|---|---|
| attackTreeDraw/gui/items.py:87-101 | `getTypeRecursiveUp` loops over `self.childEdges` and follows `c.dst`, so it searches downwards, like `getTypeRecursiveDown` | a Conjunction whose only parent arrow starts at a Countermeasure and whose only child arrow ends at a Threat: the method answers Threat | search the parent arrows (`parentEdges`, following `p.start`), as its documentation and the tree's own `getTypeRecursiveUp` do; the answer for the input above is Countermeasure | not executed | ViewItems.Shape.TypeUpAsWritten, ViewItems.UpWalksChildEdges | ViewItems.Shape.TypeUp, ViewItems.TypeUpSteps |
