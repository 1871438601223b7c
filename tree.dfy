/**
 * The `Tree` class of attackTreeDraw/data/types.py: an arena of nodes keyed by
 * id, the edge list, the edge rules of `addEdge`, removal, the validators, the
 * depth-first cycle check and the rewrite `makeSimple`.
 */
module AttackTree {
  import opened Lists
  import opened NodeIds
  import opened ConjunctionWalk
  import opened TreeGraph
  import opened TreeRules

  /** Outcome of `makeSimple`. */
  datatype SimplifyResult =
    | Simple     // returned normally: no node has two parents
    | OutOfFuel  // more nested passes than the fuel allows (Python's recursion limit)
    | NoFreeIds  // `addNode` found no free id for a clone
    | Raised     // `addEdge` raised while re-attaching a clone

  /** Outcome of one pass of `makeSimple` over the snapshot of the node list. */
  datatype PassStatus = Completed | IdsExhausted | EdgeRaised

  /** The nodes whose `visited` and `finished` flags are set. */
  datatype Marks = Marks(visited: set<Id>, finished: set<Id>)

  /** The fields of the tree besides the graph and the search flags. */
  datatype Extras = Extras(extended: bool, falseNodes: seq<Id>, cycleNode: Option<Id>, root: Option<Id>,
                           meta: map<string, string>, reservedList: seq<string>, lastError: string)

  /**
   * The bookkeeping of a tree: `order` lists every node once, the adjacency
   * lists agree with the edge list, and the search flags are on nodes of the tree.
   */
  ghost predicate Consistent(nodeList: map<Id, Node>, order: seq<Id>, a: Adjacency, visited: set<Id>, finished: set<Id>) {
    && Distinct(order)
    && |order| == |nodeList|
    && (forall i :: 0 <= i < |order| ==> order[i] in nodeList)
    && a.WellFormed(nodeList.Keys)
    && visited <= nodeList.Keys
    && finished <= nodeList.Keys
  }

  /** Inserting a new node with empty lists keeps the bookkeeping. */
  lemma ConsistentInsert(nodes: map<Id, Node>, order: seq<Id>, a: Adjacency, visited: set<Id>, finished: set<Id>,
                         x: Id, node: Node)
    requires Consistent(nodes, order, a, visited, finished) && x !in nodes
    ensures Consistent(nodes[x := node], order + [x], a.Grown(x), visited, finished)
  {
    AddKeyWellFormed(a, nodes.Keys, x);
    assert nodes[x := node].Keys == nodes.Keys + {x};
  }

  /** Deleting a node that no edge mentions keeps the bookkeeping. */
  lemma ConsistentForget(nodes: map<Id, Node>, order: seq<Id>, a: Adjacency, visited: set<Id>, finished: set<Id>, x: Id)
    requires Consistent(nodes, order, a, visited, finished) && x in nodes
    requires a.children[x] == [] && a.parents[x] == []
    ensures Consistent(nodes - {x}, Without(order, x), a.Forgotten(x), visited - {x}, finished - {x})
  {
    ForgetWellFormed(a, nodes.Keys, x);
    WithoutDistinct(order, x);
    DistinctCovers(order, nodes.Keys);
    RemoveFirstIsWithout(order, x);
    assert (nodes - {x}).Keys == nodes.Keys - {x};
    var w := Without(order, x);
    forall i | 0 <= i < |w|
      ensures w[i] in nodes - {x}
    {
      assert w[i] in w;
    }
  }

  /** The edges `p-x`, one per parent `p` in `ps`, in the order the first loop of `removeNode` removes them. */
  function InEdgeList(ps: seq<Id>, x: Id): (es: seq<Edge>)
    ensures |es| == |ps| && forall k :: 0 <= k < |ps| ==> es[k] == Edge(ps[k], x)
  {
    seq(|ps|, k requires 0 <= k < |ps| => Edge(ps[k], x))
  }

  /** The edges `x-c`, one per child `c` in `cs`, in the order the second loop of `removeNode` removes them. */
  function OutEdgeList(x: Id, cs: seq<Id>): (es: seq<Edge>)
    ensures |es| == |cs| && forall k :: 0 <= k < |cs| ==> es[k] == Edge(x, cs[k])
  {
    seq(|cs|, k requires 0 <= k < |cs| => Edge(x, cs[k]))
  }

  /** The edges from the parents of `x` into `x`. */
  function InEdges(a: Adjacency, x: Id): set<Edge>
    requires x in a.parents
  {
    EdgeSet(InEdgeList(a.parents[x], x))
  }

  /** The edges from `x` to its children. */
  function OutEdges(a: Adjacency, x: Id): set<Edge>
    requires x in a.children
  {
    EdgeSet(OutEdgeList(x, a.children[x]))
  }

  /** On a consistent adjacency, the edges into `x` are the edges of the edge list that end at `x`. */
  lemma InEdgesHas(a: Adjacency, keys: set<Id>, x: Id)
    requires a.WellFormed(keys) && x in keys
    ensures forall e :: e in InEdges(a, x) <==> e in a.edges && e.destination == x
  {
    var ps := a.parents[x];
    var es := InEdgeList(ps, x);
    forall e | e in a.edges && e.destination == x
      ensures e in es
    {
      assert e.source in ps;
      var k :| 0 <= k < |ps| && ps[k] == e.source;
      assert es[k] == e;
    }
  }

  lemma OutEdgesHas(a: Adjacency, keys: set<Id>, x: Id)
    requires a.WellFormed(keys) && x in keys
    ensures forall e :: e in OutEdges(a, x) <==> e in a.edges && e.source == x
  {
    var cs := a.children[x];
    var es := OutEdgeList(x, cs);
    forall e | e in a.edges && e.source == x
      ensures e in es
    {
      assert e.destination in cs;
      var k :| 0 <= k < |cs| && cs[k] == e.destination;
      assert es[k] == e;
    }
  }

  /** One more step of the first loop of `removeNode`: the next parent gives a new edge. */
  lemma NextInEdge(ps: seq<Id>, i: nat, x: Id)
    requires Distinct(ps) && i < |ps|
    ensures Edge(ps[i], x) !in InEdgeList(ps[..i], x)
    ensures InEdgeList(ps[..i + 1], x) == InEdgeList(ps[..i], x) + [Edge(ps[i], x)]
  {
    assert InEdgeList(ps[..i + 1], x) == InEdgeList(ps[..i], x) + [Edge(ps[i], x)];
  }

  /** One more step of the second loop of `removeNode`. */
  lemma NextOutEdge(x: Id, cs: seq<Id>, j: nat)
    requires Distinct(cs) && j < |cs|
    ensures Edge(x, cs[j]) !in OutEdgeList(x, cs[..j])
    ensures OutEdgeList(x, cs[..j + 1]) == OutEdgeList(x, cs[..j]) + [Edge(x, cs[j])]
  {
    assert OutEdgeList(x, cs[..j + 1]) == OutEdgeList(x, cs[..j]) + [Edge(x, cs[j])];
  }

  /** The first loop of `removeNode` on the adjacency removes the edges into `x`. */
  lemma UnlinkInEdges(a: Adjacency, keys: set<Id>, x: Id)
    requires a.WellFormed(keys) && x in keys
    ensures UnlinkAll(a, InEdgeList(a.parents[x], x)) == a.Minus(InEdges(a, x))
  {
    var ps := a.parents[x];
    var es := InEdgeList(ps, x);
    forall k | 0 <= k < |es|
      ensures es[k].source in a.children && es[k].destination in a.parents
    {
      assert Edge(ps[k], x) in a.edges;
    }
    UnlinkAllIsMinus(a, es);
  }

  /** The second loop of `removeNode` on the adjacency removes the edges out of `x`. */
  lemma UnlinkOutEdges(a: Adjacency, keys: set<Id>, x: Id)
    requires a.WellFormed(keys) && x in keys
    ensures UnlinkAll(a, OutEdgeList(x, a.children[x])) == a.Minus(OutEdges(a, x))
  {
    var cs := a.children[x];
    var es := OutEdgeList(x, cs);
    forall k | 0 <= k < |es|
      ensures es[k].source in a.children && es[k].destination in a.parents
    {
      assert Edge(x, cs[k]) in a.edges;
    }
    UnlinkAllIsMinus(a, es);
  }

  /** The edges into `x`, then the edges out of `x` once those are gone, are all the edges at `x`. */
  lemma InOutIncident(a0: Adjacency, keys: set<Id>, x: Id)
    requires a0.WellFormed(keys) && x in keys
    ensures InEdges(a0, x) + OutEdges(a0.Minus(InEdges(a0, x)), x) == Incident(a0.edges, x)
  {
    var Rp := InEdges(a0, x);
    var a1 := a0.Minus(Rp);
    InEdgesHas(a0, keys, x);
    MinusWellFormed(a0, keys, Rp);
    OutEdgesHas(a1, keys, x);
  }

  /**
   * The two loops of `removeNode` together take out exactly the edges at `x`:
   * first those into `x`, then those out of it.
   */
  lemma RemovalChain(a0: Adjacency, keys: set<Id>, x: Id, a1: Adjacency, a2: Adjacency)
    requires a0.WellFormed(keys) && x in keys
    requires a1 == UnlinkAll(a0, InEdgeList(a0.parents[x], x))
    requires a2 == UnlinkAll(a1, OutEdgeList(x, a1.children[x]))
    ensures a2 == a0.Minus(Incident(a0.edges, x))
    ensures a2.children[x] == [] && a2.parents[x] == []
    ensures a2.Forgotten(x) == Deleted(a0, x)
  {
    UnlinkInOut(a0, keys, x, a1, a2);
    MinusIncident(a0, keys, x);
  }

  lemma UnlinkInOut(a0: Adjacency, keys: set<Id>, x: Id, a1: Adjacency, a2: Adjacency)
    requires a0.WellFormed(keys) && x in keys
    requires a1 == UnlinkAll(a0, InEdgeList(a0.parents[x], x))
    requires a2 == UnlinkAll(a1, OutEdgeList(x, a1.children[x]))
    ensures a2 == a0.Minus(Incident(a0.edges, x))
  {
    var Rp := InEdges(a0, x);
    UnlinkInEdges(a0, keys, x);
    MinusWellFormed(a0, keys, Rp);
    var R := OutEdges(a1, x);
    UnlinkOutEdges(a1, keys, x);
    MinusMinus(a0, Rp, R);
    InOutIncident(a0, keys, x);
  }

  /** The nodes, in the order `ks`, whose title is empty: what `checkNodes` collects in `falseNodes`. */
  function Untitled(nodes: map<Id, Node>, ks: seq<Id>): (r: seq<Id>)
    ensures |r| <= |ks|
    decreases |ks|
  {
    if ks == [] then []
    else
      var x := ks[|ks| - 1];
      Untitled(nodes, ks[..|ks| - 1]) + (if x in nodes && nodes[x].title == "" then [x] else [])
  }

  /** `falseNodes` holds exactly the listed ids whose node has an empty title. */
  lemma {:induction false} UntitledHas(nodes: map<Id, Node>, ks: seq<Id>)
    ensures forall x :: x in Untitled(nodes, ks) <==> x in ks && x in nodes && nodes[x].title == ""
    decreases |ks|
  {
    if ks != [] {
      var init := ks[..|ks| - 1];
      UntitledHas(nodes, init);
      assert ks == init + [ks[|ks| - 1]];
    }
  }

  /** Only the titles of the listed nodes decide what `checkNodes` collects. */
  lemma {:induction false} UntitledSame(nodes: map<Id, Node>, nodes': map<Id, Node>, ks: seq<Id>)
    requires forall x :: x in ks ==> (x in nodes <==> x in nodes')
    requires forall x :: x in ks && x in nodes ==> nodes[x].title == nodes'[x].title
    ensures Untitled(nodes, ks) == Untitled(nodes', ks)
    decreases |ks|
  {
    if ks != [] {
      UntitledSame(nodes, nodes', ks[..|ks| - 1]);
    }
  }

  /**
   * A Conjunction the scene creates and `addNode` inserts under a new id is
   * titled with its conjunction type, so `checkNodes` never flags it.
   */
  lemma NewConjunctionNotFlagged(nodes: map<Id, Node>, order: seq<Id>, id: Id, t: ConjunctionType)
    requires id !in order
    ensures Untitled(nodes[id := NewConjunction(t)], order + [id]) == Untitled(nodes, order)
  {
    var nodes' := nodes[id := NewConjunction(t)];
    assert (order + [id])[..|order|] == order;
    UntitledSame(nodes', nodes, order);
  }

  /** Over the iteration order of a consistent tree, the untitled nodes are exactly the nodes with an empty title. */
  lemma UntitledNodes(nodes: map<Id, Node>, order: seq<Id>, a: Adjacency, visited: set<Id>, finished: set<Id>)
    requires Consistent(nodes, order, a, visited, finished)
    ensures forall x :: x in Untitled(nodes, order) <==> x in nodes && nodes[x].title == ""
    ensures Untitled(nodes, order) == [] <==> forall x :: x in nodes ==> nodes[x].title != ""
  {
    DistinctCovers(order, nodes.Keys);
    UntitledHas(nodes, order);
    if Untitled(nodes, order) != [] {
      assert Untitled(nodes, order)[0] in Untitled(nodes, order);
    }
  }

  /**
   * One of the three reasons `checkExtended` calls a tree extended holds at
   * `x`: a Conjunction without children, a node other than the root without
   * parents, or a node with more than one parent.
   */
  predicate ExtendedAt(n: Node, a: Adjacency, x: Id)
    requires x in a.children && x in a.parents
  {
    || (n.kind.ConjunctionKind? && |a.children[x]| == 0)
    || (!n.isRoot && |a.parents[x]| == 0)
    || |a.parents[x]| > 1
  }

  /** No node has more than one parent: the shape `makeSimple` produces. */
  ghost predicate SimpleShape(a: Adjacency) {
    forall y :: y in a.parents ==> |a.parents[y]| <= 1
  }

  /** The last entry of a node's `parents`: the parent `makeSimple` moves to the clone. */
  function LastParent(a: Adjacency, x: Id): Id
    requires x in a.parents && a.parents[x] != []
  {
    a.parents[x][|a.parents[x]| - 1]
  }

  /**
   * The first half of one step of `makeSimple` on `x`: the clone `n` is added
   * with empty lists and the edge from the last parent of `x` is removed.
   */
  function Detached(nodes: map<Id, Node>, a: Adjacency, x: Id, n: Id): Adjacency
    requires a.WellFormed(nodes.Keys) && x in nodes && n !in nodes && a.parents[x] != []
  {
    var p := LastParent(a, x);
    assert Edge(p, x) in a.edges;
    a.Grown(n).Unlinked(Edge(p, x))
  }

  /** `addEdge(p, n)` applied on the verdict `accepted`. */
  function Attached(b: Adjacency, p: Id, n: Id, accepted: bool): Adjacency
    requires p in b.children && n in b.parents
  {
    if accepted then b.Plus(Edge(p, n)) else b
  }

  /** The verdict of `addEdge` from the last parent of `x` to its clone `n`, once the old edge is gone. */
  function SplitVerdict(nodes: map<Id, Node>, a: Adjacency, x: Id, n: Id): Verdict
    requires a.WellFormed(nodes.Keys) && x in nodes && n !in nodes && a.parents[x] != []
  {
    DetachedShape(nodes, a, x, n);
    EdgeVerdict(nodes[n := nodes[x]], Detached(nodes, a, x, n), LastParent(a, x), n)
  }

  /** The end of a step of `makeSimple` that did not raise: the clone is linked to every child of `x`. */
  function Spliced(nodes: map<Id, Node>, a: Adjacency, x: Id, n: Id, accepted: bool): Adjacency
    requires a.WellFormed(nodes.Keys) && x in nodes && n !in nodes && a.parents[x] != []
  {
    DetachedShape(nodes, a, x, n);
    assert forall y :: y in a.children[x] ==> Edge(x, y) in a.edges;
    CopyOut(Attached(Detached(nodes, a, x, n), LastParent(a, x), n, accepted), n, a.children[x])
  }

  /** Removing the edge from the last parent leaves `x` with the others and a clone without lists. */
  lemma DetachedShape(nodes: map<Id, Node>, a: Adjacency, x: Id, n: Id)
    requires a.WellFormed(nodes.Keys) && x in nodes && n !in nodes && a.parents[x] != []
    ensures nodes[n := nodes[x]].Keys == nodes.Keys + {n}
    ensures var b := Detached(nodes, a, x, n);
            && b.WellFormed(nodes.Keys + {n})
            && b.parents[x] == a.parents[x][..|a.parents[x]| - 1]
            && b.parents[n] == [] && b.children[n] == []
            && b.children[x] == a.children[x]
            && forall y :: y in nodes && y != x ==> b.parents[y] == a.parents[y]
  {
    var ps := a.parents[x];
    var p := LastParent(a, x);
    var keys := nodes.Keys + {n};
    assert nodes[n := nodes[x]].Keys == keys;
    AddKeyWellFormed(a, nodes.Keys, n);
    var g := a.Grown(n);
    assert Edge(p, x) in g.edges;
    RemoveOne(g, keys, Edge(p, x));
    WithoutLast(ps);
  }

  /** `addEdge(p, n)` on a clone without lists gives it at most the one parent `p`, and nothing else's parents change. */
  lemma AttachedShape(b: Adjacency, keys: set<Id>, p: Id, n: Id, accepted: bool)
    requires b.WellFormed(keys) && p in keys && n in keys && p != n
    requires b.parents[n] == [] && b.children[n] == []
    ensures var c := Attached(b, p, n, accepted);
            && c.WellFormed(keys)
            && c.children[n] == [] && |c.parents[n]| <= 1
            && forall y :: y in keys && y != n ==> c.parents[y] == b.parents[y]
  {
    if accepted {
      assert Edge(p, n) !in b.edges;
      PlusWellFormed(b, keys, Edge(p, n));
    }
  }

  /** Before the children of `x` are copied to its clone `n`: what the copying loop needs. */
  lemma SpliceReady(nodes: map<Id, Node>, a: Adjacency, x: Id, n: Id, accepted: bool)
    requires a.WellFormed(nodes.Keys) && x in nodes && n !in nodes && a.parents[x] != []
    ensures var c := Attached(Detached(nodes, a, x, n), LastParent(a, x), n, accepted);
            && c.WellFormed(nodes.Keys + {n})
            && c.children[n] == [] && c.children[x] == a.children[x]
            && Distinct(a.children[x])
            && (forall y :: y in a.children[x] ==> y in nodes && y != n)
            && CopyOut(c, n, a.children[x]) == Spliced(nodes, a, x, n, accepted)
  {
    DetachedShape(nodes, a, x, n);
    var p := LastParent(a, x);
    assert Edge(p, x) in a.edges;
    AttachedShape(Detached(nodes, a, x, n), nodes.Keys + {n}, p, n, accepted);
    assert forall y :: y in a.children[x] ==> Edge(x, y) in a.edges;
  }

  /**
   * What one step of `makeSimple` achieves: the tree stays consistent, `x`
   * loses its last parent, the clone `n` has at most that parent and the
   * children of `x`, and every child of `x` gains `n` as its last parent;
   * no other node's parents change.
   */
  lemma SplitShape(nodes: map<Id, Node>, a: Adjacency, x: Id, n: Id, accepted: bool)
    requires a.WellFormed(nodes.Keys) && x in nodes && n !in nodes && a.parents[x] != []
    ensures var r := Spliced(nodes, a, x, n, accepted);
            && r.WellFormed(nodes.Keys + {n})
            && r.parents[x] == a.parents[x][..|a.parents[x]| - 1]
            && r.children[n] == a.children[x]
            && |r.parents[n]| <= 1
            && forall y :: y in nodes && y != x ==> r.parents[y] == a.parents[y] + (if y in a.children[x] then [n] else [])
  {
    var keys := nodes.Keys + {n};
    var p := LastParent(a, x);
    DetachedShape(nodes, a, x, n);
    var b := Detached(nodes, a, x, n);
    assert Edge(p, x) in a.edges;
    AttachedShape(b, keys, p, n, accepted);
    var c := Attached(b, p, n, accepted);
    var cs := a.children[x];
    assert forall y :: y in cs ==> Edge(x, y) in a.edges;
    CopyOutWellFormed(c, keys, n, cs);
    CopyOutChildren(c, n, cs);
    var r := CopyOut(c, n, cs);
    assert x !in cs by {
      assert Edge(x, x) !in a.edges;
    }
    CopyOutParents(c, n, cs, x);
    CopyOutParents(c, n, cs, n);
    forall y | y in nodes && y != x
      ensures r.parents[y] == a.parents[y] + (if y in cs then [n] else [])
    {
      CopyOutParents(c, n, cs, y);
      assert c.parents[y] == b.parents[y] == a.parents[y];
    }
  }

  /** Every node of the old tree is still there with the same payload, and the old iteration order is a prefix of the new one. */
  ghost predicate Kept(nodes0: map<Id, Node>, order0: seq<Id>, nodes: map<Id, Node>, order: seq<Id>) {
    && (forall y :: y in nodes0 ==> y in nodes && nodes[y] == nodes0[y])
    && order0 <= order
  }

  lemma KeptInsert(nodes: map<Id, Node>, order: seq<Id>, n: Id, node: Node)
    requires n !in nodes
    ensures Kept(nodes, order, nodes[n := node], order + [n])
  {
  }

  lemma KeptTrans(n0: map<Id, Node>, o0: seq<Id>, n1: map<Id, Node>, o1: seq<Id>, n2: map<Id, Node>, o2: seq<Id>)
    requires Kept(n0, o0, n1, o1) && Kept(n1, o1, n2, o2)
    ensures Kept(n0, o0, n2, o2)
  {
  }

  /** The meta data a new tree starts with. */
  const DefaultMeta: map<string, string> :=
    map["title" := "", "author" := "", "date" := "", "description" := "", "root" := ""]

  class Tree {
    var extended: bool
    /** `nodeList`; `order` is the insertion order of its keys, the order Python iterates them in. */
    var nodeList: map<Id, Node>
    var order: seq<Id>
    /** `edgeList`, together with every node's `children` and `parents` id lists. */
    var graph: Adjacency
    /** The nodes whose `visited` (resp. `finished`) flag is set. */
    var marks: Marks
    var falseNodes: seq<Id>
    var cycleNode: Option<Id>
    var root: Option<Id>
    var meta: map<string, string>
    var reservedList: seq<string>
    var lastError: string

    function Info(): Extras
      reads this
    {
      Extras(extended, falseNodes, cycleNode, root, meta, reservedList, lastError)
    }

    /** The invariant every operation keeps. */
    ghost predicate Valid()
      reads this`nodeList, this`order, this`graph, this`marks
    {
      Consistent(nodeList, order, graph, marks.visited, marks.finished)
    }

    /** `Tree(extended)`: the argument is stored and then overwritten with False. */
    constructor(extended: bool)
      ensures Valid()
      ensures !this.extended
      ensures nodeList == map[] && order == [] && graph == Adjacency([], map[], map[])
      ensures marks.visited == {} && marks.finished == {}
      ensures falseNodes == [] && cycleNode == None && root == None && meta == DefaultMeta
      ensures reservedList == [] && lastError == ""
      ensures !CheckMeta()
    {
      this.extended := extended;
      nodeList := map[];
      order := [];
      graph := Adjacency([], map[], map[]);
      marks := Marks({}, {});
      this.extended := false;
      falseNodes := [];
      cycleNode := None;
      root := None;
      meta := DefaultMeta;
      reservedList := [];
      lastError := "";
    }

    // ---------------------------------------------------------------------
    // Ids and insertion (types.py:199-215, 346-359)

    /** `getNextID(keyList)`: scans N0000, N0001, ... and returns the first free one. */
    method GetNextID(keyList: seq<string>) returns (r: Option<Id>)
      ensures IsLowestFree(r, nodeList.Keys, keyList, reservedList)
      ensures r.Some? ==> Free(r.value, nodeList.Keys, keyList, reservedList)
    {
      for i := 0 to IdSpace
        invariant forall j :: 0 <= j < i ==> !Free(IdOf(j), nodeList.Keys, keyList, reservedList)
      {
        var id := IdOf(i);
        if id !in nodeList && id !in keyList && id !in reservedList {
          return Some(id);
        }
      }
      return None;
    }

    /**
     * `addNode`: a node without an id gets `getNextID()`; insertion fails when
     * there is no free id or the id is already a key.
     */
    method AddNode(node: Node, id: Option<Id>) returns (ok: bool, newId: Option<Id>)
      requires Valid()
      modifies this`nodeList, this`order, this`graph, this`lastError
      ensures Valid()
      ensures id.Some? ==> newId == id
      ensures id.None? ==> IsLowestFree(newId, old(nodeList).Keys, [], old(reservedList))
      ensures ok <==> newId.Some? && newId.value !in old(nodeList)
      ensures id.None? ==> (ok <==> newId.Some?)
      ensures ok ==> nodeList == old(nodeList)[newId.value := node] && order == old(order) + [newId.value]
      ensures ok ==> graph == old(graph).Grown(newId.value) && unchanged(this`lastError)
      ensures !ok ==> unchanged(this`nodeList, this`order, this`graph)
      ensures !ok ==> lastError == if newId.None? then "No free node IDs left" else "Node ID already in tree"
    {
      newId := id;
      if id.None? {
        newId := GetNextID([]);
      }
      if newId.None? {
        lastError := "No free node IDs left";
        ok := false;
      } else if newId.value in nodeList {
        lastError := "Node ID already in tree";
        ok := false;
      } else {
        Insert(newId.value, node);
        ok := true;
      }
    }

    /** The insertion `nodeList[id] = node` of a node whose id is new. */
    method Insert(x: Id, node: Node)
      requires Valid() && x !in nodeList
      modifies this`nodeList, this`order, this`graph
      ensures Valid()
      ensures nodeList == old(nodeList)[x := node] && order == old(order) + [x]
      ensures graph == old(graph).Grown(x)
    {
      ConsistentInsert(nodeList, order, graph, marks.visited, marks.finished, x, node);
      nodeList, order, graph := nodeList[x := node], order + [x], graph.Grown(x);
    }

    // ---------------------------------------------------------------------
    // Edges (types.py:217-268)

    /**
     * `addEdge(s, d)`: the result is EdgeVerdict(s, d); an accepted edge is
     * appended to `edgeList`, to the source's children and to the destination's
     * parents; anything else changes nothing.
     */
    method AddEdge(s: Id, d: Id) returns (v: Verdict)
      requires Valid()
      modifies this`graph
      ensures Valid()
      ensures v == EdgeVerdict(old(nodeList), old(graph), s, d)
      ensures v == Accept ==> graph == old(graph).Plus(Edge(s, d))
      ensures v != Accept ==> unchanged(this`graph)
    {
      if s !in nodeList || d !in nodeList {
        return Reject;
      }
      var edge := Edge(s, d);
      for i := 0 to |graph.edges|
        invariant forall k :: 0 <= k < i ==> graph.edges[k].Hash() != edge.Hash()
      {
        if edge.Hash() == graph.edges[i].Hash() {
          HashInjective(edge, graph.edges[i]);
          return Reject;
        }
      }
      assert edge !in graph.edges;
      if d == s {
        return Reject;
      }
      v := TypeRules(nodeList, graph, s, d);
      if v == Accept {
        Append(edge);
      }
    }

    /** The three appends of an accepted edge. */
    method Append(e: Edge)
      requires Valid()
      requires e.source in nodeList && e.destination in nodeList && e.source != e.destination && e !in graph.edges
      modifies this`graph
      ensures Valid()
      ensures graph == old(graph).Plus(e)
    {
      PlusWellFormed(graph, nodeList.Keys, e);
      graph := graph.Plus(e);
    }

    /**
     * `removeEdge(key)`: finds the first edge whose key is `key` and removes it
     * from `edgeList` and from both adjacency lists.
     */
    method RemoveEdge(key: string) returns (found: bool)
      requires Valid()
      modifies this`graph
      ensures Valid()
      ensures found <==> old(EdgeWithKey(graph.edges, key)).Some?
      ensures found ==>
                var e := old(EdgeWithKey(graph.edges, key)).value;
                graph == old(graph).Unlinked(e)
      ensures !found ==> unchanged(this`graph)
    {
      var i := 0;
      while i < |graph.edges| && graph.edges[i].Hash() != key
        invariant 0 <= i <= |graph.edges|
        invariant EdgeWithKey(graph.edges[i..], key) == EdgeWithKey(graph.edges, key)
      {
        assert graph.edges[i..][1..] == graph.edges[i + 1..];
        i := i + 1;
      }
      if i == |graph.edges| {
        return false;
      }
      Detach(graph.edges[i]);
      found := true;
    }

    /** The three `list.remove` calls of `removeEdge` for an edge of the tree. */
    method Detach(e: Edge)
      requires Valid() && e in graph.edges
      modifies this`graph
      ensures Valid()
      ensures graph == old(graph).Unlinked(e)
    {
      RemoveOne(graph, nodeList.Keys, e);
      graph := graph.Removed(e);
    }

    /** The first loop of `removeNode`: `removeEdge(p + '-' + id)` for every parent `p` of a copy of the list. */
    method RemoveInEdges(id: Id)
      requires Valid() && id in nodeList
      modifies this`graph
      ensures Valid()
      ensures graph == UnlinkAll(old(graph), InEdgeList(old(graph.parents)[id], id))
    {
      ghost var a0 := graph;
      var ps := graph.parents[id];
      assert Distinct(ps);
      for i := 0 to |ps|
        invariant Valid()
        invariant graph == UnlinkAll(a0, InEdgeList(ps[..i], id))
      {
        var e := Edge(ps[i], id);
        ghost var es := InEdgeList(ps[..i], id);
        NextInEdge(ps, i, id);
        UnlinkAllEdges(a0, es);
        assert e in a0.edges;
        EdgeWithKeyFinds(graph.edges, e);
        var _ := RemoveEdge(ps[i] + "-" + id);
        assert (es + [e])[..|es|] == es;
      }
      assert ps[..|ps|] == ps;
    }

    /** The second loop of `removeNode`: `removeEdge(id + '-' + c)` for every child `c` of a copy of the list. */
    method RemoveOutEdges(id: Id)
      requires Valid() && id in nodeList
      modifies this`graph
      ensures Valid()
      ensures graph == UnlinkAll(old(graph), OutEdgeList(id, old(graph.children)[id]))
    {
      ghost var a0 := graph;
      var cs := graph.children[id];
      assert Distinct(cs);
      for j := 0 to |cs|
        invariant Valid()
        invariant graph == UnlinkAll(a0, OutEdgeList(id, cs[..j]))
      {
        var e := Edge(id, cs[j]);
        ghost var es := OutEdgeList(id, cs[..j]);
        NextOutEdge(id, cs, j);
        UnlinkAllEdges(a0, es);
        assert e in a0.edges;
        EdgeWithKeyFinds(graph.edges, e);
        var _ := RemoveEdge(id + "-" + cs[j]);
        assert (es + [e])[..|es|] == es;
      }
      assert cs[..|cs|] == cs;
    }

    /**
     * The end of `removeNode`, once no edge is left at the node: `root` is
     * cleared if the node is the root, and `del nodeList[id]`.
     */
    method Forget(id: Id)
      requires Valid() && id in nodeList && graph.children[id] == [] && graph.parents[id] == []
      modifies this`nodeList, this`order, this`graph, this`marks, this`root
      ensures Valid()
      ensures nodeList == old(nodeList) - {id} && order == Without(old(order), id)
      ensures graph == old(graph).Forgotten(id)
      ensures marks.visited == old(marks.visited) - {id} && marks.finished == old(marks.finished) - {id}
      ensures root == if old(nodeList)[id].isRoot then None else old(root)
    {
      ConsistentForget(nodeList, order, graph, marks.visited, marks.finished, id);
      if nodeList[id].isRoot {
        root := None;
      }
      nodeList, order, graph := nodeList - {id}, Without(order, id), graph.Forgotten(id);
      marks := Marks(marks.visited - {id}, marks.finished - {id});
    }

    /**
     * `removeNode(id)`: removes every edge into and out of the node, clears
     * `root` if the node is the root, and deletes it.
     */
    method RemoveNode(id: Id) returns (ok: bool)
      requires Valid()
      modifies this`nodeList, this`order, this`graph, this`root
      modifies this`marks
      ensures Valid()
      ensures ok <==> id in old(nodeList)
      ensures !ok ==> nodeList == old(nodeList) && order == old(order) && graph == old(graph) && root == old(root)
      ensures !ok ==> marks.visited == old(marks.visited) && marks.finished == old(marks.finished)
      ensures ok ==> nodeList == old(nodeList) - {id} && order == Without(old(order), id)
      ensures ok ==> graph == Deleted(old(graph), id)
      ensures ok ==> root == if old(nodeList)[id].isRoot then None else old(root)
      ensures ok && old(nodeList)[id].isRoot ==> !CheckMeta()
      ensures ok ==> marks.visited == old(marks.visited) - {id} && marks.finished == old(marks.finished) - {id}
    {
      ok := id in nodeList;
      if ok {
        Unlink(id);
        assert nodeList == old(nodeList) && root == old(root);
        Forget(id);
      }
    }

    /** The two loops of `removeNode`; afterwards no edge is left at the node. */
    method Unlink(id: Id)
      requires Valid() && id in nodeList
      modifies this`graph
      ensures Valid()
      ensures graph.Forgotten(id) == Deleted(old(graph), id)
      ensures graph.children[id] == [] && graph.parents[id] == []
    {
      ghost var a0 := graph;
      RemoveInEdges(id);
      ghost var a1 := graph;
      RemoveOutEdges(id);
      RemovalChain(a0, nodeList.Keys, id, a1, graph);
    }

    // ---------------------------------------------------------------------
    // Validators (types.py:270-311)

    /** `checkMeta`: author and title are set and non-empty, and there is a root. */
    function CheckMeta(): bool
      reads this`meta, this`root
    {
      if "author" !in meta || meta["author"] == "" || "title" !in meta || meta["title"] == "" || root.None? then false
      else true
    }

    // ---------------------------------------------------------------------
    // Cycle check (types.py:30-35, 313-344)

    /** `Node.initDFS` on the node `x`: clears both search flags. */
    method InitNode(x: Id)
      requires Valid() && x in nodeList
      modifies this`marks
      ensures Valid()
      ensures marks.visited == old(marks.visited) - {x} && marks.finished == old(marks.finished) - {x}
    {
      marks := Marks(marks.visited - {x}, marks.finished - {x});
    }

    /** The first loop of `checkCycle`: `initDFS` on every node. */
    method InitDFS()
      requires Valid()
      modifies this`marks
      ensures Valid()
      ensures marks.visited == {} && marks.finished == {}
    {
      for i := 0 to |order|
        invariant Valid()
        invariant forall k :: 0 <= k < i ==> order[k] !in marks.visited && order[k] !in marks.finished
      {
        InitNode(order[i]);
      }
      DistinctCovers(order, nodeList.Keys);
    }

    /**
     * `dfs(node)` called with the path `stack` of calls in progress: true once
     * the node is finished; false when the search meets a node that is still
     * on the stack, which is then stored in `cycleNode` and lies on a cycle.
     * `rank` and `clock` are the finishing times, for the proof only.
     */
    method Dfs(x: Id, ghost stack: seq<Id>, ghost rank: map<Id, nat>, ghost clock: nat)
      returns (ok: bool, ghost rank': map<Id, nat>, ghost clock': nat)
      requires Valid() && x in nodeList
      requires Searching(graph.children, marks.visited, marks.finished, rank, clock, stack)
      requires stack != [] ==> x in graph.children[stack[|stack| - 1]]
      modifies this`marks, this`cycleNode
      ensures Valid()
      ensures old(marks.visited) <= marks.visited && old(marks.finished) <= marks.finished
      ensures ok ==> x in marks.finished && cycleNode == old(cycleNode)
      ensures ok ==> Searching(graph.children, marks.visited, marks.finished, rank', clock', stack)
      ensures !ok ==> cycleNode.Some? && cycleNode.value in nodeList && OnCycle(graph.children, cycleNode.value)
      ensures !ok ==> cycleNode.value in marks.visited && cycleNode.value !in marks.finished
      decreases |nodeList.Keys - marks.visited|, 1
    {
      rank', clock' := rank, clock;
      if x in marks.finished {
        ok := true;
      } else if x in marks.visited {
        SearchGray(graph.children, marks.visited, marks.finished, rank, clock, stack, x);
        cycleNode := Some(x);
        ok := false;
      } else {
        ok, rank', clock' := Visit(x, stack, rank, clock);
      }
    }

    /** The rest of `dfs` on a node not visited yet: mark it, search its children in order, finish it. */
    method Visit(x: Id, ghost stack: seq<Id>, ghost rank: map<Id, nat>, ghost clock: nat)
      returns (ok: bool, ghost rank': map<Id, nat>, ghost clock': nat)
      requires Valid() && x in nodeList && x !in marks.visited
      requires Searching(graph.children, marks.visited, marks.finished, rank, clock, stack)
      requires stack != [] ==> x in graph.children[stack[|stack| - 1]]
      modifies this`marks, this`cycleNode
      ensures Valid()
      ensures old(marks.visited) <= marks.visited && old(marks.finished) <= marks.finished
      ensures ok ==> x in marks.finished && cycleNode == old(cycleNode)
      ensures ok ==> Searching(graph.children, marks.visited, marks.finished, rank', clock', stack)
      ensures !ok ==> cycleNode.Some? && cycleNode.value in nodeList && OnCycle(graph.children, cycleNode.value)
      ensures !ok ==> cycleNode.value in marks.visited && cycleNode.value !in marks.finished
      decreases |nodeList.Keys - marks.visited|, 0
    {
      ghost var v0, ch, keys, path := marks.visited, graph.children, nodeList.Keys, stack + [x];
      SearchEnter(ch, marks.visited, marks.finished, rank, clock, stack, x);
      marks := marks.(visited := marks.visited + {x});
      rank', clock' := rank, clock;
      var cs := graph.children[x];
      for i := 0 to |cs|
        invariant Valid()
        invariant x in marks.visited && v0 <= marks.visited && old(marks.finished) <= marks.finished
        invariant cycleNode == old(cycleNode)
        invariant Searching(ch, marks.visited, marks.finished, rank', clock', path)
        invariant Covered(cs, i, marks.finished)
      {
        ChildKey(graph, keys, x, i);
        Shrinks(keys, v0, marks.visited, x);
        ghost var f := marks.finished;
        ok, rank', clock' := Dfs(cs[i], path, rank', clock');
        if !ok {
          return;
        }
        Grows(cs, i, f, marks.finished);
      }
      CoveredAll(cs, marks.finished);
      SearchFinish(ch, marks.visited, marks.finished, rank', clock', stack, x);
      marks, rank', clock' := marks.(finished := marks.finished + {x}), rank'[x := clock'], clock' + 1;
      ok := true;
    }

    /**
     * `checkCycle`: true exactly when no walk along child links comes back to
     * where it began; on false, `cycleNode` is a node on such a cycle.
     */
    method CheckCycle() returns (ok: bool)
      requires Valid()
      modifies this`marks, this`cycleNode
      ensures Valid()
      ensures ok <==> !HasCycle(graph.children)
      ensures ok ==> marks.finished == nodeList.Keys && cycleNode == old(cycleNode)
      ensures !ok ==> cycleNode.Some? && cycleNode.value in nodeList && OnCycle(graph.children, cycleNode.value)
      ensures !ok ==> cycleNode.value in marks.visited && cycleNode.value !in marks.finished
    {
      InitDFS();
      ghost var rank: map<Id, nat>, clock: nat := map[], 0;
      ghost var ch := graph.children;
      for i := 0 to |order|
        invariant Valid()
        invariant Searching(ch, marks.visited, marks.finished, rank, clock, [])
        invariant Covered(order, i, marks.finished)
        invariant cycleNode == old(cycleNode)
      {
        ghost var f := marks.finished;
        var c;
        c, rank, clock := Dfs(order[i], [], rank, clock);
        if !c {
          return false;
        }
        Grows(order, i, f, marks.finished);
      }
      CoveredAll(order, marks.finished);
      DistinctCovers(order, nodeList.Keys);
      RankedAcyclic(ch, marks.finished, rank, clock);
      return true;
    }

    // ---------------------------------------------------------------------
    // Node and shape checks (types.py:282-311)

    /** `checkNodes`: collects the nodes without a title in `falseNodes`; true when there are none. */
    method CheckNodes() returns (ok: bool)
      requires Valid()
      modifies this`falseNodes
      ensures falseNodes == Untitled(nodeList, order)
      ensures ok <==> falseNodes == []
      ensures ok <==> forall x :: x in nodeList ==> nodeList[x].title != ""
    {
      falseNodes := [];
      for i := 0 to |order|
        invariant falseNodes == Untitled(nodeList, order[..i])
      {
        assert order[..i + 1][..i] == order[..i];
        if nodeList[order[i]].title == "" {
          falseNodes := falseNodes + [order[i]];
        }
      }
      assert order[..|order|] == order;
      UntitledNodes(nodeList, order, graph, marks.visited, marks.finished);
      ok := |falseNodes| == 0;
    }

    /**
     * `checkExtended`: true, and stored in `extended`, exactly when some node
     * is a Conjunction without children, a non-root node without parents, or
     * a node with more than one parent.
     */
    method CheckExtended() returns (ext: bool)
      requires Valid()
      modifies this`extended
      ensures extended == ext
      ensures ext <==> exists x :: x in nodeList && ExtendedAt(nodeList[x], graph, x)
    {
      for i := 0 to |order|
        invariant forall k :: 0 <= k < i ==> !ExtendedAt(nodeList[order[k]], graph, order[k])
      {
        var x := order[i];
        var node := nodeList[x];
        if node.kind.ConjunctionKind? && |graph.children[x]| == 0 {
          extended := true;
          assert x in nodeList && ExtendedAt(nodeList[x], graph, x);
          return true;
        }
        if !node.isRoot && |graph.parents[x]| == 0 {
          extended := true;
          assert x in nodeList && ExtendedAt(nodeList[x], graph, x);
          return true;
        }
        if |graph.parents[x]| > 1 {
          extended := true;
          assert x in nodeList && ExtendedAt(nodeList[x], graph, x);
          return true;
        }
      }
      DistinctCovers(order, nodeList.Keys);
      extended := false;
      return false;
    }

    // ---------------------------------------------------------------------
    // makeSimple (types.py:401-425)

    /**
     * `makeSimple`: passes over the nodes until one pass changes nothing, at
     * most `fuel` passes after the first. On Simple no node has more than one
     * parent; on a tree that already has that shape nothing changes.
     */
    method MakeSimple(fuel: nat) returns (r: SimplifyResult)
      requires Valid()
      modifies this`nodeList, this`order, this`graph, this`lastError
      ensures Valid()
      ensures Kept(old(nodeList), old(order), nodeList, order)
      ensures r == Simple ==> SimpleShape(graph)
      ensures SimpleShape(old(graph)) ==> r == Simple
      ensures SimpleShape(old(graph)) ==> unchanged(this`nodeList, this`order, this`graph)
      decreases fuel
    {
      var st, changed := Pass();
      if st == IdsExhausted {
        r := NoFreeIds;
      } else if st == EdgeRaised {
        r := Raised;
      } else if !changed {
        r := Simple;
      } else if fuel == 0 {
        r := OutOfFuel;
      } else {
        ghost var nodes0, order0 := nodeList, order;
        r := MakeSimple(fuel - 1);
        KeptTrans(old(nodeList), old(order), nodes0, order0, nodeList, order);
      }
    }

    /**
     * One pass of `makeSimple` over a snapshot of the node list: every node
     * that has more than one parent when its turn comes is split. `changed`
     * says whether a split was attempted; a pass that changes nothing leaves a
     * tree in which no node has more than one parent.
     */
    method Pass() returns (st: PassStatus, changed: bool)
      requires Valid()
      modifies this`nodeList, this`order, this`graph, this`lastError
      ensures Valid()
      ensures Kept(old(nodeList), old(order), nodeList, order)
      ensures !changed ==> unchanged(this`nodeList, this`order, this`graph)
      ensures !changed ==> st == Completed && SimpleShape(graph)
      ensures SimpleShape(old(graph)) ==> !changed
    {
      var snapshot := order;
      st, changed := Completed, false;
      for i := 0 to |snapshot|
        invariant Valid()
        invariant Kept(old(nodeList), old(order), nodeList, order)
        invariant !changed ==> st == Completed
        invariant !changed ==> unchanged(this`nodeList, this`order, this`graph)
        invariant !changed ==> forall k :: 0 <= k < i ==> |graph.parents[snapshot[k]]| <= 1
        invariant SimpleShape(old(graph)) ==> !changed
      {
        var x := snapshot[i];
        assert x in old(nodeList);
        if |graph.parents[x]| > 1 {
          ghost var nodes0, order0 := nodeList, order;
          var clone;
          st, clone := Split(x);
          changed := true;
          KeptTrans(old(nodeList), old(order), nodes0, order0, nodeList, order);
          if st != Completed {
            return;
          }
        }
      }
      if !changed {
        DistinctCovers(order, nodeList.Keys);
      }
    }

    /**
     * The body of the loop of `makeSimple` for a node `x` with more than one
     * parent: a copy of `x` is added under the lowest free id, the edge from
     * the last parent of `x` is removed, `addEdge` from that parent to the
     * clone is tried, and the clone is linked to every child of `x`.
     */
    method Split(x: Id) returns (st: PassStatus, clone: Option<Id>)
      requires Valid() && x in nodeList && |graph.parents[x]| > 1
      modifies this`nodeList, this`order, this`graph, this`lastError
      ensures Valid()
      ensures Kept(old(nodeList), old(order), nodeList, order)
      ensures IsLowestFree(clone, old(nodeList).Keys, [], old(reservedList))
      ensures clone.None? <==> st == IdsExhausted
      ensures clone.None? ==> unchanged(this`nodeList, this`order, this`graph)
      ensures clone.None? ==> lastError == "No free node IDs left"
      ensures clone.Some? ==> nodeList == old(nodeList)[clone.value := old(nodeList)[x]]
      ensures clone.Some? ==> order == old(order) + [clone.value] && unchanged(this`lastError)
      ensures clone.Some? ==> clone.value !in old(nodeList)
      ensures clone.Some? ==> (st == EdgeRaised <==> SplitVerdict(old(nodeList), old(graph), x, clone.value) == Raise)
      ensures st == EdgeRaised ==> graph == Detached(old(nodeList), old(graph), x, clone.value)
      ensures st == Completed ==>
                graph == Spliced(old(nodeList), old(graph), x, clone.value,
                                 SplitVerdict(old(nodeList), old(graph), x, clone.value) == Accept)
    {
      ghost var nodes0, order0, a0 := nodeList, order, graph;
      var ok;
      ok, clone := AddNode(nodeList[x], None);
      if !ok {
        st := IdsExhausted;
        return;
      }
      KeptInsert(nodes0, order0, clone.value, nodes0[x]);
      var v := Relink(x, clone.value, nodes0, a0);
      st := if v == Raise then EdgeRaised else Completed;
    }

    /**
     * The rest of a split once the clone `n` of `x` is in the tree with empty
     * lists: the edge from the last parent moves to `n` if `addEdge` accepts
     * it, and the children of `x` are copied to `n`; stops where `addEdge`
     * raises.
     */
    method Relink(x: Id, n: Id, ghost nodes0: map<Id, Node>, ghost a0: Adjacency) returns (v: Verdict)
      requires a0.WellFormed(nodes0.Keys) && x in nodes0 && n !in nodes0 && a0.parents[x] != []
      requires Valid() && nodeList == nodes0[n := nodes0[x]] && graph == a0.Grown(n)
      modifies this`graph
      ensures Valid()
      ensures v == SplitVerdict(nodes0, a0, x, n)
      ensures v == Raise ==> graph == Detached(nodes0, a0, x, n)
      ensures v != Raise ==> graph == Spliced(nodes0, a0, x, n, v == Accept)
    {
      v := Reattach(x, n, nodes0, a0);
      if v != Raise {
        CopyCloneChildren(x, n, nodes0, a0, v == Accept);
      }
    }

    /** The last part of a split that did not raise: the children of `x` are copied to its clone `n`. */
    method CopyCloneChildren(x: Id, n: Id, ghost nodes0: map<Id, Node>, ghost a0: Adjacency, ghost accepted: bool)
      requires a0.WellFormed(nodes0.Keys) && x in nodes0 && n !in nodes0 && a0.parents[x] != []
      requires Valid() && nodeList == nodes0[n := nodes0[x]]
      requires graph == Attached(Detached(nodes0, a0, x, n), LastParent(a0, x), n, accepted)
      modifies this`graph
      ensures Valid()
      ensures graph == Spliced(nodes0, a0, x, n, accepted)
    {
      SpliceReady(nodes0, a0, x, n, accepted);
      CopyChildren(n, graph.children[x]);
    }

    /**
     * The middle of a split once the clone `n` of `x` is in the tree with
     * empty lists: `removeEdge` of the edge from the last parent of `x`, then
     * `addEdge` from that parent to `n`.
     */
    method Reattach(x: Id, n: Id, ghost nodes0: map<Id, Node>, ghost a0: Adjacency) returns (v: Verdict)
      requires a0.WellFormed(nodes0.Keys) && x in nodes0 && n !in nodes0 && a0.parents[x] != []
      requires Valid() && nodeList == nodes0[n := nodes0[x]] && graph == a0.Grown(n)
      modifies this`graph
      ensures Valid()
      ensures v == SplitVerdict(nodes0, a0, x, n)
      ensures graph == Attached(Detached(nodes0, a0, x, n), LastParent(a0, x), n, v == Accept)
    {
      var p := DetachLast(x, n, nodes0, a0);
      v := AddEdge(p, n);
    }

    /** `removeEdge` of the edge from the last parent `p` of `x`, which is returned. */
    method DetachLast(x: Id, n: Id, ghost nodes0: map<Id, Node>, ghost a0: Adjacency) returns (p: Id)
      requires a0.WellFormed(nodes0.Keys) && x in nodes0 && n !in nodes0 && a0.parents[x] != []
      requires Valid() && nodeList == nodes0[n := nodes0[x]] && graph == a0.Grown(n)
      modifies this`graph
      ensures Valid()
      ensures p == LastParent(a0, x) && graph == Detached(nodes0, a0, x, n)
    {
      DetachedShape(nodes0, a0, x, n);
      assert x != n && graph.parents == a0.parents[n := []];
      assert graph.parents[x] == a0.parents[x];
      p := LastParent(graph, x);
      assert Edge(p, x) in a0.edges;
      assert graph.edges == a0.edges;
      EdgeWithKeyFinds(graph.edges, Edge(p, x));
      var _ := RemoveEdge(p + "-" + x);
    }

    /**
     * The loop that links the clone `n` to each node of `cs`, the children of
     * the original: `edgeList.append(Edge(n, c))` and
     * `nodeList[c].parents.append(n)`, with `cs` as the clone's children.
     */
    method CopyChildren(n: Id, cs: seq<Id>)
      requires Valid() && n in nodeList && graph.children[n] == []
      requires Distinct(cs) && forall c :: c in cs ==> c in nodeList && c != n
      modifies this`graph
      ensures Valid()
      ensures graph == CopyOut(old(graph), n, cs)
    {
      ghost var a0 := graph;
      for i := 0 to |cs|
        invariant Valid()
        invariant graph == CopyOut(a0, n, cs[..i])
      {
        assert cs[..i + 1][..i] == cs[..i];
        CopyOutChildren(a0, n, cs[..i]);
        assert cs[i] !in cs[..i];
        Append(Edge(n, cs[i]));
      }
      assert cs[..|cs|] == cs;
    }
  }
}
