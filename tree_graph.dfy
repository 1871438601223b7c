/**
 * The node kinds and the edge bookkeeping of the attack tree
 * (attackTreeDraw/data/types.py): `Threat`, `Countermeasure` and
 * `Conjunction` nodes, the `edgeList`, and the `children` / `parents` id lists
 * that every node keeps.
 */
module TreeGraph {
  import opened Lists
  import opened NodeIds
  import opened ConjunctionWalk

  /** The `conjunctionType` a Conjunction is created with. */
  datatype ConjunctionType = Alternative | Composition | Sequence | Threshold {
    /** The string the scene passes to `Conjunction(conjunctionType=...)`. */
    function Name(): (s: string)
      ensures |s| > 0
    {
      match this
      case Alternative => "alternative"
      case Composition => "composition"
      case Sequence => "sequence"
      case Threshold => "threshold"
    }
  }

  /** The Python class of a node; a Conjunction also carries its conjunction type. */
  datatype Kind = ThreatKind | CountermeasureKind | ConjunctionKind(conjunctionType: ConjunctionType) {
    function Type(): NodeType {
      match this
      case ThreatKind => Threat
      case CountermeasureKind => Countermeasure
      case ConjunctionKind(_) => Conjunction
    }
  }

  /** What a node holds apart from its id and its adjacency lists. */
  datatype Node = Node(kind: Kind, title: string, isRoot: bool)

  /** `Conjunction(conjunctionType=t)`: its title is the conjunction type's name. */
  function NewConjunction(t: ConjunctionType): (n: Node)
    ensures n.kind.Type() == Conjunction && n.title != "" && !n.isRoot
  {
    Node(ConjunctionKind(t), t.Name(), false)
  }

  /** The class of every node, as the type searches see it. */
  function TypesOf(nodes: map<Id, Node>): (t: map<Id, NodeType>)
    ensures t.Keys == nodes.Keys
  {
    map x | x in nodes :: nodes[x].kind.Type()
  }

  /** Destinations of the edges of `R` that leave `u`. */
  function Targets(u: Id, R: set<Edge>): set<Id> {
    set e | e in R && e.source == u :: e.destination
  }

  /** Sources of the edges of `R` that enter `v`. */
  function Sources(v: Id, R: set<Edge>): set<Id> {
    set e | e in R && e.destination == v :: e.source
  }

  /** The tree's `edgeList` together with every node's `children` and `parents` lists. */
  datatype Adjacency = Adjacency(edges: seq<Edge>, children: map<Id, seq<Id>>, parents: map<Id, seq<Id>>) {

    /**
     * What `addEdge` keeps true: every node of `keys` has both lists, an edge
     * is in `edges` exactly when it is in the source's children and in the
     * destination's parents, and there are no repeated edges and no self-loops.
     */
    ghost predicate WellFormed(keys: set<Id>) {
      && children.Keys == keys
      && parents.Keys == keys
      && Distinct(edges)
      && (forall e :: e in edges ==> e.source in keys && e.destination in keys && e.source != e.destination)
      && (forall u, v {:trigger v in children[u]} {:trigger Edge(u, v) in edges} ::
            u in children ==> (v in children[u] <==> Edge(u, v) in edges))
      && (forall u, v {:trigger u in parents[v]} {:trigger Edge(u, v) in edges} ::
            v in parents ==> (u in parents[v] <==> Edge(u, v) in edges))
      && (forall u :: u in children ==> Distinct(children[u]))
      && (forall v :: v in parents ==> Distinct(parents[v]))
    }

    /** The three appends `addEdge` makes for an accepted edge. */
    function Plus(e: Edge): (r: Adjacency)
      requires e.source in children && e.destination in parents
      ensures r.children.Keys == children.Keys && r.parents.Keys == parents.Keys
    {
      Adjacency(edges + [e],
                children[e.source := children[e.source] + [e.destination]],
                parents[e.destination := parents[e.destination] + [e.source]])
    }

    /** The edges of `R` taken out of the edge list and out of both adjacency lists. */
    function Minus(R: set<Edge>): (r: Adjacency)
      ensures r.children.Keys == children.Keys && r.parents.Keys == parents.Keys
    {
      Adjacency(Drop(edges, R),
                map u | u in children :: Drop(children[u], Targets(u, R)),
                map v | v in parents :: Drop(parents[v], Sources(v, R)))
    }

    /** `removeEdge`'s three `list.remove` calls: the first occurrence of the edge and of its two list entries. */
    function Removed(e: Edge): Adjacency
      requires e in edges && e.source in children && e.destination in parents
      requires e.destination in children[e.source] && e.source in parents[e.destination]
    {
      Adjacency(RemoveFirst(edges, e),
                children[e.source := RemoveFirst(children[e.source], e.destination)],
                parents[e.destination := RemoveFirst(parents[e.destination], e.source)])
    }

    /** A new node `x` with empty `children` and `parents`. */
    function Grown(x: Id): Adjacency {
      Adjacency(edges, children[x := []], parents[x := []])
    }

    /** The lists of node `x` dropped. */
    function Forgotten(x: Id): Adjacency {
      Adjacency(edges, children - {x}, parents - {x})
    }

    /** One edge taken out of the edge list and out of the two lists that hold it. */
    function Unlinked(e: Edge): (r: Adjacency)
      requires e.source in children && e.destination in parents
      ensures r.children.Keys == children.Keys && r.parents.Keys == parents.Keys
    {
      Adjacency(Without(edges, e),
                children[e.source := Without(children[e.source], e.destination)],
                parents[e.destination := Without(parents[e.destination], e.source)])
    }
  }

  /** A child of a node of the tree is a node of the tree. */
  lemma ChildKey(a: Adjacency, keys: set<Id>, u: Id, i: nat)
    requires a.WellFormed(keys) && u in keys && i < |a.children[u]|
    ensures a.children[u][i] in keys
  {
    assert Edge(u, a.children[u][i]) in a.edges;
  }

  /** Appending a new edge between two different nodes keeps the bookkeeping consistent. */
  lemma PlusWellFormed(a: Adjacency, keys: set<Id>, e: Edge)
    requires a.WellFormed(keys)
    requires e.source in keys && e.destination in keys && e.source != e.destination
    requires e !in a.edges
    ensures a.Plus(e).WellFormed(keys)
  {
    var r := a.Plus(e);
    assert e.destination !in a.children[e.source];
    assert e.source !in a.parents[e.destination];
    forall u, v | u in r.children
      ensures v in r.children[u] <==> Edge(u, v) in r.edges
    {
      assert Edge(u, v) in r.edges <==> Edge(u, v) in a.edges || Edge(u, v) == e;
    }
    forall u, v | v in r.parents
      ensures u in r.parents[v] <==> Edge(u, v) in r.edges
    {
      assert Edge(u, v) in r.edges <==> Edge(u, v) in a.edges || Edge(u, v) == e;
    }
  }

  /** Removing any set of edges keeps the bookkeeping consistent. */
  lemma MinusWellFormed(a: Adjacency, keys: set<Id>, R: set<Edge>)
    requires a.WellFormed(keys)
    ensures a.Minus(R).WellFormed(keys)
  {
    var r := a.Minus(R);
    DropDistinct(a.edges, R);
    forall u | u in r.children
      ensures Distinct(r.children[u])
    {
      DropDistinct(a.children[u], Targets(u, R));
    }
    forall v | v in r.parents
      ensures Distinct(r.parents[v])
    {
      DropDistinct(a.parents[v], Sources(v, R));
    }
    forall u, v | u in r.children
      ensures v in r.children[u] <==> Edge(u, v) in r.edges
    {
      assert v in Targets(u, R) <==> Edge(u, v) in R;
    }
    forall u, v | v in r.parents
      ensures u in r.parents[v] <==> Edge(u, v) in r.edges
    {
      assert u in Sources(v, R) <==> Edge(u, v) in R;
    }
  }

  /** Removing two sets of edges one after the other removes their union. */
  lemma MinusMinus(a: Adjacency, R1: set<Edge>, R2: set<Edge>)
    ensures a.Minus(R1).Minus(R2) == a.Minus(R1 + R2)
  {
    DropDrop(a.edges, R1, R2);
    ChildrenMinusMinus(a, R1, R2);
    ParentsMinusMinus(a, R1, R2);
  }

  lemma ChildrenMinusMinus(a: Adjacency, R1: set<Edge>, R2: set<Edge>)
    ensures a.Minus(R1).Minus(R2).children == a.Minus(R1 + R2).children
  {
    var l, r := a.Minus(R1).Minus(R2), a.Minus(R1 + R2);
    forall u | u in a.children
      ensures l.children[u] == r.children[u]
    {
      assert Targets(u, R1 + R2) == Targets(u, R1) + Targets(u, R2);
      DropDrop(a.children[u], Targets(u, R1), Targets(u, R2));
    }
  }

  lemma ParentsMinusMinus(a: Adjacency, R1: set<Edge>, R2: set<Edge>)
    ensures a.Minus(R1).Minus(R2).parents == a.Minus(R1 + R2).parents
  {
    var l, r := a.Minus(R1).Minus(R2), a.Minus(R1 + R2);
    forall v | v in a.parents
      ensures l.parents[v] == r.parents[v]
    {
      assert Sources(v, R1 + R2) == Sources(v, R1) + Sources(v, R2);
      DropDrop(a.parents[v], Sources(v, R1), Sources(v, R2));
    }
  }

  /**
   * Removing one edge is `list.remove` on the edge list and on the two
   * adjacency lists that hold it; nothing else changes.
   */
  lemma MinusOne(a: Adjacency, e: Edge)
    requires e.source in a.children && e.destination in a.parents
    ensures a.Minus({e}) == a.Unlinked(e)
  {
    var r := a.Minus({e});
    WithoutIsDrop(a.edges, e);
    forall u | u in a.children
      ensures r.children[u] == if u == e.source then Without(a.children[u], e.destination) else a.children[u]
    {
      OneTarget(u, e);
      if u == e.source {
        WithoutIsDrop(a.children[u], e.destination);
      } else {
        DropNone(a.children[u], {});
      }
    }
    forall v | v in a.parents
      ensures r.parents[v] == if v == e.destination then Without(a.parents[v], e.source) else a.parents[v]
    {
      OneSource(v, e);
      if v == e.destination {
        WithoutIsDrop(a.parents[v], e.source);
      } else {
        DropNone(a.parents[v], {});
      }
    }
    assert r.children == a.children[e.source := Without(a.children[e.source], e.destination)];
    assert r.parents == a.parents[e.destination := Without(a.parents[e.destination], e.source)];
  }

  /**
   * On a consistent adjacency, `list.remove` of an edge and of its two list
   * entries removes their only occurrences, and keeps the adjacency consistent.
   */
  lemma RemoveOne(a: Adjacency, keys: set<Id>, e: Edge)
    requires a.WellFormed(keys) && e in a.edges
    ensures e.destination in a.children[e.source] && e.source in a.parents[e.destination]
    ensures a.Removed(e) == a.Unlinked(e)
    ensures a.Removed(e).WellFormed(keys)
  {
    RemoveFirstIsWithout(a.children[e.source], e.destination);
    RemoveFirstIsWithout(a.parents[e.destination], e.source);
    RemoveFirstIsWithout(a.edges, e);
    MinusOne(a, e);
    MinusWellFormed(a, keys, {e});
  }

  /** Removing no edges changes nothing. */
  lemma MinusNothing(a: Adjacency)
    ensures a.Minus({}) == a
  {
    DropNone(a.edges, {});
    forall u | u in a.children
      ensures Drop(a.children[u], Targets(u, {})) == a.children[u]
    {
      assert Targets(u, {}) == {};
      DropNone(a.children[u], {});
    }
    forall v | v in a.parents
      ensures Drop(a.parents[v], Sources(v, {})) == a.parents[v]
    {
      assert Sources(v, {}) == {};
      DropNone(a.parents[v], {});
    }
    assert a.Minus({}).children == a.children;
    assert a.Minus({}).parents == a.parents;
  }

  /** Removing one more edge after a set of them is removing the larger set. */
  lemma MinusStep(a: Adjacency, R: set<Edge>, e: Edge)
    requires e.source in a.children && e.destination in a.parents
    ensures a.Minus(R).Unlinked(e) == a.Minus(R + {e})
  {
    MinusOne(a.Minus(R), e);
    MinusMinus(a, R, {e});
  }

  /** The edges of `es` unlinked one after the other, first to last (an edge at an unknown node is skipped). */
  function UnlinkAll(a: Adjacency, es: seq<Edge>): (r: Adjacency)
    ensures r.children.Keys == a.children.Keys && r.parents.Keys == a.parents.Keys
    decreases |es|
  {
    if es == [] then a
    else
      var r, e := UnlinkAll(a, es[..|es| - 1]), es[|es| - 1];
      if e.source in r.children && e.destination in r.parents then r.Unlinked(e) else r
  }

  /** The edges of a list, as a set. */
  function EdgeSet(es: seq<Edge>): (S: set<Edge>)
    ensures forall e :: e in S <==> e in es
    decreases |es|
  {
    if es == [] then {}
    else
      assert es == es[..|es| - 1] + [es[|es| - 1]];
      EdgeSet(es[..|es| - 1]) + {es[|es| - 1]}
  }

  /** Unlinking a list of edges at known nodes one by one removes the set of them. */
  lemma {:induction false} UnlinkAllIsMinus(a: Adjacency, es: seq<Edge>)
    requires forall e :: e in es ==> e.source in a.children && e.destination in a.parents
    ensures UnlinkAll(a, es) == a.Minus(EdgeSet(es))
    decreases |es|
  {
    if es == [] {
      MinusNothing(a);
    } else {
      var init, e := es[..|es| - 1], es[|es| - 1];
      assert forall x :: x in init ==> x in es;
      UnlinkAllIsMinus(a, init);
      MinusStep(a, EdgeSet(init), e);
    }
  }

  /** After unlinking a list of edges, the edge list holds exactly the other edges. */
  lemma UnlinkAllEdges(a: Adjacency, es: seq<Edge>)
    requires forall e :: e in es ==> e.source in a.children && e.destination in a.parents
    ensures forall e :: e in UnlinkAll(a, es).edges <==> e in a.edges && e !in es
  {
    UnlinkAllIsMinus(a, es);
  }

  lemma OneTarget(u: Id, e: Edge)
    ensures Targets(u, {e}) == if u == e.source then {e.destination} else {}
  {
  }

  lemma OneSource(v: Id, e: Edge)
    ensures Sources(v, {e}) == if v == e.destination then {e.source} else {}
  {
  }

  /** Filtering an appended value out of a list that did not hold it gives the list back. */
  lemma WithoutAppended<T(!new)>(s: seq<T>, x: T)
    requires x !in s
    ensures Without(s + [x], x) == s
  {
    WithoutIsDrop(s + [x], x);
    DropConcat(s, [x], {x});
    DropNone(s, {x});
  }

  /** Removing an edge right after adding it gives back the original bookkeeping. */
  lemma PlusMinus(a: Adjacency, keys: set<Id>, e: Edge)
    requires a.WellFormed(keys)
    requires e.source in keys && e.destination in keys && e !in a.edges
    ensures a.Plus(e).Minus({e}) == a
  {
    assert e.destination !in a.children[e.source];
    assert e.source !in a.parents[e.destination];
    PlusMinusLists(a, e);
  }

  lemma PlusMinusLists(a: Adjacency, e: Edge)
    requires e.source in a.children && e.destination in a.parents
    requires e !in a.edges && e.destination !in a.children[e.source] && e.source !in a.parents[e.destination]
    ensures a.Plus(e).Minus({e}) == a
  {
    var s, d := e.source, e.destination;
    var p := a.Plus(e);
    MinusOne(p, e);
    WithoutAppended(a.edges, e);
    WithoutAppended(a.children[s], d);
    WithoutAppended(a.parents[d], s);
    assert p.children[s := Without(p.children[s], d)] == a.children;
    assert p.parents[d := Without(p.parents[d], s)] == a.parents;
  }

  /** The first edge of `es` whose key is `key`: the edge `removeEdge` looks for. */
  function EdgeWithKey(es: seq<Edge>, key: string): (r: Option<Edge>)
    ensures r.Some? ==> r.value in es && r.value.Hash() == key
  {
    if es == [] then None
    else if es[0].Hash() == key then Some(es[0])
    else EdgeWithKey(es[1..], key)
  }

  /** Keys identify edges, so the search by key finds exactly the edge with that key. */
  lemma {:induction false} EdgeWithKeyFinds(es: seq<Edge>, e: Edge)
    ensures EdgeWithKey(es, e.Hash()) == if e in es then Some(e) else None
  {
    if es != [] {
      HashInjective(es[0], e);
      EdgeWithKeyFinds(es[1..], e);
    }
  }

  /** A key no edge has finds nothing. */
  lemma {:induction false} EdgeWithKeyMissing(es: seq<Edge>, key: string)
    requires forall e :: e in es ==> e.Hash() != key
    ensures EdgeWithKey(es, key) == None
  {
    if es != [] {
      EdgeWithKeyMissing(es[1..], key);
    }
  }
  /** `addNode`: a new key with two empty lists keeps the bookkeeping consistent. */
  lemma AddKeyWellFormed(a: Adjacency, keys: set<Id>, x: Id)
    requires a.WellFormed(keys) && x !in keys
    ensures a.Grown(x).WellFormed(keys + {x})
  {
  }

  /** Every edge of `es` that starts or ends at `x`. */
  function Incident(es: seq<Edge>, x: Id): set<Edge> {
    set e | e in es && (e.source == x || e.destination == x)
  }

  /**
   * Removing every edge at `x` empties both lists of `x` and filters `x` out of
   * every other node's lists.
   */
  lemma MinusIncident(a: Adjacency, keys: set<Id>, x: Id)
    requires a.WellFormed(keys) && x in keys
    ensures a.Minus(Incident(a.edges, x)).children[x] == []
    ensures a.Minus(Incident(a.edges, x)).parents[x] == []
    ensures forall u :: u in keys && u != x ==> a.Minus(Incident(a.edges, x)).children[u] == Without(a.children[u], x)
    ensures forall v :: v in keys && v != x ==> a.Minus(Incident(a.edges, x)).parents[v] == Without(a.parents[v], x)
  {
    MinusIncidentChildren(a, keys, x);
    MinusIncidentParents(a, keys, x);
  }

  lemma MinusIncidentChildren(a: Adjacency, keys: set<Id>, x: Id)
    requires a.WellFormed(keys) && x in keys
    ensures a.Minus(Incident(a.edges, x)).children[x] == []
    ensures forall u :: u in keys && u != x ==> a.Minus(Incident(a.edges, x)).children[u] == Without(a.children[u], x)
  {
    var R := Incident(a.edges, x);
    var r := a.Minus(R);
    DropAll(a.children[x], Targets(x, R));
    forall u | u in keys && u != x
      ensures r.children[u] == Without(a.children[u], x)
    {
      WithoutIsDrop(a.children[u], x);
      DropSame(a.children[u], Targets(u, R), {x});
    }
  }

  lemma MinusIncidentParents(a: Adjacency, keys: set<Id>, x: Id)
    requires a.WellFormed(keys) && x in keys
    ensures a.Minus(Incident(a.edges, x)).parents[x] == []
    ensures forall v :: v in keys && v != x ==> a.Minus(Incident(a.edges, x)).parents[v] == Without(a.parents[v], x)
  {
    var R := Incident(a.edges, x);
    var r := a.Minus(R);
    DropAll(a.parents[x], Sources(x, R));
    forall v | v in keys && v != x
      ensures r.parents[v] == Without(a.parents[v], x)
    {
      WithoutIsDrop(a.parents[v], x);
      DropSame(a.parents[v], Sources(v, R), {x});
    }
  }

  /** `del nodeList[x]` once no edge is left at `x`. */
  lemma ForgetWellFormed(a: Adjacency, keys: set<Id>, x: Id)
    requires a.WellFormed(keys) && x in keys
    requires a.children[x] == [] && a.parents[x] == []
    ensures a.Forgotten(x).WellFormed(keys - {x})
    ensures forall e :: e in a.edges ==> e.source != x && e.destination != x
  {
    forall e | e in a.edges
      ensures e.source != x && e.destination != x
    {
      assert e.destination in a.children[e.source];
      assert e.source in a.parents[e.destination];
    }
  }

  /** `removeNode(x)` on the adjacency: every edge at `x` taken out, then the lists of `x` dropped. */
  function Deleted(a: Adjacency, x: Id): Adjacency {
    a.Minus(Incident(a.edges, x)).Forgotten(x)
  }

  /**
   * Deleting a node keeps the bookkeeping consistent on the remaining nodes,
   * and no edge is left that mentions it.
   */
  lemma DeletedWellFormed(a: Adjacency, keys: set<Id>, x: Id)
    requires a.WellFormed(keys) && x in keys
    ensures Deleted(a, x).WellFormed(keys - {x})
    ensures forall e :: e in Deleted(a, x).edges ==> e.source != x && e.destination != x
  {
    MinusIncident(a, keys, x);
    MinusWellFormed(a, keys, Incident(a.edges, x));
    ForgetWellFormed(a.Minus(Incident(a.edges, x)), keys, x);
  }

  /**
   * What deleting a node leaves: the edges not at `x`, and every other node's
   * lists with `x` filtered out.
   */
  lemma DeletedLists(a: Adjacency, keys: set<Id>, x: Id)
    requires a.WellFormed(keys) && x in keys
    ensures Deleted(a, x).edges == Drop(a.edges, Incident(a.edges, x))
    ensures Deleted(a, x).children == map u | u in a.children && u != x :: Without(a.children[u], x)
    ensures Deleted(a, x).parents == map v | v in a.parents && v != x :: Without(a.parents[v], x)
  {
    DeletedChildren(a, keys, x);
    DeletedParents(a, keys, x);
  }

  lemma DeletedChildren(a: Adjacency, keys: set<Id>, x: Id)
    requires a.WellFormed(keys) && x in keys
    ensures Deleted(a, x).children == map u | u in a.children && u != x :: Without(a.children[u], x)
  {
    MinusIncidentChildren(a, keys, x);
    var c := Deleted(a, x).children;
    assert c.Keys == a.children.Keys - {x};
    forall u | u in c
      ensures c[u] == Without(a.children[u], x)
    {
      assert u in keys && u != x;
    }
  }

  lemma DeletedParents(a: Adjacency, keys: set<Id>, x: Id)
    requires a.WellFormed(keys) && x in keys
    ensures Deleted(a, x).parents == map v | v in a.parents && v != x :: Without(a.parents[v], x)
  {
    MinusIncidentParents(a, keys, x);
    var p := Deleted(a, x).parents;
    assert p.Keys == a.parents.Keys - {x};
    forall v | v in p
      ensures p[v] == Without(a.parents[v], x)
    {
      assert v in keys && v != x;
    }
  }

  /** A walk of at least one step along `children` that comes back to where it began. */
  ghost predicate IsCycle(children: map<Id, seq<Id>>, p: seq<Id>) {
    && |p| >= 2
    && p[0] == p[|p| - 1]
    && forall k :: 0 <= k < |p| - 1 ==> p[k] in children && p[k + 1] in children[p[k]]
  }

  ghost predicate HasCycle(children: map<Id, seq<Id>>) {
    exists p :: IsCycle(children, p)
  }

  ghost predicate OnCycle(children: map<Id, seq<Id>>, x: Id) {
    exists p :: IsCycle(children, p) && p[0] == x
  }

  /**
   * Finishing times of the depth-first search: every finished node was
   * finished after all of its children.
   */
  ghost predicate Ranked(children: map<Id, seq<Id>>, finished: set<Id>, rank: map<Id, nat>, clock: nat) {
    && (forall u :: u in finished ==> u in rank && rank[u] < clock)
    && (forall u, v :: u in finished && u in children && v in children[u] ==> v in finished && v in rank && rank[v] < rank[u])
  }

  lemma {:induction false} RankDescends(children: map<Id, seq<Id>>, finished: set<Id>, rank: map<Id, nat>, clock: nat,
                                         p: seq<Id>, k: nat)
    requires Ranked(children, finished, rank, clock)
    requires |p| > 0 && p[0] in finished
    requires forall i :: 0 <= i < |p| - 1 ==> p[i] in children && p[i + 1] in children[p[i]]
    requires 0 < k < |p|
    ensures p[k] in finished && p[k] in rank && rank[p[k]] < rank[p[0]]
  {
    if k > 1 {
      RankDescends(children, finished, rank, clock, p, k - 1);
    }
  }

  /** When every node is finished, the finishing order rules out a cycle. */
  lemma RankedAcyclic(children: map<Id, seq<Id>>, finished: set<Id>, rank: map<Id, nat>, clock: nat)
    requires Ranked(children, finished, rank, clock)
    requires children.Keys <= finished
    ensures !HasCycle(children)
  {
    if HasCycle(children) {
      var p :| IsCycle(children, p);
      RankDescends(children, finished, rank, clock, p, |p| - 1);
    }
  }

  /** A path of gray nodes closed by an edge back to one of them is a cycle. */
  lemma GrayCycle(children: map<Id, seq<Id>>, stack: seq<Id>, j: nat, x: Id)
    requires forall i :: 0 <= i < |stack| - 1 ==> stack[i] in children && stack[i + 1] in children[stack[i]]
    requires j < |stack| && stack[j] == x
    requires stack[|stack| - 1] in children && x in children[stack[|stack| - 1]]
    ensures OnCycle(children, x)
  {
    var p := stack[j..] + [x];
    assert forall k :: 0 <= k < |p| - 1 ==> p[k] == stack[j + k];
    assert IsCycle(children, p);
  }

  /**
   * The state of the depth-first search of `dfs` while `stack` is the path of
   * calls in progress: the gray nodes (visited, not finished) are exactly those
   * on the stack, the stack runs along child links, and the finished nodes are
   * ranked by finishing time.
   */
  ghost predicate Searching(children: map<Id, seq<Id>>, visited: set<Id>, finished: set<Id>,
                            rank: map<Id, nat>, clock: nat, stack: seq<Id>) {
    && finished <= visited <= children.Keys
    && (forall y :: y in stack ==> y in visited && y !in finished)
    && (forall y :: y in visited && y !in finished ==> y in stack)
    && (forall i :: 0 <= i < |stack| - 1 ==> stack[i] in children && stack[i + 1] in children[stack[i]])
    && Ranked(children, finished, rank, clock)
  }

  /** Marking a new node visited pushes it on the stack. */
  lemma SearchEnter(children: map<Id, seq<Id>>, visited: set<Id>, finished: set<Id>,
                    rank: map<Id, nat>, clock: nat, stack: seq<Id>, x: Id)
    requires Searching(children, visited, finished, rank, clock, stack)
    requires x in children && x !in visited
    requires stack != [] ==> x in children[stack[|stack| - 1]]
    ensures x !in stack
    ensures Searching(children, visited + {x}, finished, rank, clock, stack + [x])
  {
    var s := stack + [x];
    forall i | 0 <= i < |s| - 1
      ensures s[i] in children && s[i + 1] in children[s[i]]
    {
      if i < |stack| - 1 {
        assert s[i] == stack[i] && s[i + 1] == stack[i + 1];
      } else {
        assert s[i] == stack[|stack| - 1] && s[i + 1] == x;
      }
    }
  }

  /** Finishing the top of the stack once all of its children are finished pops it. */
  lemma SearchFinish(children: map<Id, seq<Id>>, visited: set<Id>, finished: set<Id>,
                     rank: map<Id, nat>, clock: nat, stack: seq<Id>, x: Id)
    requires Searching(children, visited, finished, rank, clock, stack + [x])
    requires x !in stack
    requires forall v :: v in children[x] ==> v in finished
    ensures Searching(children, visited, finished + {x}, rank[x := clock], clock + 1, stack)
  {
    var s := stack + [x];
    assert x == s[|s| - 1];
    forall y | y in stack
      ensures y in visited && y !in finished + {x}
    {
      assert y in s;
    }
    forall y | y in visited && y !in finished + {x}
      ensures y in stack
    {
      assert y in s;
    }
    forall i | 0 <= i < |stack| - 1
      ensures stack[i] in children && stack[i + 1] in children[stack[i]]
    {
      assert stack[i] == s[i] && stack[i + 1] == s[i + 1];
    }
  }

  /** Meeting a gray node again closes a cycle through it. */
  lemma SearchGray(children: map<Id, seq<Id>>, visited: set<Id>, finished: set<Id>,
                   rank: map<Id, nat>, clock: nat, stack: seq<Id>, x: Id)
    requires Searching(children, visited, finished, rank, clock, stack)
    requires x in visited && x !in finished
    requires stack != [] ==> x in children[stack[|stack| - 1]]
    ensures OnCycle(children, x)
  {
    var j :| 0 <= j < |stack| && stack[j] == x;
    GrayCycle(children, stack, j, x);
  }

  /** The first `i` entries of `cs` are in `S`. */
  ghost predicate Covered(cs: seq<Id>, i: nat, S: set<Id>) {
    i <= |cs| && forall k :: 0 <= k < i ==> cs[k] in S
  }

  lemma Grows(cs: seq<Id>, i: nat, S: set<Id>, T: set<Id>)
    requires Covered(cs, i, S) && S <= T && i < |cs| && cs[i] in T
    ensures Covered(cs, i + 1, T)
  {
  }

  lemma CoveredAll(cs: seq<Id>, S: set<Id>)
    requires Covered(cs, |cs|, S)
    ensures forall v :: v in cs ==> v in S
  {
  }

  /** The edges `n-c`, for each `c` of `cs` in turn, appended: how `makeSimple` links a clone to the children of the original. */
  function CopyOut(a: Adjacency, n: Id, cs: seq<Id>): (r: Adjacency)
    requires n in a.children && forall c :: c in cs ==> c in a.parents
    ensures r.children.Keys == a.children.Keys && r.parents.Keys == a.parents.Keys
    decreases |cs|
  {
    if cs == [] then a
    else
      var init := cs[..|cs| - 1];
      assert forall c :: c in init ==> c in cs;
      CopyOut(a, n, init).Plus(Edge(n, cs[|cs| - 1]))
  }

  /** The children of `n` become `cs`; nothing else's children change. */
  lemma {:induction false} CopyOutChildren(a: Adjacency, n: Id, cs: seq<Id>)
    requires n in a.children && forall c :: c in cs ==> c in a.parents
    requires a.children[n] == []
    ensures CopyOut(a, n, cs).children == a.children[n := cs]
    decreases |cs|
  {
    if cs != [] {
      var init := cs[..|cs| - 1];
      CopyOutChildren(a, n, init);
      assert cs == init + [cs[|cs| - 1]];
    }
  }

  /** Linking a node without children to other nodes, none twice, keeps the bookkeeping consistent. */
  lemma {:induction false} CopyOutWellFormed(a: Adjacency, keys: set<Id>, n: Id, cs: seq<Id>)
    requires a.WellFormed(keys) && n in keys && a.children[n] == []
    requires Distinct(cs) && forall c :: c in cs ==> c in keys && c != n
    ensures CopyOut(a, n, cs).WellFormed(keys)
    decreases |cs|
  {
    if cs != [] {
      var init, c := cs[..|cs| - 1], cs[|cs| - 1];
      assert c !in init by {
        assert cs == init + [c];
      }
      assert forall d :: d in init ==> d in cs;
      CopyOutWellFormed(a, keys, n, init);
      CopyOutChildren(a, n, init);
      var r := CopyOut(a, n, init);
      PlusWellFormed(r, keys, Edge(n, c));
    }
  }

  /** `n` becomes the last parent of each node in `cs`. */
  lemma {:induction false} CopyOutParents(a: Adjacency, n: Id, cs: seq<Id>, y: Id)
    requires n in a.children && forall c :: c in cs ==> c in a.parents
    requires Distinct(cs) && y in a.parents
    ensures CopyOut(a, n, cs).parents[y] == a.parents[y] + (if y in cs then [n] else [])
    decreases |cs|
  {
    if cs != [] {
      var init, c := cs[..|cs| - 1], cs[|cs| - 1];
      assert cs == init + [c];
      assert forall d :: d in init ==> d in cs;
      CopyOutParents(a, n, init, y);
    }
  }

  /** The edge list gains `n-c` for each `c` of `cs`, in order. */
  lemma {:induction false} CopyOutEdges(a: Adjacency, n: Id, cs: seq<Id>)
    requires n in a.children && forall c :: c in cs ==> c in a.parents
    ensures CopyOut(a, n, cs).edges == a.edges + seq(|cs|, k requires 0 <= k < |cs| => Edge(n, cs[k]))
    decreases |cs|
  {
    if cs != [] {
      var init := cs[..|cs| - 1];
      assert forall d :: d in init ==> d in cs;
      CopyOutEdges(a, n, init);
      assert seq(|cs|, k requires 0 <= k < |cs| => Edge(n, cs[k]))
          == seq(|init|, k requires 0 <= k < |init| => Edge(n, init[k])) + [Edge(n, cs[|cs| - 1])];
    }
  }
}
