/**
 * The type searches `getTypeRecursiveDown`, `getTypeRecursiveUp` and
 * `getFirstElementRecursiveUp` of attackTreeDraw/data/types.py, and the edge
 * rules of `addEdge` built on them, as functions of the tree's node list and
 * adjacency lists.
 */
module TreeRules {
  import opened Lists
  import opened NodeIds
  import opened ConjunctionWalk
  import opened TreeGraph

  /** Outcome of `addEdge`: True, False, or an exception (RecursionError) escaping it. */
  datatype Verdict = Accept | Reject | Raise

  /** Value of one Python condition: true, false, or raising while it is evaluated. */
  datatype Cond = Holds | Fails | Raises

  function Bool(b: bool): Cond {
    if b then Holds else Fails
  }

  /** `x is t` for a type search result; a search that never ends raises. */
  function Is(r: Option<NodeType>, t: NodeType): Cond {
    match r
    case None => Raises
    case Some(u) => Bool(u == t)
  }

  /** `x is not t`. */
  function IsNot(r: Option<NodeType>, t: NodeType): Cond {
    match r
    case None => Raises
    case Some(u) => Bool(u != t)
  }

  /** `x is y` on two search results, evaluated left to right. */
  function Same(r1: Option<NodeType>, r2: Option<NodeType>): Cond {
    if r1.None? || r2.None? then Raises else Bool(r1.value == r2.value)
  }

  /** `x is not y`. */
  function Differ(r1: Option<NodeType>, r2: Option<NodeType>): Cond {
    if r1.None? || r2.None? then Raises else Bool(r1.value != r2.value)
  }

  /** Python's short-circuit `a and b`: `b` is only evaluated, and can only raise, when `a` holds. */
  function And(a: Cond, b: Cond): Cond {
    if a == Holds then b else a
  }

  /** `if c: return False` followed by the rest of the rules. */
  function Guard(c: Cond, rest: Verdict): Verdict {
    match c
    case Holds => Reject
    case Fails => rest
    case Raises => Raise
  }

  // -----------------------------------------------------------------------
  // Type searches (types.py:123-197)

  function DownLinks(nodes: map<Id, Node>, a: Adjacency): Links<Id> {
    Links(TypesOf(nodes), a.children)
  }

  function UpLinks(nodes: map<Id, Node>, a: Adjacency): Links<Id> {
    Links(TypesOf(nodes), a.parents)
  }

  lemma LinksClosed(nodes: map<Id, Node>, a: Adjacency)
    requires a.WellFormed(nodes.Keys)
    ensures DownLinks(nodes, a).Closed() && UpLinks(nodes, a).Closed()
  {
    forall x | x in nodes && DownLinks(nodes, a).Continues(x)
      ensures a.children[x][0] in nodes
    {
      assert Edge(x, a.children[x][0]) in a.edges;
    }
    forall x | x in nodes && UpLinks(nodes, a).Continues(x)
      ensures a.parents[x][0] in nodes
    {
      assert Edge(a.parents[x][0], x) in a.edges;
    }
  }

  /** `getTypeRecursiveDown(x)`; None where the source recurses until RecursionError. */
  function TypeDown(nodes: map<Id, Node>, a: Adjacency, x: Id): Option<NodeType>
    requires a.WellFormed(nodes.Keys) && x in nodes
  {
    LinksClosed(nodes, a);
    DownLinks(nodes, a).TypeOf(x)
  }

  /** `getFirstElementRecursiveUp(x)`; None where the source recurses until RecursionError. */
  function FirstUp(nodes: map<Id, Node>, a: Adjacency, x: Id): (r: Option<Id>)
    requires a.WellFormed(nodes.Keys) && x in nodes
    ensures r.Some? ==> r.value in nodes
  {
    LinksClosed(nodes, a);
    UpLinks(nodes, a).Search(x)
  }

  /** `getTypeRecursiveUp(x)`: the class of the node the upward search stops at. */
  function TypeUp(nodes: map<Id, Node>, a: Adjacency, x: Id): Option<NodeType>
    requires a.WellFormed(nodes.Keys) && x in nodes
  {
    match FirstUp(nodes, a, x)
    case None => None
    case Some(y) => Some(nodes[y].kind.Type())
  }

  /**
   * getTypeRecursiveDown: a non-Conjunction gives its own class, a Conjunction
   * without children gives Conjunction, and a Conjunction with children gives
   * what its FIRST child gives; it fails exactly when the recursion never ends.
   */
  lemma TypeDownSteps(nodes: map<Id, Node>, a: Adjacency, x: Id)
    requires a.WellFormed(nodes.Keys) && x in nodes
    ensures DownLinks(nodes, a).Closed()
    ensures nodes[x].kind.Type() != Conjunction ==> TypeDown(nodes, a, x) == Some(nodes[x].kind.Type())
    ensures nodes[x].kind.Type() == Conjunction && a.children[x] == [] ==> TypeDown(nodes, a, x) == Some(Conjunction)
    ensures nodes[x].kind.Type() == Conjunction && a.children[x] != [] ==>
              a.children[x][0] in nodes && TypeDown(nodes, a, x) == TypeDown(nodes, a, a.children[x][0])
    ensures TypeDown(nodes, a, x).None? <==> forall f: nat :: DownLinks(nodes, a).Walk(x, f).None?
  {
    LinksClosed(nodes, a);
    var g := DownLinks(nodes, a);
    assert g.types[x] == nodes[x].kind.Type();
    if g.Continues(x) {
      SearchStep(g, x);
    }
    SearchDiverges(g, x);
  }

  /**
   * getFirstElementRecursiveUp: a non-Conjunction, or a Conjunction without
   * parents, is its own answer, and a Conjunction with parents has the answer of
   * its FIRST parent; the answer is a non-Conjunction or a Conjunction without
   * parents, and there is none exactly when the recursion never ends.
   */
  lemma FirstUpSteps(nodes: map<Id, Node>, a: Adjacency, x: Id)
    requires a.WellFormed(nodes.Keys) && x in nodes
    ensures UpLinks(nodes, a).Closed()
    ensures nodes[x].kind.Type() != Conjunction || a.parents[x] == [] ==> FirstUp(nodes, a, x) == Some(x)
    ensures nodes[x].kind.Type() == Conjunction && a.parents[x] != [] ==>
              a.parents[x][0] in nodes && FirstUp(nodes, a, x) == FirstUp(nodes, a, a.parents[x][0]) &&
              TypeUp(nodes, a, x) == TypeUp(nodes, a, a.parents[x][0])
    ensures FirstUp(nodes, a, x).None? <==> forall f: nat :: UpLinks(nodes, a).Walk(x, f).None?
    ensures FirstUp(nodes, a, x).Some? ==>
              var y := FirstUp(nodes, a, x).value; nodes[y].kind.Type() != Conjunction || a.parents[y] == []
  {
    LinksClosed(nodes, a);
    var g := UpLinks(nodes, a);
    assert g.types[x] == nodes[x].kind.Type();
    if g.Continues(x) {
      SearchStep(g, x);
    }
    SearchDiverges(g, x);
    if FirstUp(nodes, a, x).Some? {
      var y := FirstUp(nodes, a, x).value;
      assert g.types[y] == nodes[y].kind.Type();
    }
  }

  // -----------------------------------------------------------------------
  // The rules of addEdge (types.py:225-262)

  /**
   * The edge rules at types.py:241-257 once the three type searches have
   * ended, stated as what they forbid: a Countermeasure above a Threat; two
   * Conjunctions that resolve to different classes; and, under a non-Conjunction
   * that already has children, a destination that resolves to the source's own
   * class or, for a Countermeasure source, a Conjunction.
   */
  predicate Forbidden(src: NodeType, dst: NodeType, busy: bool, upS: NodeType, downS: NodeType, downD: NodeType) {
    || (upS == Countermeasure && downD == Threat)
    || (src == Conjunction && dst == Conjunction && downS != Conjunction && downD != Conjunction && downS != downD)
    || (src != Conjunction && busy && (downD == src || (src == Countermeasure && dst == Conjunction)))
  }

  /**
   * Rules 1-5 of `addEdge` (types.py:241-257) on the classes of source and
   * destination, whether the source has children, and the three search results,
   * followed by `rest`.
   */
  function RuleCascade(src: NodeType, dst: NodeType, busy: bool,
                       upS: Option<NodeType>, downS: Option<NodeType>, downD: Option<NodeType>, rest: Verdict): Verdict
  {
    Guard(And(Is(upS, Countermeasure), Is(downD, Threat)),
    Guard(And(Bool(src == Conjunction), And(Bool(dst == Conjunction),
            And(IsNot(downS, Conjunction), And(IsNot(downD, Conjunction), Differ(downS, downD))))),
    Guard(And(Bool(src != Conjunction), And(Bool(busy), And(Is(downS, Threat), Is(downD, Threat)))),
    Guard(And(Bool(src != Conjunction), And(Bool(busy), And(Is(downS, Countermeasure), Is(downD, Countermeasure)))),
    Guard(And(Bool(src != Conjunction), And(Bool(busy), And(Is(downS, Countermeasure), Bool(dst == Conjunction)))),
    rest)))))
  }

  /** The `for c in ...children` loop of the last rule (types.py:259-262). */
  function SiblingScan(nodes: map<Id, Node>, a: Adjacency, cs: seq<Id>, downD: Option<NodeType>): Verdict
    requires a.WellFormed(nodes.Keys) && forall c :: c in cs ==> c in nodes
  {
    if cs == [] then Accept
    else Guard(And(IsNot(downD, Conjunction), Same(TypeDown(nodes, a, cs[0]), downD)),
               SiblingScan(nodes, a, cs[1..], downD))
  }

  /** The last rule (types.py:258-262): a scan over the children of `getFirstElementRecursiveUp(source)`. */
  function SiblingRule(nodes: map<Id, Node>, a: Adjacency, s: Id, d: Id): Verdict
    requires a.WellFormed(nodes.Keys) && s in nodes && d in nodes
  {
    match And(IsNot(TypeUp(nodes, a, s), Conjunction), Is(TypeDown(nodes, a, d), Conjunction))
    case Raises => Raise
    case Fails => Accept
    case Holds =>
      match FirstUp(nodes, a, s)
      case None => Raise
      case Some(f) => SiblingScan(nodes, a, a.children[f], TypeDown(nodes, a, d))
  }

  /** The type rules at types.py:241-262, in the order Python evaluates them. */
  function TypeRules(nodes: map<Id, Node>, a: Adjacency, s: Id, d: Id): Verdict
    requires a.WellFormed(nodes.Keys) && s in nodes && d in nodes
  {
    RuleCascade(nodes[s].kind.Type(), nodes[d].kind.Type(), |a.children[s]| > 0,
                TypeUp(nodes, a, s), TypeDown(nodes, a, s), TypeDown(nodes, a, d), SiblingRule(nodes, a, s, d))
  }

  /** What `addEdge(s, d)` returns, before it changes anything. */
  function EdgeVerdict(nodes: map<Id, Node>, a: Adjacency, s: Id, d: Id): (v: Verdict)
    requires a.WellFormed(nodes.Keys)
    ensures v == Accept ==> s in nodes && d in nodes && s != d && Edge(s, d) !in a.edges
  {
    if s !in nodes || d !in nodes then Reject
    else if Edge(s, d) in a.edges then Reject
    else if s == d then Reject
    else TypeRules(nodes, a, s, d)
  }

  /** The scan's inner test contradicts its outer guard, so it never rejects (or raises). */
  lemma {:induction false} SiblingScanAccepts(nodes: map<Id, Node>, a: Adjacency, cs: seq<Id>)
    requires a.WellFormed(nodes.Keys) && forall c :: c in cs ==> c in nodes
    ensures SiblingScan(nodes, a, cs, Some(Conjunction)) == Accept
  {
    if cs != [] {
      SiblingScanAccepts(nodes, a, cs[1..]);
    }
  }

  /** Hence the last rule never rejects an edge. */
  lemma SiblingRuleNeverRejects(nodes: map<Id, Node>, a: Adjacency, s: Id, d: Id)
    requires a.WellFormed(nodes.Keys) && s in nodes && d in nodes
    ensures SiblingRule(nodes, a, s, d) != Reject
  {
    if And(IsNot(TypeUp(nodes, a, s), Conjunction), Is(TypeDown(nodes, a, d), Conjunction)) == Holds
       && FirstUp(nodes, a, s).Some? {
      SiblingScanAccepts(nodes, a, a.children[FirstUp(nodes, a, s).value]);
    }
  }

  /**
   * Rules 1-5 on search results that exist raise nothing, and reject exactly
   * the forbidden cases, given that a non-Conjunction source resolves to its
   * own class.
   */
  lemma CascadeTable(src: NodeType, dst: NodeType, busy: bool, upS: NodeType, downS: NodeType, downD: NodeType)
    requires src != Conjunction ==> downS == src
    ensures RuleCascade(src, dst, busy, Some(upS), Some(downS), Some(downD), Accept) != Raise
    ensures RuleCascade(src, dst, busy, Some(upS), Some(downS), Some(downD), Accept) == Reject <==>
              Forbidden(src, dst, busy, upS, downS, downD)
  {
  }

  /**
   * Once the three searches end, the rules raise nothing and reject exactly
   * the forbidden cases.
   */
  lemma TypeRulesTable(nodes: map<Id, Node>, a: Adjacency, s: Id, d: Id)
    requires a.WellFormed(nodes.Keys) && s in nodes && d in nodes
    requires TypeUp(nodes, a, s).Some? && TypeDown(nodes, a, s).Some? && TypeDown(nodes, a, d).Some?
    ensures TypeRules(nodes, a, s, d) != Raise
    ensures TypeRules(nodes, a, s, d) == Reject <==>
              Forbidden(nodes[s].kind.Type(), nodes[d].kind.Type(), |a.children[s]| > 0,
                        TypeUp(nodes, a, s).value, TypeDown(nodes, a, s).value, TypeDown(nodes, a, d).value)
  {
    TypeDownSteps(nodes, a, s);
    if And(IsNot(TypeUp(nodes, a, s), Conjunction), Is(TypeDown(nodes, a, d), Conjunction)) == Holds {
      SiblingScanAccepts(nodes, a, a.children[FirstUp(nodes, a, s).value]);
    }
    var up, downS, downD := TypeUp(nodes, a, s), TypeDown(nodes, a, s), TypeDown(nodes, a, d);
    assert SiblingRule(nodes, a, s, d) == Accept;
    CascadeTable(nodes[s].kind.Type(), nodes[d].kind.Type(), |a.children[s]| > 0, up.value, downS.value, downD.value);
  }
}
