/**
 * The view side of an attack tree (attackTreeDraw/gui/items.py): every drawn
 * node keeps the list of its outgoing arrows (`childEdges`) and of its
 * incoming arrows (`parentEdges`). An arrow is an `Edge(start, dst, offset)`
 * object, and the SAME object sits in the start's `childEdges` and in the
 * destination's `parentEdges`, so an offset written through one list is seen
 * through the other.
 *
 * The model keeps the arrows in an arena: an arrow is a handle, its two ends
 * are in `Shape.links` and its offset in a separate map, so that updating an
 * offset leaves the shape (and with it every type walk) untouched.
 */
module ViewItems {
  import opened Lists
  import opened ConjunctionWalk

  /** A drawn node (a `Threat`, `Countermeasure` or `Conjunction` item). */
  type ViewId = nat

  /** An arrow object. */
  type EdgeRef = nat

  /** The two ends of an arrow. */
  datatype Link = Link(start: ViewId, dst: ViewId)

  /** What the arrows of a scene connect, without their offsets. */
  datatype Shape = Shape(types: map<ViewId, NodeType>,
                         childEdges: map<ViewId, seq<EdgeRef>>,
                         parentEdges: map<ViewId, seq<EdgeRef>>,
                         links: map<EdgeRef, Link>) {

    /** Every listed arrow exists and starts (resp. ends) at the node listing it. */
    ghost predicate WellFormed() {
      && childEdges.Keys == types.Keys
      && parentEdges.Keys == types.Keys
      && (forall x, r :: x in childEdges && r in childEdges[x] ==> r in links && links[r].start == x)
      && (forall x, r :: x in parentEdges && r in parentEdges[x] ==> r in links && links[r].dst == x)
      && (forall r :: r in links ==> links[r].start in types && links[r].dst in types)
    }

    /** The destinations (or, with `toDst` false, the starts) of the listed arrows, in order. */
    function Ends(rs: seq<EdgeRef>, toDst: bool): seq<ViewId> {
      if rs == [] then []
      else
        (if rs[0] in links then [if toDst then links[rs[0]].dst else links[rs[0]].start] else [])
        + Ends(rs[1..], toDst)
    }

    /** What `getTypeRecursiveDown` walks: `c.dst` for `c` in `childEdges`. */
    function Down(): Links<ViewId> {
      Links(types, map x | x in childEdges :: Ends(childEdges[x], true))
    }

    /** What a walk over the parents sees: `p.start` for `p` in `parentEdges`. */
    function Up(): Links<ViewId> {
      Links(types, map x | x in parentEdges :: Ends(parentEdges[x], false))
    }

    /** `getTypeRecursiveDown`; None where the recursion never ends. */
    function TypeDown(x: ViewId): Option<NodeType>
      requires WellFormed() && x in types
    {
      DownClosed(this);
      Down().TypeOf(x)
    }

    /** `getTypeRecursiveUp` as written: its loop runs over `self.childEdges`, so it is the downward walk. */
    function TypeUpAsWritten(x: ViewId): Option<NodeType>
      requires WellFormed() && x in types
    {
      TypeDown(x)
    }

    /** `getTypeRecursiveUp` as its documentation describes it: the walk over the first parent arrows. */
    function TypeUp(x: ViewId): Option<NodeType>
      requires WellFormed() && x in types
    {
      UpClosed(this);
      Up().TypeOf(x)
    }

    /** The appends of `Node.addEdge`: the new arrow `e` goes to the end of both lists. */
    function Linked(e: EdgeRef, s: ViewId, d: ViewId): Shape
      requires s in childEdges && d in parentEdges
    {
      Shape(types, childEdges[s := childEdges[s] + [e]], parentEdges[d := parentEdges[d] + [e]],
            links[e := Link(s, d)])
    }
  }

  /** The first entry of `Ends` is the end of the first arrow. */
  lemma EndsFirst(g: Shape, rs: seq<EdgeRef>, toDst: bool)
    requires rs != [] && rs[0] in g.links
    ensures g.Ends(rs, toDst) != []
    ensures g.Ends(rs, toDst)[0] == if toDst then g.links[rs[0]].dst else g.links[rs[0]].start
  {
  }

  lemma DownClosed(g: Shape)
    requires g.WellFormed()
    ensures g.Down().Closed()
  {
    var d := g.Down();
    forall x | x in d.types && d.Continues(x)
      ensures d.next[x][0] in d.types
    {
      var rs := g.childEdges[x];
      assert rs != [];
      assert rs[0] in rs;
      EndsFirst(g, rs, true);
    }
  }

  lemma UpClosed(g: Shape)
    requires g.WellFormed()
    ensures g.Up().Closed()
  {
    var u := g.Up();
    forall x | x in u.types && u.Continues(x)
      ensures u.next[x][0] in u.types
    {
      var rs := g.parentEdges[x];
      assert rs != [];
      assert rs[0] in rs;
      EndsFirst(g, rs, false);
    }
  }

  /**
   * `getTypeRecursiveDown`: a Threat or Countermeasure gives its own type, a
   * Conjunction without child arrows gives Conjunction, and a Conjunction
   * gives what the destination of its FIRST child arrow gives.
   */
  lemma TypeDownSteps(g: Shape, x: ViewId)
    requires g.WellFormed() && x in g.types
    ensures g.types[x] != Conjunction ==> g.TypeDown(x) == Some(g.types[x])
    ensures g.types[x] == Conjunction && g.childEdges[x] == [] ==> g.TypeDown(x) == Some(Conjunction)
    ensures g.types[x] == Conjunction && g.childEdges[x] != [] ==>
              var c := g.links[g.childEdges[x][0]].dst;
              c in g.types && g.TypeDown(x) == g.TypeDown(c)
  {
    DownClosed(g);
    var d := g.Down();
    if g.types[x] == Conjunction && g.childEdges[x] != [] {
      var rs := g.childEdges[x];
      assert rs[0] in rs;
      EndsFirst(g, rs, true);
      SearchStep(d, x);
    } else if g.types[x] == Conjunction {
      assert d.next[x] == [];
    }
  }

  /** The walk over the parents, step by step: a Conjunction gives what the start of its FIRST parent arrow gives. */
  lemma TypeUpSteps(g: Shape, x: ViewId)
    requires g.WellFormed() && x in g.types
    ensures g.types[x] != Conjunction ==> g.TypeUp(x) == Some(g.types[x])
    ensures g.types[x] == Conjunction && g.parentEdges[x] == [] ==> g.TypeUp(x) == Some(Conjunction)
    ensures g.types[x] == Conjunction && g.parentEdges[x] != [] ==>
              var p := g.links[g.parentEdges[x][0]].start;
              p in g.types && g.TypeUp(x) == g.TypeUp(p)
  {
    UpClosed(g);
    var u := g.Up();
    if g.types[x] == Conjunction && g.parentEdges[x] != [] {
      var rs := g.parentEdges[x];
      assert rs[0] in rs;
      EndsFirst(g, rs, false);
      SearchStep(u, x);
    } else if g.types[x] == Conjunction {
      assert u.next[x] == [];
    }
  }

  /** A Conjunction (0) below a Countermeasure (2) and above a Threat (1). */
  function Sandwich(): Shape {
    Shape(map[0 := Conjunction, 1 := Threat, 2 := Countermeasure],
          map[0 := [1], 1 := [], 2 := [0]],
          map[0 := [0], 1 := [1], 2 := []],
          map[0 := Link(2, 0), 1 := Link(0, 1)])
  }

  lemma SandwichWellFormed()
    ensures Sandwich().WellFormed()
  {
    var g := Sandwich();
    forall x, r | x in g.childEdges && r in g.childEdges[x]
      ensures r in g.links && g.links[r].start == x
    {
      assert x == 0 || x == 2;
    }
    forall x, r | x in g.parentEdges && r in g.parentEdges[x]
      ensures r in g.links && g.links[r].dst == x
    {
      assert x == 0 || x == 1;
    }
  }

  /**
   * On `Sandwich`, `getTypeRecursiveUp` as written answers Threat, the type
   * BELOW the Conjunction, where the walk over its parents answers
   * Countermeasure.
   */
  lemma UpWalksChildEdges()
    ensures Sandwich().WellFormed()
    ensures Sandwich().TypeUpAsWritten(0) == Some(Threat)
    ensures Sandwich().TypeUp(0) == Some(Countermeasure)
  {
    SandwichWellFormed();
    SandwichDown();
    SandwichUp();
  }

  lemma SandwichDown()
    requires Sandwich().WellFormed()
    ensures Sandwich().TypeDown(0) == Some(Threat)
  {
    var g := Sandwich();
    TypeDownSteps(g, 0);
    TypeDownSteps(g, 1);
  }

  lemma SandwichUp()
    requires Sandwich().WellFormed()
    ensures Sandwich().TypeUp(0) == Some(Countermeasure)
  {
    var g := Sandwich();
    TypeUpSteps(g, 0);
    TypeUpSteps(g, 2);
  }

  /** Adding an arrow between two nodes of the scene keeps the lists consistent. */
  lemma LinkedWellFormed(g: Shape, e: EdgeRef, s: ViewId, d: ViewId)
    requires g.WellFormed() && e !in g.links && s in g.types && d in g.types
    ensures g.Linked(e, s, d).WellFormed()
  {
    var h := g.Linked(e, s, d);
    forall x, r | x in h.childEdges && r in h.childEdges[x]
      ensures r in h.links && h.links[r].start == x
    {
      if x == s && r !in g.childEdges[s] {
        assert r == e;
      }
    }
    forall x, r | x in h.parentEdges && r in h.parentEdges[x]
      ensures r in h.links && h.links[r].dst == x
    {
      if x == d && r !in g.parentEdges[d] {
        assert r == e;
      }
    }
  }

  /**
   * The offset rule of `Node.addEdge` and `Node.actualizeEdges`: -50 from a
   * Threat to a node whose downward type is Threat, 50 from a Threat to one
   * whose downward type is Countermeasure, 0 otherwise. The walk is only made
   * from a Threat (Python's `and` stops at `isinstance(self, Threat)`).
   */
  function OffsetFor(g: Shape, s: ViewId, d: ViewId): int
    requires g.WellFormed() && s in g.types && d in g.types
  {
    if g.types[s] != Threat then 0
    else match g.TypeDown(d)
      case Some(Threat) => -50
      case Some(Countermeasure) => 50
      case _ => 0
  }

  /** The three offsets the rule gives, and when it gives each. */
  lemma OffsetRule(g: Shape, s: ViewId, d: ViewId)
    requires g.WellFormed() && s in g.types && d in g.types
    ensures OffsetFor(g, s, d) in {-50, 0, 50}
    ensures OffsetFor(g, s, d) == -50 <==> g.types[s] == Threat && g.TypeDown(d) == Some(Threat)
    ensures OffsetFor(g, s, d) == 50 <==> g.types[s] == Threat && g.TypeDown(d) == Some(Countermeasure)
  {
  }

  /** Where the offset rule raises: from a Threat, the downward walk of the destination never ends. */
  predicate WalkRaises(g: Shape, s: ViewId, d: ViewId)
    requires g.WellFormed() && s in g.types && d in g.types
  {
    g.types[s] == Threat && g.TypeDown(d).None?
  }

  /** The offsets once the arrows of `rs` that are in the scene get the offset of the rule for an arrow from `x`. */
  function Retargeted(g: Shape, x: ViewId, offsets: map<EdgeRef, int>, rs: seq<EdgeRef>): (r: map<EdgeRef, int>)
    requires g.WellFormed() && x in g.types
    ensures r.Keys == offsets.Keys
    ensures forall e :: e in offsets && e !in rs ==> r[e] == offsets[e]
  {
    map e | e in offsets :: if e in rs && e in g.links then OffsetFor(g, x, g.links[e].dst) else offsets[e]
  }

  /** The offsets after `actualizeEdges` on `x`: every child arrow of `x` gets the offset of the rule. */
  function Actualized(g: Shape, x: ViewId, offsets: map<EdgeRef, int>): (r: map<EdgeRef, int>)
    requires g.WellFormed() && x in g.types
    ensures r.Keys == offsets.Keys
  {
    Retargeted(g, x, offsets, g.childEdges[x])
  }

  /** No arrow of `rs` from `x` makes the rule's walk raise. */
  predicate NoneRaise(g: Shape, x: ViewId, rs: seq<EdgeRef>)
    requires g.WellFormed() && x in g.types && x in g.childEdges
    requires forall r :: r in rs ==> r in g.childEdges[x]
  {
    forall r :: r in rs ==> !WalkRaises(g, x, g.links[r].dst)
  }

  /** One more arrow whose walk ends keeps the prefix free of raises. */
  lemma NoneRaiseStep(g: Shape, x: ViewId, rs: seq<EdgeRef>, i: nat)
    requires g.WellFormed() && x in g.types && x in g.childEdges && i < |rs|
    requires forall r :: r in rs ==> r in g.childEdges[x]
    requires NoneRaise(g, x, rs[..i]) && !WalkRaises(g, x, g.links[rs[i]].dst)
    ensures NoneRaise(g, x, rs[..i + 1])
  {
    assert forall r :: r in rs[..i + 1] ==> r in rs[..i] || r == rs[i];
  }

  /** One more arrow of the list retargeted is one more map update. */
  lemma RetargetedStep(g: Shape, x: ViewId, offsets: map<EdgeRef, int>, rs: seq<EdgeRef>, i: nat)
    requires g.WellFormed() && x in g.types && i < |rs|
    requires rs[i] in offsets && rs[i] in g.links
    ensures Retargeted(g, x, offsets, rs[..i + 1])
         == Retargeted(g, x, offsets, rs[..i])[rs[i] := OffsetFor(g, x, g.links[rs[i]].dst)]
  {
    assert forall e :: e in rs[..i + 1] <==> e in rs[..i] || e == rs[i];
  }

  /** `actualizeEdges` twice is `actualizeEdges` once, and it touches no arrow that does not start at `x`. */
  lemma ActualizedIdempotent(g: Shape, x: ViewId, offsets: map<EdgeRef, int>)
    requires g.WellFormed() && x in g.types
    ensures Actualized(g, x, Actualized(g, x, offsets)) == Actualized(g, x, offsets)
    ensures forall r :: r in offsets && r !in g.childEdges[x] ==> Actualized(g, x, offsets)[r] == offsets[r]
  {
    var once := Actualized(g, x, offsets);
    var twice := Actualized(g, x, once);
    assert forall r :: r in twice ==> twice[r] == once[r];
  }

  // -------------------------------------------------------------------------
  // getLeftRightChildren (items.py:140-160)

  /** A child arrow as `getLeftRightChildren` reads it: its destination and its offset. */
  datatype Out = Out(dst: ViewId, offset: int)

  /** How many arrows of `es` have offset 0. */
  function Neutrals(es: seq<Out>): nat {
    if es == [] then 0 else Neutrals(es[..|es| - 1]) + (if es[|es| - 1].offset == 0 then 1 else 0)
  }

  function Negatives(es: seq<Out>): nat {
    if es == [] then 0 else Negatives(es[..|es| - 1]) + (if es[|es| - 1].offset < 0 then 1 else 0)
  }

  function Positives(es: seq<Out>): nat {
    if es == [] then 0 else Positives(es[..|es| - 1]) + (if es[|es| - 1].offset > 0 then 1 else 0)
  }

  /**
   * The side of the `i`-th arrow: left for a negative offset, right for a
   * positive one, and for offset 0 left exactly when an even number of
   * offset-0 arrows come before it.
   */
  predicate GoesLeft(es: seq<Out>, i: nat)
    requires i < |es|
  {
    es[i].offset < 0 || (es[i].offset == 0 && Neutrals(es[..i]) % 2 == 0)
  }

  /** The destinations of the arrows on one side, in the order of `es`. */
  function Picked(es: seq<Out>, left: bool): seq<ViewId> {
    if es == [] then []
    else
      var n := |es| - 1;
      Picked(es[..n], left) + (if GoesLeft(es, n) == left then [es[n].dst] else [])
  }

  /** The loop of `getLeftRightChildren` over `es`: the two lists and the final `neutralLeft`. */
  function Deal(es: seq<Out>): (seq<ViewId>, seq<ViewId>, bool) {
    if es == [] then ([], [], false)
    else
      var (left, right, neutralLeft) := Deal(es[..|es| - 1]);
      var e := es[|es| - 1];
      if e.offset < 0 then (left + [e.dst], right, neutralLeft)
      else if e.offset > 0 then (left, right + [e.dst], neutralLeft)
      else if !neutralLeft then (left + [e.dst], right, true)
      else (left, right + [e.dst], false)
  }

  /**
   * The loop deals the arrows exactly as `GoesLeft` says, and `neutralLeft`
   * ends up true exactly when the number of offset-0 arrows is odd.
   */
  lemma {:induction false} DealIsPicked(es: seq<Out>)
    ensures Deal(es) == (Picked(es, true), Picked(es, false), Neutrals(es) % 2 == 1)
    decreases |es|
  {
    if es != [] {
      var n := |es| - 1;
      var init := es[..n];
      DealIsPicked(init);
      var e := es[n];
      var d := Deal(init);
      assert (Neutrals(es) % 2 == 1) == (if e.offset == 0 then !d.2 else d.2);
      assert Deal(es).0 == Picked(es, true);
      assert Deal(es).1 == Picked(es, false);
      assert Deal(es).2 == (Neutrals(es) % 2 == 1);
    }
  }

  /** Every arrow lands on exactly one side: the two lists together are as long as the arrows. */
  lemma {:induction false} PickedSizes(es: seq<Out>)
    ensures |Picked(es, true)| + |Picked(es, false)| == |es|
    ensures |Picked(es, true)| == Negatives(es) + (Neutrals(es) + 1) / 2
    ensures |Picked(es, false)| == Positives(es) + Neutrals(es) / 2
    decreases |es|
  {
    if es != [] {
      var n := |es| - 1;
      PickedSizes(es[..n]);
      assert es[..n][..n] == es[..n];
    }
  }

  /** The destinations of `es`, in order. */
  function Dsts(es: seq<Out>): seq<ViewId> {
    if es == [] then [] else Dsts(es[..|es| - 1]) + [es[|es| - 1].dst]
  }

  /** Every destination is dealt exactly once: the two sides together hold the destinations of `es`. */
  lemma {:induction false} PickedCover(es: seq<Out>)
    ensures multiset(Picked(es, true)) + multiset(Picked(es, false)) == multiset(Dsts(es))
    decreases |es|
  {
    if es != [] {
      PickedCover(es[..|es| - 1]);
    }
  }

  /** Negative offsets always go left and positive ones always go right. */
  lemma SignedSides(es: seq<Out>, i: nat)
    requires i < |es|
    ensures es[i].offset < 0 ==> es[i].dst in Picked(es, true)
    ensures es[i].offset > 0 ==> es[i].dst in Picked(es, false)
    decreases |es|
  {
    var n := |es| - 1;
    if i < n {
      SignedSides(es[..n], i);
      assert es[..n][i] == es[i];
      assert es[..n][..i] == es[..i];
    }
  }

  /** The offsets of the arrows `rs` read through the scene. */
  function Outs(g: Shape, offsets: map<EdgeRef, int>, rs: seq<EdgeRef>): (r: seq<Out>)
    requires forall r :: r in rs ==> r in g.links && r in offsets
    ensures |r| == |rs|
  {
    seq(|rs|, i requires 0 <= i < |rs| => Out(g.links[rs[i]].dst, offsets[rs[i]]))
  }

  /** The arrows of `g` have offsets and handles below `next`. */
  ghost predicate SceneOk(g: Shape, offsets: map<EdgeRef, int>, next: EdgeRef) {
    && g.WellFormed()
    && offsets.Keys == g.links.Keys
    && forall r :: r in g.links ==> r < next
  }

  /**
   * The `i`-th child arrow of `x` is the first whose walk raises: the arrows
   * before it have the offset of the rule, it and the later ones keep theirs.
   */
  predicate RaisedAt(g: Shape, x: ViewId, before: map<EdgeRef, int>, after: map<EdgeRef, int>, i: int)
    requires g.WellFormed() && x in g.types && x in g.childEdges
  {
    && 0 <= i < |g.childEdges[x]|
    && NoneRaise(g, x, g.childEdges[x][..i])
    && WalkRaises(g, x, g.links[g.childEdges[x][i]].dst)
    && after == Retargeted(g, x, before, g.childEdges[x][..i])
  }

  /** New offsets for the same arrows keep a scene consistent. */
  lemma OffsetsOk(g: Shape, offsets: map<EdgeRef, int>, offsets': map<EdgeRef, int>, next: EdgeRef)
    requires SceneOk(g, offsets, next) && offsets'.Keys == offsets.Keys
    ensures SceneOk(g, offsets', next)
  {
  }

  /** A fresh arrow keeps a scene consistent. */
  lemma LinkedOk(g: Shape, offsets: map<EdgeRef, int>, next: EdgeRef, s: ViewId, d: ViewId, o: int)
    requires SceneOk(g, offsets, next) && s in g.types && d in g.types
    ensures next !in g.links
    ensures SceneOk(g.Linked(next, s, d), offsets[next := o], next + 1)
  {
    LinkedWellFormed(g, next, s, d);
  }

  /**
   * The drawn nodes with their arrows. `nextEdge` stands for the allocation of
   * new `Edge` objects: every handle in use is below it.
   */
  class Scene {
    var shape: Shape
    var offsets: map<EdgeRef, int>
    var nextEdge: EdgeRef

    ghost predicate Valid()
      reads this
    {
      SceneOk(shape, offsets, nextEdge)
    }

    /** The items of a scene as they are created: every node starts with empty `childEdges` and `parentEdges`. */
    constructor (types: map<ViewId, NodeType>)
      ensures Valid()
      ensures shape == Shape(types, map x | x in types :: [], map x | x in types :: [], map[])
      ensures offsets == map[] && nextEdge == 0
    {
      shape := Shape(types, map x | x in types :: [], map x | x in types :: [], map[]);
      offsets := map[];
      nextEdge := 0;
    }

    /**
     * `Node.addEdge(dst)` on the item `s`: a new arrow with the offset of the
     * rule is appended to `s.childEdges` and, the same object, to
     * `d.parentEdges`. The rule's walk raises (and nothing changes) where it
     * never ends.
     */
    method AddEdge(s: ViewId, d: ViewId) returns (ok: bool, e: EdgeRef)
      requires Valid() && s in shape.types && d in shape.types
      modifies this`shape, this`offsets, this`nextEdge
      ensures Valid()
      ensures ok <==> !WalkRaises(old(shape), s, d)
      ensures !ok ==> unchanged(this)
      ensures ok ==> e !in old(shape).links && shape == old(shape).Linked(e, s, d)
      ensures ok ==> offsets == old(offsets)[e := OffsetFor(old(shape), s, d)]
    {
      e := nextEdge;
      if WalkRaises(shape, s, d) {
        ok := false;
        return;
      }
      var o := OffsetFor(shape, s, d);
      LinkedOk(shape, offsets, nextEdge, s, d, o);
      var g1, o1 := shape.Linked(e, s, d), offsets[e := o];
      assert SceneOk(g1, o1, e + 1);
      shape, offsets, nextEdge := g1, o1, e + 1;
      ok := true;
    }

    /**
     * `Node.actualizeEdges` on the item `x`: each child arrow gets the offset
     * of the rule, in list order; a walk that never ends raises and leaves the
     * arrows after it as they were.
     */
    method ActualizeEdges(x: ViewId) returns (ok: bool)
      requires Valid() && x in shape.types
      modifies this`offsets
      ensures Valid()
      ensures ok <==> NoneRaise(shape, x, shape.childEdges[x])
      ensures ok ==> offsets == Actualized(shape, x, old(offsets))
      ensures !ok ==> exists i :: RaisedAt(shape, x, old(offsets), offsets, i)
      ensures forall r :: r in old(offsets) && r !in shape.childEdges[x] ==> offsets[r] == old(offsets)[r]
    {
      var rs := shape.childEdges[x];
      ghost var o0 := offsets;
      for i := 0 to |rs|
        invariant Valid()
        invariant offsets == Retargeted(shape, x, o0, rs[..i])
        invariant NoneRaise(shape, x, rs[..i])
      {
        var raised := ActualizeOne(x, i, o0);
        if raised {
          ok := false;
          return;
        }
      }
      assert rs[..|rs|] == rs;
      ok := true;
    }

    /** One turn of the loop of `actualizeEdges`: the `i`-th child arrow of `x` gets the offset of the rule. */
    method ActualizeOne(x: ViewId, i: nat, ghost o0: map<EdgeRef, int>) returns (raised: bool)
      requires Valid() && x in shape.types && i < |shape.childEdges[x]|
      requires o0.Keys == shape.links.Keys
      requires offsets == Retargeted(shape, x, o0, shape.childEdges[x][..i])
      requires NoneRaise(shape, x, shape.childEdges[x][..i])
      modifies this`offsets
      ensures raised <==> WalkRaises(shape, x, shape.links[shape.childEdges[x][i]].dst)
      ensures Valid()
      ensures raised ==> unchanged(this`offsets)
      ensures raised ==> RaisedAt(shape, x, o0, offsets, i)
      ensures !raised ==> offsets == Retargeted(shape, x, o0, shape.childEdges[x][..i + 1])
      ensures !raised ==> NoneRaise(shape, x, shape.childEdges[x][..i + 1])
    {
      var rs := shape.childEdges[x];
      assert rs[i] in rs;
      var d := shape.links[rs[i]].dst;
      if WalkRaises(shape, x, d) {
        return true;
      }
      RetargetedStep(shape, x, o0, rs, i);
      NoneRaiseStep(shape, x, rs, i);
      ghost var before := offsets;
      offsets := offsets[rs[i] := OffsetFor(shape, x, d)];
      OffsetsOk(shape, before, offsets, nextEdge);
      return false;
    }

    /**
     * `Node.getLeftRightChildren` on the item `x`: the destinations of its
     * child arrows dealt to a left and a right list.
     */
    method GetLeftRightChildren(x: ViewId) returns (left: seq<ViewId>, right: seq<ViewId>)
      requires Valid() && x in shape.types
      ensures var es := Outs(shape, offsets, shape.childEdges[x]);
              left == Picked(es, true) && right == Picked(es, false)
    {
      var rs := shape.childEdges[x];
      ghost var es := Outs(shape, offsets, rs);
      left, right := [], [];
      var neutralLeft := false;
      for i := 0 to |rs|
        invariant (left, right, neutralLeft) == Deal(es[..i])
      {
        assert rs[i] in rs;
        var dst, offset := shape.links[rs[i]].dst, offsets[rs[i]];
        assert es[..i + 1][..i] == es[..i] && es[i] == Out(dst, offset);
        if offset < 0 {
          left := left + [dst];
        } else if offset > 0 {
          right := right + [dst];
        } else if !neutralLeft {
          left := left + [dst];
          neutralLeft := true;
        } else {
          right := right + [dst];
          neutralLeft := false;
        }
      }
      assert es[..|rs|] == es;
      DealIsPicked(es);
    }
  }
}
