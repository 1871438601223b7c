/**
 * The search behind `getTypeRecursiveDown`, `getTypeRecursiveUp` and
 * `getFirstElementRecursiveUp` (attackTreeDraw/data/types.py and
 * attackTreeDraw/gui/items.py): starting at a node, while the node is a
 * Conjunction that has a neighbour, go on to its FIRST neighbour.
 *
 * The source recurses without a bound, so a chain of Conjunctions whose first
 * links come back on themselves recurses until Python raises RecursionError.
 * The model searches with fuel equal to the number of nodes and returns None
 * when the fuel runs out; `SearchIsExact` proves that this happens exactly
 * when the search never ends.
 */
module ConjunctionWalk {
  import opened Lists

  /** The Python class of a node: `Threat`, `Countermeasure` or `Conjunction`. */
  datatype NodeType = Threat | Countermeasure | Conjunction

  /**
   * A graph as the search sees it: the type of every node and its ordered
   * neighbours (the children for a downward search, the parents for an upward one).
   */
  datatype Links<K(==)> = Links(types: map<K, NodeType>, next: map<K, seq<K>>) {

    /** The search does not stop at `x`: it is a Conjunction with a first neighbour. */
    predicate Continues(x: K) {
      x in types && types[x] == Conjunction && x in next && |next[x]| > 0
    }

    /** Every first neighbour the search can step to is a node of the graph. */
    ghost predicate Closed() {
      forall x :: x in types && Continues(x) ==> next[x][0] in types
    }

    /** At most `fuel` steps of the search from `x`; None when the fuel runs out. */
    function Walk(x: K, fuel: nat): (r: Option<K>)
      requires x in types && Closed()
      ensures r.Some? ==> r.value in types && !Continues(r.value)
      ensures !Continues(x) ==> r == Some(x)
      decreases fuel
    {
      if !Continues(x) then Some(x)
      else if fuel == 0 then None
      else Walk(next[x][0], fuel - 1)
    }

    /** The search with as much fuel as the graph has nodes. */
    function Search(x: K): Option<K>
      requires x in types && Closed()
    {
      Walk(x, |types|)
    }

    /** The type the search ends on; None when it never ends. */
    function TypeOf(x: K): Option<NodeType>
      requires x in types && Closed()
    {
      match Search(x)
      case Some(y) => Some(types[y])
      case None => None
    }

    /** The node reached after `k` steps; the search stays where it stopped. */
    ghost function Nth(x: K, k: nat): K
      decreases k
    {
      if k == 0 || !Continues(x) then x else Nth(next[x][0], k - 1)
    }
  }

  /** The search with `f` fuel stops at the `f`-th node unless that node continues. */
  lemma {:induction false} WalkIsNth<K>(g: Links<K>, x: K, f: nat)
    requires x in g.types && g.Closed()
    ensures g.Walk(x, f) == if g.Continues(g.Nth(x, f)) then None else Some(g.Nth(x, f))
    decreases f
  {
    if g.Continues(x) && f > 0 {
      WalkIsNth(g, g.next[x][0], f - 1);
    }
  }

  lemma {:induction false} NthAdd<K>(g: Links<K>, x: K, a: nat, b: nat)
    ensures g.Nth(x, a + b) == g.Nth(g.Nth(x, a), b)
    decreases a
  {
    if a > 0 && g.Continues(x) {
      NthAdd(g, g.next[x][0], a - 1, b);
    } else if a > 0 {
      NthStays(g, x, b);
    }
  }

  lemma {:induction false} NthStays<K>(g: Links<K>, x: K, k: nat)
    requires !g.Continues(x)
    ensures g.Nth(x, k) == x
  {
  }

  lemma {:induction false} NthIn<K>(g: Links<K>, x: K, k: nat)
    requires x in g.types && g.Closed()
    ensures g.Nth(x, k) in g.types
    decreases k
  {
    if k > 0 && g.Continues(x) {
      NthIn(g, g.next[x][0], k - 1);
    }
  }

  /** Once stopped, later steps give the same node. */
  lemma NthStopped<K>(g: Links<K>, x: K, a: nat, b: nat)
    requires a <= b && !g.Continues(g.Nth(x, a))
    ensures g.Nth(x, b) == g.Nth(x, a)
  {
    NthAdd(g, x, a, b - a);
    NthStays(g, g.Nth(x, a), b - a);
  }

  /**
   * Pigeonhole step: a search that stops after `k` steps has already stopped
   * after as many steps as there are nodes.
   */
  lemma {:induction false} StopsWithin<K>(g: Links<K>, x: K, k: nat)
    requires x in g.types && g.Closed()
    requires !g.Continues(g.Nth(x, k))
    ensures !g.Continues(g.Nth(x, |g.types|))
    decreases k
  {
    var n := |g.types|;
    if k <= n {
      NthStopped(g, x, k, n);
    } else {
      var trail := seq(n + 1, i requires 0 <= i <= n => g.Nth(x, i));
      forall i | 0 <= i < |trail|
        ensures trail[i] in g.types.Keys
      {
        NthIn(g, x, i);
      }
      Pigeonhole(trail, g.types.Keys);
      var i, j :| 0 <= i < j < |trail| && trail[i] == trail[j];
      // Nth(x, j + t) == Nth(x, i + t): the steps after j repeat those after i.
      NthAdd(g, x, j, k - j);
      NthAdd(g, x, i, k - j);
      StopsWithin(g, x, i + (k - j));
    }
  }

  /**
   * Fuel equal to the number of nodes decides the search: when it runs out of
   * that fuel it runs out of any fuel (the source recurses forever), and when
   * it stops, more fuel changes nothing.
   */
  lemma SearchIsExact<K>(g: Links<K>, x: K, f: nat)
    requires x in g.types && g.Closed()
    ensures g.Search(x).None? ==> g.Walk(x, f).None?
    ensures f >= |g.types| ==> g.Walk(x, f) == g.Search(x)
  {
    var n := |g.types|;
    WalkIsNth(g, x, f);
    WalkIsNth(g, x, n);
    if !g.Continues(g.Nth(x, f)) {
      StopsWithin(g, x, f);
      if f >= n {
        NthStopped(g, x, n, f);
      } else {
        NthStopped(g, x, f, n);
      }
    } else if f >= n && !g.Continues(g.Nth(x, n)) {
      NthStopped(g, x, n, f);
    }
  }

  /** More fuel never changes a search that has stopped. */
  lemma WalkMonotone<K>(g: Links<K>, x: K, f: nat, f': nat)
    requires x in g.types && g.Closed()
    requires g.Walk(x, f).Some? && f <= f'
    ensures g.Walk(x, f') == g.Walk(x, f)
  {
    WalkIsNth(g, x, f);
    WalkIsNth(g, x, f');
    NthStopped(g, x, f, f');
  }

  /** One step of the search: a Conjunction with a first neighbour has that neighbour's result. */
  lemma SearchStep<K>(g: Links<K>, x: K)
    requires x in g.types && g.Closed() && g.Continues(x)
    ensures g.next[x][0] in g.types
    ensures g.Search(x) == g.Search(g.next[x][0])
  {
    var c := g.next[x][0];
    var n := |g.types|;
    if g.Walk(c, n - 1).Some? {
      WalkMonotone(g, c, n - 1, n);
    } else {
      SearchIsExact(g, x, n + 1);
    }
  }
  /** The search fails exactly when the unbounded recursion of the source never returns. */
  lemma SearchDiverges<K>(g: Links<K>, x: K)
    requires x in g.types && g.Closed()
    ensures g.Search(x).None? <==> forall f: nat :: g.Walk(x, f).None?
  {
    forall f: nat | g.Search(x).None?
      ensures g.Walk(x, f).None?
    {
      SearchIsExact(g, x, f);
    }
    assert g.Search(x) == g.Walk(x, |g.types|);
  }
}
