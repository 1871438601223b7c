/** Sequence helpers standing for the Python list operations the tree model uses. */
module Lists {

  datatype Option<T> = None | Some(value: T)

  /** No element occurs twice. */
  predicate Distinct<T(==)>(s: seq<T>) {
    forall i, j :: 0 <= i < j < |s| ==> s[i] != s[j]
  }

  /** Python's `list.remove(x)`: drops the first occurrence of `x`. */
  function RemoveFirst<T(==)>(s: seq<T>, x: T): (r: seq<T>)
    requires x in s
    ensures |r| == |s| - 1
    ensures multiset(r) == multiset(s) - multiset{x}
  {
    assert s == [s[0]] + s[1..];
    if s[0] == x then s[1..] else [s[0]] + RemoveFirst(s[1..], x)
  }

  /** `s` with every occurrence of `x` filtered out, order kept. */
  function Without<T(==,!new)>(s: seq<T>, x: T): (r: seq<T>)
    ensures forall y :: y in r <==> y in s && y != x
    ensures |r| <= |s|
  {
    if s == [] then []
    else (if s[0] == x then [] else [s[0]]) + Without(s[1..], x)
  }

  /** `s` with every element of `gone` filtered out, order kept. */
  function Drop<T(==,!new)>(s: seq<T>, gone: set<T>): (r: seq<T>)
    ensures forall y :: y in r <==> y in s && y !in gone
  {
    if s == [] then []
    else (if s[0] in gone then [] else [s[0]]) + Drop(s[1..], gone)
  }

  lemma {:induction false} WithoutDistinct<T(!new)>(s: seq<T>, x: T)
    requires Distinct(s)
    ensures Distinct(Without(s, x))
  {
    if s != [] {
      WithoutDistinct(s[1..], x);
      assert s[0] !in Without(s[1..], x);
    }
  }

  lemma {:induction false} DropDistinct<T(!new)>(s: seq<T>, gone: set<T>)
    requires Distinct(s)
    ensures Distinct(Drop(s, gone))
  {
    if s != [] {
      DropDistinct(s[1..], gone);
    }
  }

  /** On a list without repetitions, `list.remove` removes every occurrence. */
  lemma {:induction false} RemoveFirstIsWithout<T(!new)>(s: seq<T>, x: T)
    requires Distinct(s) && x in s
    ensures RemoveFirst(s, x) == Without(s, x)
  {
    if s[0] == x {
      WithoutAbsent(s[1..], x);
    } else {
      RemoveFirstIsWithout(s[1..], x);
    }
  }

  lemma {:induction false} WithoutAbsent<T(!new)>(s: seq<T>, x: T)
    requires x !in s
    ensures Without(s, x) == s
  {
    if s != [] {
      assert s == [s[0]] + s[1..];
      WithoutAbsent(s[1..], x);
    }
  }

  lemma {:induction false} DropNone<T(!new)>(s: seq<T>, gone: set<T>)
    requires forall y :: y in s ==> y !in gone
    ensures Drop(s, gone) == s
  {
    if s != [] {
      assert s == [s[0]] + s[1..];
      DropNone(s[1..], gone);
    }
  }

  lemma {:induction false} DropDrop<T(!new)>(s: seq<T>, a: set<T>, b: set<T>)
    ensures Drop(Drop(s, a), b) == Drop(s, a + b)
  {
    if s != [] {
      DropDrop(s[1..], a, b);
      var d1 := Drop(s[1..], a);
      if s[0] in a {
        assert Drop(s, a) == d1;
      } else {
        var d := [s[0]] + d1;
        assert Drop(s, a) == d;
        assert d[0] == s[0] && d[1..] == d1;
        assert Drop(d, b) == (if s[0] in b then [] else [s[0]]) + Drop(d1, b);
      }
    }
  }

  /** Cutting out the element at `i` of a list without repetitions drops that value. */
  lemma {:induction false} CutIsDrop<T(!new)>(s: seq<T>, i: nat)
    requires Distinct(s) && i < |s|
    ensures s[..i] + s[i + 1..] == Drop(s, {s[i]})
  {
    if i == 0 {
      assert s[..0] + s[1..] == s[1..];
      DropNone(s[1..], {s[0]});
    } else {
      assert s[1..][i - 1] == s[i];
      CutIsDrop(s[1..], i - 1);
      assert s[..i] + s[i + 1..] == [s[0]] + (s[1..][..i - 1] + s[1..][i..]);
    }
  }

  /** A list without repetitions drawn from `S` is no longer than `S` is large. */
  lemma {:induction false} DistinctBound<T>(s: seq<T>, S: set<T>)
    requires Distinct(s)
    requires forall i :: 0 <= i < |s| ==> s[i] in S
    ensures |s| <= |S|
  {
    if s != [] {
      forall i | 0 <= i < |s[1..]|
        ensures s[1..][i] in S - {s[0]}
      {
        assert s[1..][i] == s[i + 1];
      }
      DistinctBound(s[1..], S - {s[0]});
    }
  }

  /** A list without repetitions drawn from `S` and as long as `S` is large holds all of `S`. */
  lemma DistinctCovers<T>(s: seq<T>, S: set<T>)
    requires Distinct(s) && |s| == |S|
    requires forall i :: 0 <= i < |s| ==> s[i] in S
    ensures forall x :: x in S ==> x in s
  {
    forall x | x in S
      ensures x in s
    {
      if x !in s {
        DistinctBound(s, S - {x});
      }
    }
  }

  /** More elements than `S` has: some value repeats. */
  lemma Pigeonhole<T>(s: seq<T>, S: set<T>)
    requires forall i :: 0 <= i < |s| ==> s[i] in S
    requires |s| > |S|
    ensures exists i, j :: 0 <= i < j < |s| && s[i] == s[j]
  {
    if !exists i, j :: 0 <= i < j < |s| && s[i] == s[j] {
      DistinctBound(s, S);
    }
  }
  /** Filtering out one value is dropping the singleton set. */
  lemma {:induction false} WithoutIsDrop<T(!new)>(s: seq<T>, x: T)
    ensures Without(s, x) == Drop(s, {x})
  {
    if s != [] {
      WithoutIsDrop(s[1..], x);
    }
  }

  lemma {:induction false} DropConcat<T(!new)>(s: seq<T>, t: seq<T>, gone: set<T>)
    ensures Drop(s + t, gone) == Drop(s, gone) + Drop(t, gone)
  {
    if s == [] {
      assert s + t == t;
    } else {
      assert (s + t)[1..] == s[1..] + t;
      DropConcat(s[1..], t, gone);
    }
  }

  /** Only the dropped values that occur in the list matter. */
  lemma {:induction false} DropSame<T(!new)>(s: seq<T>, a: set<T>, b: set<T>)
    requires forall y :: y in s ==> (y in a <==> y in b)
    ensures Drop(s, a) == Drop(s, b)
  {
    if s != [] {
      DropSame(s[1..], a, b);
    }
  }

  lemma DropAll<T(!new)>(s: seq<T>, gone: set<T>)
    requires forall y :: y in s ==> y in gone
    ensures Drop(s, gone) == []
  {
  }

  /** A subset is no larger than the set holding it; a proper subset is smaller. */
  lemma {:induction false} SubsetCard<T>(A: set<T>, B: set<T>)
    requires A <= B
    ensures |A| <= |B|
    ensures A < B ==> |A| < |B|
    decreases B
  {
    if A != {} {
      var x :| x in A;
      if A < B {
        var y :| y in B && y !in A;
        assert y in B - {x} && y !in A - {x};
      }
      SubsetCard(A - {x}, B - {x});
    } else if B != {} {
      var y :| y in B;
      assert |B| >= |{y}|;
    }
  }

  /** Marking one more element of `K` leaves fewer unmarked. */
  lemma Shrinks<T>(K: set<T>, before: set<T>, after: set<T>, x: T)
    requires before <= after && x in K && x !in before && x in after
    ensures |K - after| < |K - before|
  {
    assert x in K - before && x !in K - after;
    SubsetCard(K - after, K - before);
  }

  /** On a list without repetitions, filtering out the last value drops just the last entry. */
  lemma WithoutLast<T(!new)>(s: seq<T>)
    requires Distinct(s) && s != []
    ensures Without(s, s[|s| - 1]) == s[..|s| - 1]
  {
    var init, x := s[..|s| - 1], s[|s| - 1];
    assert s == init + [x];
    WithoutIsDrop(s, x);
    DropConcat(init, [x], {x});
    DropNone(init, {x});
    assert Drop([x], {x}) == [];
  }
}
