/** The pairwise operations of the set-combination engine: the intersection
    of two sets and the "neighbours" predicate built on it. */
module Functions {

  /** A member of a set system: an identifier and the tokens it holds. */
  datatype NamedSet<T> = NamedSet(name: string, content: set<T>)

  /** The items of `a` that also occur in `b`; the specification of `Intersection`. */
  function Common<T>(a: set<T>, b: set<T>): (r: set<T>)
    ensures r <= a
    ensures forall x :: x in a ==> (x in r <==> x in b)
  {
    a * b
  }

  /** Builds the intersection item by item, walking the first set and keeping
      each item the second set also holds. */
  method Intersection<T>(set1: set<T>, set2: set<T>) returns (res: set<T>)
    ensures res == Common(set1, set2)
  {
    res := {};
    var rest := set1;
    while rest != {}
      invariant rest <= set1
      invariant res == Common(set1 - rest, set2)
      decreases rest
    {
      var item :| item in rest;
      if item in set2 {
        res := res + {item};
      }
      rest := rest - {item};
    }
  }

  /** A subset never has more elements than its superset. */
  lemma {:induction false} SubsetCardinality<T>(x: set<T>, a: set<T>)
    requires x <= a
    ensures |x| <= |a|
    ensures |x| == |a| ==> x == a
  {
    assert a == x + (a - x);
    assert |a| == |x| + |a - x|;
    if |x| == |a| {
      assert |a - x| == 0;
      assert a - x == {};
    }
  }

  /** The intersection lies inside both arguments, so it is no larger than the smaller one. */
  lemma CommonWithin<T>(a: set<T>, b: set<T>)
    ensures Common(a, b) <= a && Common(a, b) <= b
    ensures |Common(a, b)| <= |a| && |Common(a, b)| <= |b|
  {
    SubsetCardinality(Common(a, b), a);
    SubsetCardinality(Common(a, b), b);
  }

  /** Swapping the arguments yields the same items. */
  lemma CommonCommutative<T>(a: set<T>, b: set<T>)
    ensures Common(a, b) == Common(b, a)
  {
  }

  /** Grouping does not matter when three sets are intersected. */
  lemma CommonAssociative<T>(a: set<T>, b: set<T>, c: set<T>)
    ensures Common(Common(a, b), c) == Common(a, Common(b, c))
  {
  }

  /** Intersecting a set with itself gives back its content. */
  lemma CommonIdempotent<T>(a: set<T>)
    ensures Common(a, a) == a
  {
  }

  /** The result is empty exactly when the arguments share nothing; this is a value, not an error. */
  lemma CommonEmptyIffDisjoint<T>(a: set<T>, b: set<T>)
    ensures Common(a, b) == {} <==> a !! b
  {
    if Common(a, b) == {} {
      forall x | x in a
        ensures x !in b
      {
        assert x !in Common(a, b);
      }
    }
  }

  function Abs(x: int): (r: nat)
    ensures r == x || r == -x
  {
    if x < 0 then -x else x
  }

  function Min(x: int, y: int): (r: int)
    ensures r <= x && r <= y && (r == x || r == y)
  {
    if x <= y then x else y
  }

  /** The sizes differ by exactly one and the intersection is as large as the smaller set. */
  predicate AreNeighbors<T>(set1: set<T>, set2: set<T>)
  {
    Abs(|set1| - |set2|) == 1 && |Common(set1, set2)| == Min(|set1|, |set2|)
  }

  /** Two sets are neighbours exactly when one is a strict subset of the other
      and the larger has one element more. */
  lemma {:induction false} NeighborsIffOneElementGap<T>(a: set<T>, b: set<T>)
    ensures AreNeighbors(a, b) <==>
              (a < b && |b| == |a| + 1) || (b < a && |a| == |b| + 1)
  {
    CommonWithin(a, b);
    var c := Common(a, b);
    if |a| <= |b| {
      SubsetCardinality(c, a);
      if b <= a {
        SubsetCardinality(b, a);
      }
      if a < b {
        assert c == a;
      }
      if |c| == |a| {
        assert c == a;
      }
    } else {
      SubsetCardinality(c, b);
      if a <= b {
        SubsetCardinality(a, b);
      }
      if b < a {
        assert c == b;
      }
      if |c| == |b| {
        assert c == b;
      }
    }
  }

  /** Being neighbours does not depend on the order of the arguments. */
  lemma NeighborsSymmetric<T>(a: set<T>, b: set<T>)
    ensures AreNeighbors(a, b) == AreNeighbors(b, a)
  {
    CommonCommutative(a, b);
  }

  /** Two sets of the same size are never neighbours. */
  lemma EqualSizesNotNeighbors<T>(a: set<T>, b: set<T>)
    requires |a| == |b|
    ensures !AreNeighbors(a, b)
  {
  }
}
