/** Warnsdorff ordering of the candidate cells: a stable sort by onward degree,
    so that cells with fewer onward moves come first and cells of equal degree
    keep the order in which the moves enumerated them. */
module DegreeOrder {
  import opened Board

  predicate SortedByDegree(s: seq<Neighbor>) {
    forall i, j :: 0 <= i < j < |s| ==> s[i].degree <= s[j].degree
  }

  /** The entries of `s` whose degree is `d`, in their order in `s`. */
  function WithDegree(s: seq<Neighbor>, d: int): (t: seq<Neighbor>)
    ensures |t| <= |s|
    ensures forall j :: 0 <= j < |t| ==> t[j].degree == d
  {
    if s == [] then []
    else WithDegree(s[..|s| - 1], d) + (if s[|s| - 1].degree == d then [s[|s| - 1]] else [])
  }

  /** `t` is what a stable sort by degree makes of `s`: sorted, with each degree
      class in its order in `s`. */
  ghost predicate StablySortedFrom(t: seq<Neighbor>, s: seq<Neighbor>) {
    SortedByDegree(t) && forall d :: WithDegree(t, d) == WithDegree(s, d)
  }

  lemma {:induction false} WithDegreeAppend(a: seq<Neighbor>, b: seq<Neighbor>, d: int)
    ensures WithDegree(a + b, d) == WithDegree(a, d) + WithDegree(b, d)
  {
    if b == [] {
      assert a + b == a;
    } else {
      WithDegreeAppend(a, b[..|b| - 1], d);
      assert (a + b)[..|a + b| - 1] == a + b[..|b| - 1];
    }
  }

  lemma {:induction false} WithDegreeNone(s: seq<Neighbor>, d: int)
    requires forall j :: 0 <= j < |s| ==> s[j].degree != d
    ensures WithDegree(s, d) == []
  {
    if s != [] {
      WithDegreeNone(s[..|s| - 1], d);
    }
  }

  /** Inserting `x` after every entry of degree at most its own and before every
      entry of larger degree adds it at the end of its degree class. */
  lemma InsertAfterEqual(t: seq<Neighbor>, p: int, x: Neighbor, d: int)
    requires 0 <= p <= |t|
    requires forall j :: p <= j < |t| ==> t[j].degree > x.degree
    ensures WithDegree(t[..p] + [x] + t[p..], d) == WithDegree(t, d) + (if x.degree == d then [x] else [])
  {
    var a, b := t[..p], t[p..];
    WithDegreeAppend(a + [x], b, d);
    WithDegreeAppend(a, [x], d);
    WithDegreeAppend(a, b, d);
    assert a + b == t;
    assert WithDegree([x], d) == (if x.degree == d then [x] else []) by {
      assert [x][..0] == [];
    }
    if x.degree == d {
      WithDegreeNone(b, d);
      assert WithDegree(a + [x] + b, d) == WithDegree(a, d) + [x] + [];
      assert WithDegree(t, d) == WithDegree(a, d) + [];
    } else {
      assert WithDegree(a + [x] + b, d) == WithDegree(a, d) + [] + WithDegree(b, d);
    }
  }

  /** The last entry of a non-empty sequence is the last entry of its degree class. */
  lemma LastOfClass(s: seq<Neighbor>)
    requires s != []
    ensures WithDegree(s, s[|s| - 1].degree) == WithDegree(s[..|s| - 1], s[|s| - 1].degree) + [s[|s| - 1]]
  {
  }

  /** In a sequence sorted by degree no entry has a degree above the last one's. */
  lemma {:induction false} ClassBelowLast(s: seq<Neighbor>, d: int)
    requires SortedByDegree(s)
    requires WithDegree(s, d) != []
    ensures d <= s[|s| - 1].degree
  {
    if s[|s| - 1].degree != d {
      assert WithDegree(s, d) == WithDegree(s[..|s| - 1], d) + [];
      ClassBelowLast(s[..|s| - 1], d);
    }
  }

  /** A stable sort by degree has exactly one possible result: two sequences sorted
      by degree whose degree classes agree are equal. So any stable sort of the
      candidates, whatever its algorithm, orders them as SortByDegree does. */
  lemma {:induction false} StableSortUnique(t1: seq<Neighbor>, t2: seq<Neighbor>)
    requires SortedByDegree(t1) && SortedByDegree(t2)
    requires forall d :: WithDegree(t1, d) == WithDegree(t2, d)
    ensures t1 == t2
    decreases |t1| + |t2|
  {
    if t1 == [] || t2 == [] {
      // A non-empty sequence has a non-empty class (that of its last entry),
      // so neither can be empty without the other.
      if t1 != [] {
        LastOfClass(t1);
        assert false;
      }
      if t2 != [] {
        LastOfClass(t2);
        assert false;
      }
    } else {
      var x1, x2 := t1[|t1| - 1], t2[|t2| - 1];
      var u1, u2 := t1[..|t1| - 1], t2[..|t2| - 1];
      LastOfClass(t1);
      LastOfClass(t2);
      // The largest degrees agree: each last entry's class is non-empty in the other sequence.
      ClassBelowLast(t2, x1.degree);
      ClassBelowLast(t1, x2.degree);
      assert x1.degree == x2.degree;
      var c1, c2 := WithDegree(t1, x1.degree), WithDegree(t2, x1.degree);
      assert c1 == c2;
      assert c1[|c1| - 1] == x1 && c2[|c2| - 1] == x2;
      assert x1 == x2;
      forall d
        ensures WithDegree(u1, d) == WithDegree(u2, d)
      {
        assert WithDegree(t1, d) == WithDegree(t2, d);
        if d == x1.degree {
          var a, b := WithDegree(u1, d), WithDegree(u2, d);
          assert WithDegree(t1, d) == a + [x1];
          assert WithDegree(t2, d) == b + [x2];
          assert a + [x1] == b + [x1];
          assert |a| == |b|;
          assert a == (a + [x1])[..|a|];
          assert b == (b + [x1])[..|b|];
          assert a == b;
        } else {
          assert WithDegree(t1, d) == WithDegree(u1, d) + [];
          assert WithDegree(t2, d) == WithDegree(u2, d) + [];
          assert WithDegree(u1, d) + [] == WithDegree(u1, d);
          assert WithDegree(u2, d) + [] == WithDegree(u2, d);
        }
      }
      StableSortUnique(u1, u2);
    }
  }

  /** Placing `x` between the entries of degree at most its own and those of larger
      degree keeps the sequence sorted. */
  lemma InsertSorted(t: seq<Neighbor>, p: int, x: Neighbor)
    requires SortedByDegree(t)
    requires 0 <= p <= |t|
    requires forall j :: 0 <= j < p ==> t[j].degree <= x.degree
    requires forall j :: p <= j < |t| ==> t[j].degree > x.degree
    ensures SortedByDegree(t[..p] + [x] + t[p..])
  {
    var u := t[..p] + [x] + t[p..];
    assert forall i :: 0 <= i < |u| ==> u[i] == if i < p then t[i] else if i == p then x else t[i - 1];
  }

  lemma InsertMultiset(t: seq<Neighbor>, p: int, x: Neighbor)
    requires 0 <= p <= |t|
    ensures multiset(t[..p] + [x] + t[p..]) == multiset(t) + multiset{x}
  {
    assert t[..p] + t[p..] == t;
  }

  /** One step of insertion sort: `x`, the next entry of `s`, placed after every
      entry of degree at most its own, joins the end of its class. */
  lemma InsertStep(s: seq<Neighbor>, i: int, t: seq<Neighbor>, p: int)
    requires 0 <= i < |s| && 0 <= p <= |t|
    requires forall d :: WithDegree(t, d) == WithDegree(s[..i], d)
    requires forall j :: p <= j < |t| ==> t[j].degree > s[i].degree
    ensures forall d :: WithDegree(t[..p] + [s[i]] + t[p..], d) == WithDegree(s[..i + 1], d)
  {
    forall d
      ensures WithDegree(t[..p] + [s[i]] + t[p..], d) == WithDegree(s[..i + 1], d)
    {
      InsertAfterEqual(t, p, s[i], d);
      assert s[..i + 1][..i] == s[..i];
    }
  }

  /** The first position in `t` holding a larger degree than `x`'s. */
  method InsertionPoint(t: seq<Neighbor>, x: Neighbor) returns (p: int)
    requires SortedByDegree(t)
    ensures 0 <= p <= |t|
    ensures forall j :: 0 <= j < p ==> t[j].degree <= x.degree
    ensures forall j :: p <= j < |t| ==> t[j].degree > x.degree
  {
    p := 0;
    while p < |t| && t[p].degree <= x.degree
      invariant 0 <= p <= |t|
      invariant forall j :: 0 <= j < p ==> t[j].degree <= x.degree
    {
      p := p + 1;
    }
  }

  /** The first position in `t` holding a larger degree than `x`'s; in a sequence
      sorted by degree every later entry has a larger degree too. */
  function FirstAbove(t: seq<Neighbor>, x: Neighbor): (p: int)
    ensures 0 <= p <= |t|
    ensures forall j :: 0 <= j < p ==> t[j].degree <= x.degree
    ensures SortedByDegree(t) ==> forall j :: p <= j < |t| ==> t[j].degree > x.degree
  {
    if t == [] || t[0].degree > x.degree then 0 else 1 + FirstAbove(t[1..], x)
  }

  /** The stable sort by degree, as a function: each entry of `s` in turn is placed
      after every entry already placed whose degree is at most its own. */
  function StableSort(s: seq<Neighbor>): seq<Neighbor>
  {
    if s == [] then []
    else
      var t := StableSort(s[..|s| - 1]);
      var p := FirstAbove(t, s[|s| - 1]);
      t[..p] + [s[|s| - 1]] + t[p..]
  }

  /** StableSort is a stable sort by degree and a permutation of its input. */
  lemma {:induction false} StableSortSpec(s: seq<Neighbor>)
    ensures StablySortedFrom(StableSort(s), s)
    ensures multiset(StableSort(s)) == multiset(s)
    ensures forall x :: x in StableSort(s) <==> x in s
  {
    if s != [] {
      var i := |s| - 1;
      StableSortSpec(s[..i]);
      var t := StableSort(s[..i]);
      var p := FirstAbove(t, s[i]);
      InsertSorted(t, p, s[i]);
      InsertStep(s, i, t, p);
      InsertMultiset(t, p, s[i]);
      assert s[..i + 1] == s;
      assert s == s[..i] + [s[i]];
      assert multiset(StableSort(s)) == multiset(s);
      forall x
        ensures x in StableSort(s) <==> x in s
      {
        assert x in StableSort(s) <==> x in multiset(StableSort(s));
        assert x in s <==> x in multiset(s);
      }
    }
  }

  /** `List.sort` with a comparator on the degree: a stable sort, here by insertion.
      Whatever the algorithm, a stable sort yields StableSort's order. */
  method SortByDegree(s: seq<Neighbor>) returns (t: seq<Neighbor>)
    ensures t == StableSort(s)
    ensures SortedByDegree(t)
    ensures multiset(t) == multiset(s)
    ensures forall d :: WithDegree(t, d) == WithDegree(s, d)
  {
    t := [];
    for i := 0 to |s|
      invariant SortedByDegree(t)
      invariant multiset(t) == multiset(s[..i])
      invariant forall d :: WithDegree(t, d) == WithDegree(s[..i], d)
    {
      var p := InsertionPoint(t, s[i]);
      InsertSorted(t, p, s[i]);
      InsertStep(s, i, t, p);
      InsertMultiset(t, p, s[i]);
      assert s[..i + 1] == s[..i] + [s[i]];
      t := t[..p] + [s[i]] + t[p..];
    }
    assert s[..|s|] == s;
    StableSortSpec(s);
    StableSortUnique(t, StableSort(s));
  }
}
