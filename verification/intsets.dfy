/** Finite sets of integers represented the way `std::set<int>` iterates them:
    as strictly increasing sequences. `s[0]` is `begin()`, `s[|s|-1]` is
    `rbegin()`, and iterating the set is walking the sequence left to right. */
module IntSets {

  /** True iff `s` is strictly increasing, i.e. a valid `std::set<int>` image. */
  predicate Sorted(s: seq<int>) {
    forall i, j :: 0 <= i < j < |s| ==> s[i] < s[j]
  }

  /** The elements of a sorted sequence, as a mathematical set. */
  function Elems(s: seq<int>): set<int> {
    set x | x in s
  }

  /** `*s.begin()`: the least element. */
  function Min(s: seq<int>): (m: int)
    requires Sorted(s) && |s| > 0
    ensures m in s && forall x :: x in s ==> m <= x
  {
    s[0]
  }

  /** `*s.rbegin()`: the greatest element. */
  function Max(s: seq<int>): (m: int)
    requires Sorted(s) && |s| > 0
    ensures m in s && forall x :: x in s ==> x <= m
  {
    s[|s| - 1]
  }

  lemma SortedTail(s: seq<int>)
    requires Sorted(s) && |s| > 0
    ensures Sorted(s[1..]) && forall x :: x in s[1..] ==> s[0] < x
  {
  }

  /** Prepending an element below every element keeps a sequence sorted. */
  lemma SortedCons(x: int, t: seq<int>)
    requires Sorted(t) && forall y :: y in t ==> x < y
    ensures Sorted([x] + t)
  {
    var r := [x] + t;
    forall i, j | 0 <= i < j < |r|
      ensures r[i] < r[j]
    {
      if i == 0 {
        assert r[j] == t[j - 1] && t[j - 1] in t;
      } else {
        assert r[i] == t[i - 1] && r[j] == t[j - 1];
      }
    }
  }

  /** Set union, as the merge `std::set::insert(first, last)` produces. */
  function Union(a: seq<int>, b: seq<int>): (r: seq<int>)
    requires Sorted(a) && Sorted(b)
    ensures Sorted(r)
    ensures forall x :: x in r <==> x in a || x in b
    decreases |a| + |b|
  {
    if |a| == 0 then b
    else if |b| == 0 then a
    else if a[0] < b[0] then
      SortedTail(a);
      var t := Union(a[1..], b);
      SortedCons(a[0], t);
      [a[0]] + t
    else if b[0] < a[0] then
      SortedTail(b);
      var t := Union(a, b[1..]);
      SortedCons(b[0], t);
      [b[0]] + t
    else
      SortedTail(a);
      SortedTail(b);
      var t := Union(a[1..], b[1..]);
      SortedCons(a[0], t);
      [a[0]] + t
  }

  /** `s.insert(x)`. */
  function Insert(s: seq<int>, x: int): (r: seq<int>)
    requires Sorted(s)
    ensures Sorted(r)
    ensures forall y :: y in r <==> y in s || y == x
  {
    Union(s, [x])
  }

  /** Inserting an element greater than every present one appends it. */
  lemma {:induction false} InsertAboveMax(s: seq<int>, x: int)
    requires Sorted(s)
    requires forall y :: y in s ==> y < x
    ensures Insert(s, x) == s + [x]
  {
    var r := Insert(s, x);
    var t := s + [x];
    forall i, j | 0 <= i < j < |t|
      ensures t[i] < t[j]
    {
      if j == |s| {
        assert t[i] == s[i] && s[i] in s;
      }
    }
    SortedUnique(r, t);
  }

  lemma HeadIn(s: seq<int>)
    requires |s| > 0
    ensures s[0] in s
  {
  }

  /** Two sorted sequences with the same elements are equal. */
  lemma {:induction false} SortedUnique(a: seq<int>, b: seq<int>)
    requires Sorted(a) && Sorted(b)
    requires forall x :: x in a <==> x in b
    ensures a == b
    decreases |a|
  {
    if |a| == 0 {
      if |b| > 0 {
        HeadIn(b);
        assert false;
      }
    } else {
      assert a[0] in a;
      assert b[0] in b;
      assert a[0] == b[0];
      SortedTail(a);
      SortedTail(b);
      forall x
        ensures x in a[1..] <==> x in b[1..]
      {
        if x in a[1..] {
          assert x in b && x != b[0];
          var k :| 0 <= k < |b| && b[k] == x;
          assert k != 0;
          assert b[k] in b[1..];
        }
        if x in b[1..] {
          assert x in a && x != a[0];
          var k :| 0 <= k < |a| && a[k] == x;
          assert k != 0;
          assert a[k] in a[1..];
        }
      }
      SortedUnique(a[1..], b[1..]);
      assert a == [a[0]] + a[1..];
      assert b == [b[0]] + b[1..];
    }
  }

  /** `std::includes(sup, sub)`: every element of `sub` is in `sup`. */
  predicate Includes(sup: seq<int>, sub: seq<int>) {
    forall x :: x in sub ==> x in sup
  }

  /** The elements of `s` that belong to `keep`, in their original order
      (what erasing the other elements of a `std::set` in place leaves). */
  function Filter(s: seq<int>, keep: set<int>): (r: seq<int>)
    requires Sorted(s)
    ensures Sorted(r)
    ensures forall x :: x in r <==> x in s && x in keep
    ensures |r| <= |s|
  {
    if |s| == 0 then []
    else
      SortedTail(s);
      var t := Filter(s[1..], keep);
      if s[0] in keep then SortedCons(s[0], t); [s[0]] + t else t
  }

  /** `operator<` of `std::set<int>`: lexicographic comparison of the
      ascending element sequences. */
  predicate LexLess(a: seq<int>, b: seq<int>)
    decreases |a|
  {
    if |b| == 0 then false
    else if |a| == 0 then true
    else if a[0] != b[0] then a[0] < b[0]
    else LexLess(a[1..], b[1..])
  }

  lemma {:induction false} LexLessIrreflexive(a: seq<int>)
    ensures !LexLess(a, a)
    decreases |a|
  {
    if |a| > 0 {
      LexLessIrreflexive(a[1..]);
    }
  }

  /** For distinct sequences exactly one direction of `LexLess` holds. */
  lemma {:induction false} LexLessTrichotomy(a: seq<int>, b: seq<int>)
    ensures a != b ==> (LexLess(a, b) <==> !LexLess(b, a))
    ensures a == b ==> !LexLess(a, b)
    decreases |a|
  {
    if a == b {
      LexLessIrreflexive(a);
    } else if |a| > 0 && |b| > 0 && a[0] == b[0] {
      assert a == [a[0]] + a[1..];
      assert b == [b[0]] + b[1..];
      LexLessTrichotomy(a[1..], b[1..]);
    }
  }

  lemma {:induction false} LexLessTransitive(a: seq<int>, b: seq<int>, c: seq<int>)
    requires LexLess(a, b) && LexLess(b, c)
    ensures LexLess(a, c)
    decreases |a|
  {
    if |a| > 0 && a[0] == b[0] && b[0] == c[0] {
      LexLessTransitive(a[1..], b[1..], c[1..]);
    }
  }
}
