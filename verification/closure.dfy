/** The closure bookkeeping of the accepted store: the counts a code
    inherits from the accepted codes that include it, and the marking of
    the codes a new one subsumes (aadage.cpp 1008-1093). */
module Closure {
  import opened Codes
  import opened Store

  function Max(a: int, b: int): (r: int)
    ensures r >= a && r >= b && (r == a || r == b)
  {
    if a >= b then a else b
  }

  /** The accepted code `k` includes `l` item by item (the test of
      `getInheritedCount`). */
  predicate ItemSuper(l: Code, k: Code) {
    IsSubSequence(l, k)
  }

  /** Deleting one step of `k` gives `l`. */
  predicate DeletionOf(l: Code, k: Code) {
    exists i :: 0 <= i < |k| && DeleteStep(k, i) == l
  }

  /** The accepted code `k` includes `l` as a structure with one step more
      (the test of `getInheritedCountStructural`, which skips one-step
      codes). */
  predicate StructSuper(l: Code, k: Code) {
    |k| != 1 && DeletionOf(l, k)
  }

  /** The pair of maxima over the accepted records whose code passes
      `test`, each starting from the value-initialised 0. */
  predicate IsMaxCounts(accepted: map<Code, CandidateInfo>, test: Code -> bool, r: (int, int)) {
    && r.0 >= 0 && r.1 >= 0
    && (forall k :: k in accepted && test(k) ==>
          accepted[k].perTreeFrequency <= r.0 && accepted[k].nbOccurences <= r.1)
    && (r.0 == 0 || exists k :: k in accepted && test(k) && accepted[k].perTreeFrequency == r.0)
    && (r.1 == 0 || exists k :: k in accepted && test(k) && accepted[k].nbOccurences == r.1)
  }

  /** The two maxima are determined by the records alone, whatever order the
      map is walked in. */
  lemma MaxCountsUnique(accepted: map<Code, CandidateInfo>, test: Code -> bool, r: (int, int), s: (int, int))
    requires IsMaxCounts(accepted, test, r) && IsMaxCounts(accepted, test, s)
    ensures r == s
  {
  }

  /** The loop shared by both lookups: one pass over the accepted map. */
  method MaxCounts(accepted: map<Code, CandidateInfo>, test: Code -> bool) returns (r: (int, int))
    ensures IsMaxCounts(accepted, test, r)
  {
    var remaining := accepted.Keys;
    r := (0, 0);
    while remaining != {}
      invariant remaining <= accepted.Keys
      invariant r.0 >= 0 && r.1 >= 0
      invariant forall k :: k in accepted && k !in remaining && test(k) ==>
        accepted[k].perTreeFrequency <= r.0 && accepted[k].nbOccurences <= r.1
      invariant r.0 == 0 || exists k :: k in accepted && test(k) && accepted[k].perTreeFrequency == r.0
      invariant r.1 == 0 || exists k :: k in accepted && test(k) && accepted[k].nbOccurences == r.1
      decreases |remaining|
    {
      var k :| k in remaining;
      if test(k) {
        r := (Max(r.0, accepted[k].perTreeFrequency), Max(r.1, accepted[k].nbOccurences));
      }
      remaining := remaining - {k};
    }
  }

  /** `getInheritedCount(label)`: the largest support and the largest
      occurrence count among the accepted codes that include `label` item by
      item; (0, 0) when there is none. */
  method GetInheritedCount(c: Candidates, l: Code) returns (r: (int, int))
    ensures r.0 >= 0 && r.1 >= 0
    ensures forall k :: k in c.accepted && ItemSuper(l, k) ==>
      c.accepted[k].perTreeFrequency <= r.0 && c.accepted[k].nbOccurences <= r.1
    ensures r.0 == 0 || exists k :: k in c.accepted && ItemSuper(l, k) && c.accepted[k].perTreeFrequency == r.0
    ensures r.1 == 0 || exists k :: k in c.accepted && ItemSuper(l, k) && c.accepted[k].nbOccurences == r.1
  {
    var test := k => ItemSuper(l, k);
    r := MaxCounts(c.accepted, test);
    assert forall k :: test(k) == ItemSuper(l, k);
  }

  /** `getInheritedCountStructural(label)`: the same maxima over the
      accepted codes of more than one step from which deleting one step
      gives `label`. */
  method GetInheritedCountStructural(c: Candidates, l: Code) returns (r: (int, int))
    ensures r.0 >= 0 && r.1 >= 0
    ensures forall k :: k in c.accepted && StructSuper(l, k) ==>
      c.accepted[k].perTreeFrequency <= r.0 && c.accepted[k].nbOccurences <= r.1
    ensures r.0 == 0 || exists k :: k in c.accepted && StructSuper(l, k) && c.accepted[k].perTreeFrequency == r.0
    ensures r.1 == 0 || exists k :: k in c.accepted && StructSuper(l, k) && c.accepted[k].nbOccurences == r.1
  {
    var test := k => StructSuper(l, k);
    r := MaxCounts(c.accepted, test);
    assert forall k :: test(k) == StructSuper(l, k);
  }

  /** The accepted record of `k` is marked by `markPreviousNonClosedCandidates(label, freq)`. */
  predicate MarkedBy(c: Candidates, l: Code, freq: int, k: Code)
    requires k in c.accepted
  {
    |l| != 1 && DeletionOf(k, l) && c.accepted[k].perTreeFrequency == freq
  }

  /** `markPreviousNonClosedCandidates(label, freq)`: every accepted code
      obtained from `label` by deleting one step, and whose support equals
      `freq`, is marked as subsumed; nothing else changes. A one-step
      `label` marks nothing. */
  function MarkPreviousNonClosed(c: Candidates, l: Code, freq: int): (r: Candidates)
    ensures r.worklist == c.worklist && r.pending == c.pending
    ensures r.accepted.Keys == c.accepted.Keys
    ensures forall k :: k in c.accepted ==>
      r.accepted[k] == if MarkedBy(c, l, freq, k) then c.accepted[k].(isClosed := true) else c.accepted[k]
  {
    if |l| == 1 then c
    else
      var r := MarkFrom(c, l, freq, |l|);
      assert forall k :: DeletedBefore(l, |l|, k) == DeletionOf(k, l);
      r
  }

  /** One of the first `n` deletions of a step of `l` gives `k`. */
  predicate DeletedBefore(l: Code, n: int, k: Code)
    requires n <= |l|
  {
    exists i :: 0 <= i < n && DeleteStep(l, i) == k
  }

  /** The records of `c` after marking the first `n` deletions. */
  predicate MarkedUpTo(c: Candidates, l: Code, freq: int, n: nat, r: Candidates)
    requires n <= |l|
  {
    && r.worklist == c.worklist && r.pending == c.pending
    && r.accepted.Keys == c.accepted.Keys
    && forall k :: k in c.accepted ==>
      r.accepted[k] ==
        if DeletedBefore(l, n, k) && c.accepted[k].perTreeFrequency == freq
        then c.accepted[k].(isClosed := true) else c.accepted[k]
  }

  /** The loop of `markPreviousNonClosedCandidates` over its first `n`
      deletions. */
  function MarkFrom(c: Candidates, l: Code, freq: int, n: nat): (r: Candidates)
    requires n <= |l|
    ensures MarkedUpTo(c, l, freq, n, r)
    decreases n
  {
    if n == 0 then c
    else
      var prev := MarkFrom(c, l, freq, n - 1);
      var d := DeleteStep(l, n - 1);
      var r := if d in prev.accepted && prev.accepted[d].perTreeFrequency == freq then SetClosed(prev, d) else prev;
      MarkStep(c, l, freq, n, prev, r);
      r
  }

  lemma MarkStep(c: Candidates, l: Code, freq: int, n: nat, prev: Candidates, r: Candidates)
    requires 0 < n <= |l|
    requires MarkedUpTo(c, l, freq, n - 1, prev)
    requires var d := DeleteStep(l, n - 1);
      r == if d in prev.accepted && prev.accepted[d].perTreeFrequency == freq then SetClosed(prev, d) else prev
    ensures MarkedUpTo(c, l, freq, n, r)
  {
    var d := DeleteStep(l, n - 1);
    forall k | k in c.accepted
      ensures r.accepted[k] ==
        if DeletedBefore(l, n, k) && c.accepted[k].perTreeFrequency == freq
        then c.accepted[k].(isClosed := true) else c.accepted[k]
    {
      assert DeletedBefore(l, n, k) <==> DeletedBefore(l, n - 1, k) || k == d;
    }
  }
}
