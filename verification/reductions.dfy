/** The three order-preserving reductions `extendFirstCandidate` applies to
    the occurrence list of the popped code before extending it
    (aadage.cpp 1214-1231, 1233-1259, 1261-1304). */
module Reductions {
  import opened IntSets
  import opened Codes
  import opened Canonical
  import opened Embeddings
  import opened Options

  /** `xs` is `ys` with some elements left out, in the same order. */
  predicate IsSubsequence(xs: seq<Embedding>, ys: seq<Embedding>)
    decreases |ys|
  {
    if |xs| == 0 then true
    else if |ys| == 0 then false
    else if xs[|xs| - 1] == ys[|ys| - 1] then IsSubsequence(xs[..|xs| - 1], ys[..|ys| - 1])
    else IsSubsequence(xs, ys[..|ys| - 1])
  }

  /** Leaving out the last element of a subsequence keeps it a subsequence. */
  lemma {:induction false} SubsequenceDropLast(xs: seq<Embedding>, ys: seq<Embedding>)
    requires IsSubsequence(xs, ys) && |xs| > 0
    ensures IsSubsequence(xs[..|xs| - 1], ys)
    decreases |ys|, 0
  {
    var xs' := xs[..|xs| - 1];
    if |xs'| > 0 && |ys| > 0 {
      if xs[|xs| - 1] == ys[|ys| - 1] {
        // xs' is a subsequence of ys[..|ys| - 1]
        SubsequenceWeaken(xs', ys[..|ys| - 1], ys[|ys| - 1]);
        assert ys[..|ys| - 1] + [ys[|ys| - 1]] == ys;
      } else {
        SubsequenceDropLast(xs, ys[..|ys| - 1]);
        SubsequenceWeaken(xs', ys[..|ys| - 1], ys[|ys| - 1]);
        assert ys[..|ys| - 1] + [ys[|ys| - 1]] == ys;
      }
    }
  }

  /** A subsequence stays one when the original grows at the end. */
  lemma {:induction false} SubsequenceWeaken(xs: seq<Embedding>, ys: seq<Embedding>, y: Embedding)
    requires IsSubsequence(xs, ys)
    ensures IsSubsequence(xs, ys + [y])
    decreases |ys|, 1
  {
    assert (ys + [y])[..|ys|] == ys;
    if |xs| > 0 && xs[|xs| - 1] == y {
      SubsequenceDropLast(xs, ys);
    }
  }

  lemma {:induction false} SubsequenceExtend(xs: seq<Embedding>, ys: seq<Embedding>, y: Embedding)
    requires IsSubsequence(xs, ys)
    ensures IsSubsequence(xs, ys + [y])
    ensures IsSubsequence(xs + [y], ys + [y])
  {
    assert (ys + [y])[..|ys|] == ys;
    assert (xs + [y])[..|xs|] == xs;
    SubsequenceWeaken(xs, ys, y);
  }

  /** Every element of a subsequence is an element of the original. */
  lemma {:induction false} SubsequenceMembers(xs: seq<Embedding>, ys: seq<Embedding>, x: Embedding)
    requires IsSubsequence(xs, ys) && x in xs
    ensures x in ys
    decreases |ys|
  {
    if xs[|xs| - 1] == ys[|ys| - 1] {
      if x != xs[|xs| - 1] {
        assert x in xs[..|xs| - 1];
        SubsequenceMembers(xs[..|xs| - 1], ys[..|ys| - 1], x);
      }
    } else {
      SubsequenceMembers(xs, ys[..|ys| - 1], x);
    }
  }

  /** Some element of `xs` has key `k`. */
  predicate KeySeen<K(==)>(xs: seq<Embedding>, key: Embedding -> K, k: K) {
    exists j :: 0 <= j < |xs| && key(xs[j]) == k
  }

  /** Reference for a key-based reduction: an element is kept exactly when
      no earlier element has the same key. */
  function KeepFirst<K(==)>(xs: seq<Embedding>, key: Embedding -> K): seq<Embedding>
    decreases |xs|
  {
    if |xs| == 0 then []
    else
      var front := xs[..|xs| - 1];
      var x := xs[|xs| - 1];
      if KeySeen(front, key, key(x)) then KeepFirst(front, key) else KeepFirst(front, key) + [x]
  }

  /** No two elements of `xs` share a key. */
  predicate DistinctKeys<K(==)>(xs: seq<Embedding>, key: Embedding -> K) {
    forall i, j :: 0 <= i < j < |xs| ==> key(xs[i]) != key(xs[j])
  }

  /** The keys seen after appending `x`. */
  lemma KeySeenSnoc<K>(xs: seq<Embedding>, x: Embedding, key: Embedding -> K, k: K)
    ensures KeySeen(xs + [x], key, k) <==> KeySeen(xs, key, k) || key(x) == k
  {
    var ys := xs + [x];
    if KeySeen(ys, key, k) {
      var j :| 0 <= j < |ys| && key(ys[j]) == k;
      if j < |xs| {
        assert xs[j] == ys[j];
      }
    }
    if KeySeen(xs, key, k) {
      var j :| 0 <= j < |xs| && key(xs[j]) == k;
      assert ys[j] == xs[j];
    }
    assert ys[|xs|] == x;
  }

  /** Appending an element whose key is new keeps the keys distinct. */
  lemma DistinctSnoc<K>(xs: seq<Embedding>, x: Embedding, key: Embedding -> K)
    requires DistinctKeys(xs, key) && !KeySeen(xs, key, key(x))
    ensures DistinctKeys(xs + [x], key)
  {
    var ys := xs + [x];
    forall i, j | 0 <= i < j < |ys|
      ensures key(ys[i]) != key(ys[j])
    {
      assert ys[i] == xs[i];
      if j == |xs| {
        assert KeySeen(xs, key, key(xs[i]));
      } else {
        assert ys[j] == xs[j];
      }
    }
  }

  /** The reduction keeps the order, keeps one element per key and loses no
      key. */
  lemma {:induction false} KeepFirstProperties<K>(xs: seq<Embedding>, key: Embedding -> K)
    ensures IsSubsequence(KeepFirst(xs, key), xs)
    ensures DistinctKeys(KeepFirst(xs, key), key)
    ensures forall k :: KeySeen(KeepFirst(xs, key), key, k) <==> KeySeen(xs, key, k)
    decreases |xs|
  {
    if |xs| > 0 {
      var front := xs[..|xs| - 1];
      var x := xs[|xs| - 1];
      var r0 := KeepFirst(front, key);
      KeepFirstProperties(front, key);
      assert front + [x] == xs;
      SubsequenceExtend(r0, front, x);
      forall k
        ensures KeySeen(xs, key, k) <==> KeySeen(front, key, k) || key(x) == k
      {
        KeySeenSnoc(front, x, key, k);
      }
      if !KeySeen(front, key, key(x)) {
        forall k
          ensures KeySeen(r0 + [x], key, k) <==> KeySeen(r0, key, k) || key(x) == k
        {
          KeySeenSnoc(r0, x, key, k);
        }
        DistinctSnoc(r0, x, key);
      }
    }
  }

  /** The loop shared by the key-based reductions: a set of keys already
      met decides, element by element, whether to keep. */
  method DedupeFirst<K(==)>(xs: seq<Embedding>, key: Embedding -> K) returns (r: seq<Embedding>)
    ensures r == KeepFirst(xs, key)
  {
    var seen: set<K> := {};
    r := [];
    var i := 0;
    while i < |xs|
      invariant 0 <= i <= |xs|
      invariant r == KeepFirst(xs[..i], key)
      invariant forall k :: k in seen <==> KeySeen(xs[..i], key, k)
    {
      var front := xs[..i];
      var x := xs[i];
      assert xs[..i + 1][..i] == front && xs[..i + 1][i] == x;
      forall k
        ensures KeySeen(xs[..i + 1], key, k) <==> KeySeen(front, key, k) || key(x) == k
      {
        if KeySeen(xs[..i + 1], key, k) {
          var j :| 0 <= j < i + 1 && key(xs[..i + 1][j]) == k;
          if j < i {
            assert xs[..i + 1][j] == front[j];
          }
        }
        if KeySeen(front, key, k) {
          var j :| 0 <= j < i && key(front[j]) == k;
          assert xs[..i + 1][j] == front[j];
        }
      }
      assert KeepFirst(xs[..i + 1], key) ==
        if KeySeen(front, key, key(x)) then KeepFirst(front, key) else KeepFirst(front, key) + [x];
      if key(x) !in seen {
        seen := seen + {key(x)};
        r := r + [x];
      }
      i := i + 1;
    }
    assert xs[..|xs|] == xs;
  }

  /** The key of the automorph reduction: the set of matched nodes. The
      graph id is not part of it. */
  function NodeSet(e: Embedding): set<int> {
    Elems(e.path)
  }

  /** Reduction at aadage.cpp 1214-1231: one occurrence per node set. */
  method ReduceAutomorphs(values: seq<Embedding>) returns (r: seq<Embedding>)
    ensures r == KeepFirst(values, NodeSet)
    ensures IsSubsequence(r, values)
    ensures forall i, j :: 0 <= i < j < |r| ==> NodeSet(r[i]) != NodeSet(r[j])
    ensures forall k :: KeySeen(r, NodeSet, k) <==> KeySeen(values, NodeSet, k)
  {
    r := DedupeFirst(values, NodeSet);
    KeepFirstProperties(values, NodeSet);
  }

  /** The nodes matched before the last step. An empty path (which the
      engine never holds) has none. */
  function PrefixSet(e: Embedding): set<int> {
    if |e.path| == 0 then {} else Elems(e.path[..|e.path| - 1])
  }

  /** The node matched at the last step; an empty path gives -1, which names
      no node. */
  function LastNode(e: Embedding): int {
    if |e.path| == 0 then -1 else e.path[|e.path| - 1]
  }

  /** Some kept occurrence has prefix node set `s`. */
  predicate HasPrefix(kept: seq<Embedding>, s: set<int>) {
    exists j :: 0 <= j < |kept| && PrefixSet(kept[j]) == s
  }

  /** Some kept occurrence ends at node `n`. */
  predicate HasLast(kept: seq<Embedding>, n: int) {
    exists j :: 0 <= j < |kept| && LastNode(kept[j]) == n
  }

  /** Both the prefix node set and the last node of `x` already occur among
      the kept occurrences (not necessarily in the same one). */
  predicate Covered(kept: seq<Embedding>, x: Embedding) {
    HasPrefix(kept, PrefixSet(x)) && HasLast(kept, LastNode(x))
  }

  /** Keeping one more occurrence adds exactly its prefix set and last node. */
  lemma KeptGrows(kept: seq<Embedding>, x: Embedding)
    ensures forall s :: HasPrefix(kept + [x], s) <==> HasPrefix(kept, s) || s == PrefixSet(x)
    ensures forall n :: HasLast(kept + [x], n) <==> HasLast(kept, n) || n == LastNode(x)
  {
    var r := kept + [x];
    assert forall j :: 0 <= j < |kept| ==> r[j] == kept[j];
    assert r[|kept|] == x;
  }

  /** Reference for the reduction at aadage.cpp 1233-1259. */
  function KeepUncovered(xs: seq<Embedding>): seq<Embedding>
    decreases |xs|
  {
    if |xs| == 0 then []
    else
      var kept := KeepUncovered(xs[..|xs| - 1]);
      var x := xs[|xs| - 1];
      if Covered(kept, x) then kept else kept + [x]
  }

  /** Covering by a longer kept list. */
  lemma CoveredExtend(kept: seq<Embedding>, y: Embedding, x: Embedding)
    requires Covered(kept, x)
    ensures Covered(kept + [y], x)
  {
    KeptGrows(kept, y);
  }

  /** The reduction keeps the order, and every occurrence it drops is
      covered by the occurrences it keeps. */
  lemma {:induction false} KeepUncoveredProperties(xs: seq<Embedding>)
    ensures IsSubsequence(KeepUncovered(xs), xs)
    ensures forall i :: 0 <= i < |xs| ==> xs[i] in KeepUncovered(xs) || Covered(KeepUncovered(xs), xs[i])
    decreases |xs|
  {
    if |xs| > 0 {
      var front := xs[..|xs| - 1];
      var x := xs[|xs| - 1];
      var kept := KeepUncovered(front);
      KeepUncoveredProperties(front);
      assert front + [x] == xs;
      SubsequenceExtend(kept, front, x);
      var r := KeepUncovered(xs);
      forall i | 0 <= i < |xs|
        ensures xs[i] in r || Covered(r, xs[i])
      {
        if i < |front| {
          assert xs[i] == front[i];
          if !Covered(kept, x) {
            if Covered(kept, front[i]) {
              CoveredExtend(kept, x, front[i]);
            } else {
              assert front[i] in kept;
            }
          }
        } else if !Covered(kept, x) {
          assert r[|kept|] == x;
        }
      }
    }
  }

  /** The reduction at aadage.cpp 1233-1259, with its two sets of seen
      prefix node sets and last nodes. */
  method ReduceSiblings(values: seq<Embedding>) returns (r: seq<Embedding>)
    ensures r == KeepUncovered(values)
    ensures IsSubsequence(r, values)
    ensures forall i :: 0 <= i < |values| ==> values[i] in r || Covered(r, values[i])
  {
    var prefixes: set<set<int>> := {};
    var lasts: set<int> := {};
    r := [];
    var i := 0;
    while i < |values|
      invariant 0 <= i <= |values|
      invariant r == KeepUncovered(values[..i])
      invariant forall s :: s in prefixes <==> HasPrefix(r, s)
      invariant forall n :: n in lasts <==> HasLast(r, n)
    {
      var x := values[i];
      assert values[..i + 1][..i] == values[..i] && values[..i + 1][i] == x;
      if !(PrefixSet(x) in prefixes && LastNode(x) in lasts) {
        KeptGrows(r, x);
        prefixes := prefixes + {PrefixSet(x)};
        lasts := lasts + {LastNode(x)};
        r := r + [x];
      }
      i := i + 1;
    }
    assert values[..|values|] == values;
    KeepUncoveredProperties(values);
  }

  /** No step of the code is a back-edge or has an empty label set (a
      negative least label). */
  predicate NoBackEdges(code: Code) {
    forall k :: 0 <= k < |code| ==> Lead(code[k]) >= 0
  }

  /** The subtree from step `p` on is free of back-edges and canonical
      with every sibling comparison tied. */
  predicate IsFrozen(code: Code, p: int) {
    0 <= p <= |code| && NoBackEdges(code[p..]) && IsCanonical(code[p..]) == 0
  }

  /** The rightmost-path position, strictly between the root and the last
      step, of the first frozen subtree from the top, if any. */
  function FrozenSubtree(code: Code): (r: Option<int>)
    ensures var rp := RightmostPath(code);
      r.Some? ==> exists i :: FirstFrozen(code, rp, 1, i) && rp[i] == r.value
    ensures var rp := RightmostPath(code);
      r.None? ==> forall i :: 1 <= i < |rp| - 1 ==> !IsFrozen(code, rp[i])
  {
    var rp := RightmostPath(code);
    var j := FrozenFrom(code, rp, 1);
    if j.Some? then Some(rp[j.value]) else None
  }

  /** Position `j` of the rightmost path `rp` is the first frozen one from `i` on. */
  predicate FirstFrozen(code: Code, rp: seq<int>, i: nat, j: int) {
    i <= j < |rp| - 1 && IsFrozen(code, rp[j]) && forall k :: i <= k < j ==> !IsFrozen(code, rp[k])
  }

  /** The index into `rp` of the first frozen position from `i` on, as the
      original's loop finds it before its `break`. */
  function FrozenFrom(code: Code, rp: seq<int>, i: nat): (r: Option<nat>)
    ensures r.Some? ==> FirstFrozen(code, rp, i, r.value)
    ensures r.None? ==> forall j :: i <= j < |rp| - 1 ==> !IsFrozen(code, rp[j])
    decreases |rp| - i
  {
    if i + 1 >= |rp| then None
    else if IsFrozen(code, rp[i]) then Some(i)
    else FrozenFrom(code, rp, i + 1)
  }

  /** The key of the reduction at aadage.cpp 1261-1304 at position `p`: the
      nodes matched before `p`, in order, and the set of the nodes matched
      from `p` on. */
  function SubtreeKey(e: Embedding, p: nat): (seq<int>, set<int>) {
    var q := if p <= |e.path| then p else |e.path|;
    (e.path[..q], Elems(e.path[q..]))
  }

  /** The reduction at aadage.cpp 1261-1304: when a subtree hanging from the
      rightmost path is frozen, occurrences that differ only in how they
      match that subtree's node set collapse to the first. */
  method ReduceFrozenSubtree(code: Code, values: seq<Embedding>) returns (r: seq<Embedding>)
    ensures FrozenSubtree(code).None? ==> r == values
    ensures FrozenSubtree(code).Some? ==> var p := FrozenSubtree(code).value;
      r == KeepFirst(values, e => SubtreeKey(e, p))
    ensures IsSubsequence(r, values)
  {
    var frozen := FrozenSubtree(code);
    if frozen.None? {
      SubsequenceRefl(values);
      return values;
    }
    var p := frozen.value;
    var key := e => SubtreeKey(e, p);
    r := DedupeFirst(values, key);
    KeepFirstProperties(values, key);
  }

  /** A subsequence of a subsequence is a subsequence. */
  lemma {:induction false} SubsequenceTrans(a: seq<Embedding>, b: seq<Embedding>, c: seq<Embedding>)
    requires IsSubsequence(a, b) && IsSubsequence(b, c)
    ensures IsSubsequence(a, c)
    decreases |c|
  {
    if |a| > 0 && |b| > 0 && |c| > 0 {
      var a', b', c' := a[..|a| - 1], b[..|b| - 1], c[..|c| - 1];
      if b[|b| - 1] == c[|c| - 1] {
        if a[|a| - 1] == b[|b| - 1] {
          SubsequenceTrans(a', b', c');
        } else {
          SubsequenceTrans(a, b', c');
        }
      } else {
        SubsequenceTrans(a, b, c');
        if a[|a| - 1] == c[|c| - 1] {
          SubsequenceDropLast(a, c');
        }
      }
    }
  }

  lemma {:induction false} SubsequenceRefl(xs: seq<Embedding>)
    ensures IsSubsequence(xs, xs)
    decreases |xs|
  {
    if |xs| > 0 {
      SubsequenceRefl(xs[..|xs| - 1]);
    }
  }
}
