/** Pattern codes. A code is the preorder listing of a pattern: each step is
    a label set and the depth of the node below the pattern root. A step whose
    least label is negative is a back-edge: `[-(i+1), 999]` stands for an edge
    to the node matched by step `i`. */
module Codes {
  import opened IntSets

  datatype Step = Step(labels: seq<int>, depth: int)

  type Code = seq<Step>

  /** The second label of every back-edge step. */
  const Marker: int := 999

  /** `*labels.begin()`. On an empty set, which no code the engine builds
      contains, the original reads undefined memory; the model reads 0. */
  function Lead(s: Step): int {
    if |s.labels| > 0 then s.labels[0] else 0
  }

  predicate IsBackEdge(s: Step) {
    Lead(s) < 0
  }

  /** The back-edge step to the node matched at index `i`. */
  function BackEdgeStep(i: nat, depth: int): (s: Step)
    ensures Sorted(s.labels) && IsBackEdge(s) && s.depth == depth
  {
    Step([-(i + 1), Marker], depth)
  }

  /** The index a back-edge step refers to: `-*begin() - 1`. */
  function Target(s: Step): int {
    -Lead(s) - 1
  }

  /** Decoding an encoded back-edge gives back the path index. */
  lemma BackEdgeRoundTrip(i: nat, depth: int)
    ensures Target(BackEdgeStep(i, depth)) == i
    ensures Lead(BackEdgeStep(i, depth)) == -1 <==> i == 0
  {
  }

  /** Every step label set is a non-empty set. */
  predicate WfSteps(c: Code) {
    forall k :: 0 <= k < |c| ==> Sorted(c[k].labels) && |c[k].labels| > 0
  }

  /** Set difference of label sets through their first difference, with a
      longer set ordered before its proper prefix (the inner loop of
      `compare::myComp`). */
  predicate LabelsBefore(a: seq<int>, b: seq<int>)
    decreases |a|
  {
    if |a| == 0 || |b| == 0 then |a| > |b|
    else if a[0] != b[0] then a[0] < b[0]
    else LabelsBefore(a[1..], b[1..])
  }

  /** `compare::myComp`: depth first, then the label sets. */
  predicate StepLess(a: Step, b: Step) {
    if a.depth != b.depth then a.depth < b.depth else LabelsBefore(a.labels, b.labels)
  }

  lemma {:induction false} LabelsBeforeFirstDifference(a: seq<int>, b: seq<int>, k: nat)
    requires k < |a| && k < |b| && a[..k] == b[..k] && a[k] != b[k]
    ensures LabelsBefore(a, b) <==> a[k] < b[k]
    decreases k
  {
    if k > 0 {
      assert a[0] == a[..k][0] && b[0] == b[..k][0];
      assert a[1..][..k - 1] == a[..k][1..];
      assert b[1..][..k - 1] == b[..k][1..];
      LabelsBeforeFirstDifference(a[1..], b[1..], k - 1);
    }
  }

  lemma {:induction false} LabelsBeforeLongerFirst(a: seq<int>, b: seq<int>)
    requires |a| < |b| && b[..|a|] == a
    ensures LabelsBefore(b, a) && !LabelsBefore(a, b)
    decreases |a|
  {
    if |a| > 0 {
      assert b[0] == b[..|a|][0];
      assert b[1..][..|a| - 1] == b[..|a|][1..];
      LabelsBeforeLongerFirst(a[1..], b[1..]);
    }
  }

  lemma {:induction false} LabelsBeforeTrichotomy(a: seq<int>, b: seq<int>)
    ensures a == b ==> !LabelsBefore(a, b)
    ensures a != b ==> (LabelsBefore(a, b) <==> !LabelsBefore(b, a))
    decreases |a|
  {
    if |a| > 0 && |b| > 0 && a[0] == b[0] {
      assert a == [a[0]] + a[1..];
      assert b == [b[0]] + b[1..];
      LabelsBeforeTrichotomy(a[1..], b[1..]);
    }
  }

  lemma {:induction false} LabelsBeforeTransitive(a: seq<int>, b: seq<int>, c: seq<int>)
    requires LabelsBefore(a, b) && LabelsBefore(b, c)
    ensures LabelsBefore(a, c)
    decreases |a|
  {
    if |a| > 0 && |b| > 0 && |c| > 0 && a[0] == b[0] && b[0] == c[0] {
      LabelsBeforeTransitive(a[1..], b[1..], c[1..]);
    }
  }

  /** The step order: depth decides first; at equal depth the first differing
      label decides; a set orders before each of its proper prefixes. */
  lemma StepLessShape(a: Step, b: Step, k: nat)
    ensures a.depth < b.depth ==> StepLess(a, b) && !StepLess(b, a)
    ensures a.depth == b.depth && k < |a.labels| && k < |b.labels| &&
            a.labels[..k] == b.labels[..k] && a.labels[k] != b.labels[k] ==>
              (StepLess(a, b) <==> a.labels[k] < b.labels[k])
    ensures a.depth == b.depth && |a.labels| < |b.labels| && b.labels[..|a.labels|] == a.labels ==>
              StepLess(b, a) && !StepLess(a, b)
  {
    if a.depth == b.depth && k < |a.labels| && k < |b.labels| &&
       a.labels[..k] == b.labels[..k] && a.labels[k] != b.labels[k] {
      LabelsBeforeFirstDifference(a.labels, b.labels, k);
    }
    if a.depth == b.depth && |a.labels| < |b.labels| && b.labels[..|a.labels|] == a.labels {
      LabelsBeforeLongerFirst(a.labels, b.labels);
    }
  }

  /** `myComp` is a strict total order on steps. */
  lemma StepLessIsStrictTotal(a: Step, b: Step, c: Step)
    ensures !StepLess(a, a)
    ensures a != b ==> (StepLess(a, b) <==> !StepLess(b, a))
    ensures StepLess(a, b) && StepLess(b, c) ==> StepLess(a, c)
  {
    LabelsBeforeTrichotomy(a.labels, a.labels);
    LabelsBeforeTrichotomy(a.labels, b.labels);
    if StepLess(a, b) && StepLess(b, c) && a.depth == b.depth && b.depth == c.depth {
      LabelsBeforeTransitive(a.labels, b.labels, c.labels);
    }
  }

  /** `compare::operator()`: `lexicographical_compare` with `myComp`. */
  predicate CodeLess(a: Code, b: Code)
    decreases |a|
  {
    if |b| == 0 then false
    else if |a| == 0 then true
    else if StepLess(a[0], b[0]) then true
    else if StepLess(b[0], a[0]) then false
    else CodeLess(a[1..], b[1..])
  }

  lemma {:induction false} CodeLessIrreflexive(a: Code)
    ensures !CodeLess(a, a)
    decreases |a|
  {
    if |a| > 0 {
      StepLessIsStrictTotal(a[0], a[0], a[0]);
      CodeLessIrreflexive(a[1..]);
    }
  }

  lemma {:induction false} CodeLessTrichotomy(a: Code, b: Code)
    ensures a != b ==> (CodeLess(a, b) <==> !CodeLess(b, a))
    decreases |a|
  {
    if |a| > 0 && |b| > 0 {
      StepLessIsStrictTotal(a[0], b[0], b[0]);
      if a[0] == b[0] {
        assert a == [a[0]] + a[1..];
        assert b == [b[0]] + b[1..];
        CodeLessTrichotomy(a[1..], b[1..]);
      }
    }
  }

  lemma {:induction false} CodeLessTransitive(a: Code, b: Code, c: Code)
    requires CodeLess(a, b) && CodeLess(b, c)
    ensures CodeLess(a, c)
    decreases |a|
  {
    if |a| > 0 {
      StepLessIsStrictTotal(a[0], b[0], c[0]);
      StepLessIsStrictTotal(b[0], c[0], a[0]);
      StepLessIsStrictTotal(c[0], a[0], b[0]);
      if a[0] == b[0] && b[0] == c[0] {
        CodeLessTransitive(a[1..], b[1..], c[1..]);
      }
    }
  }

  /** A proper prefix of a code orders before every extension of it. */
  lemma {:induction false} PrefixOrdersFirst(a: Code, b: Code)
    requires |a| < |b| && b[..|a|] == a
    ensures CodeLess(a, b) && !CodeLess(b, a)
    decreases |a|
  {
    if |a| > 0 {
      assert b[0] == b[..|a|][0];
      assert b[1..][..|a| - 1] == b[..|a|][1..];
      StepLessIsStrictTotal(a[0], a[0], a[0]);
      PrefixOrdersFirst(a[1..], b[1..]);
    }
  }

  /** The default `operator<` of `pair<set<int>, int>`, which orders the
      accepted store: label set first, then depth. */
  predicate DefaultStepLess(a: Step, b: Step) {
    LexLess(a.labels, b.labels) || (a.labels == b.labels && a.depth < b.depth)
  }

  /** The two stores iterate in different orders: a deeper step with a smaller
      label comes first in the accepted store and last in the pending one. */
  lemma StoreOrdersDiffer()
    ensures DefaultStepLess(Step([1], 1), Step([2], 0))
    ensures StepLess(Step([2], 0), Step([1], 1))
  {
  }

  /** Removing step `i` and lifting by one level the run of following steps
      that lay deeper than it (the loop at aadage.cpp 1033-1043). */
  function DeleteStep(c: Code, i: int): (r: Code)
    requires 0 <= i < |c|
    ensures |r| == |c| - 1
    ensures forall k :: 0 <= k < i ==> r[k] == c[k]
    ensures forall k :: i <= k < |r| ==> r[k].labels == c[k + 1].labels
  {
    c[..i] + Lift(c[i + 1..], c[i].depth)
  }

  /** The leading run of `s` that lies deeper than `d` goes up one level. */
  function Lift(s: Code, d: int): (r: Code)
    ensures |r| == |s|
    ensures forall k :: 0 <= k < |r| ==> r[k].labels == s[k].labels
  {
    if |s| == 0 then []
    else if s[0].depth > d then [s[0].(depth := s[0].depth - 1)] + Lift(s[1..], d)
    else s
  }

  lemma {:induction false} LiftDepth(s: Code, d: int, k: int)
    requires 0 <= k < |s|
    ensures Lift(s, d)[k].depth ==
      if forall m :: 0 <= m <= k ==> s[m].depth > d then s[k].depth - 1 else s[k].depth
    decreases |s|
  {
    if s[0].depth > d && k > 0 {
      LiftDepth(s[1..], d, k - 1);
      assert (forall m :: 0 <= m <= k ==> s[m].depth > d) <==>
             (forall m :: 0 <= m <= k - 1 ==> s[1..][m].depth > d);
    }
  }

  /** After the deletion, a following step is one level higher exactly when
      it and every step between it and the deleted one lay deeper than the
      deleted step; every other step keeps its depth. */
  lemma DeleteStepDepths(c: Code, i: int, k: int)
    requires 0 <= i < |c| && i <= k < |c| - 1
    ensures DeleteStep(c, i)[k].depth ==
      if forall m :: i < m <= k + 1 ==> c[m].depth > c[i].depth then c[k + 1].depth - 1 else c[k + 1].depth
  {
    var s := c[i + 1..];
    LiftDepth(s, c[i].depth, k - i);
    assert DeleteStep(c, i)[k] == Lift(s, c[i].depth)[k - i];
    assert (forall m :: i < m <= k + 1 ==> c[m].depth > c[i].depth) <==>
           (forall m :: 0 <= m <= k - i ==> s[m].depth > c[i].depth) by {
      forall m | 0 <= m <= k - i
        ensures s[m] == c[m + i + 1]
      {
      }
    }
  }

  /** `isSubSequence(lhs, rhs)`: distinct codes of one length whose depths
      agree step by step and whose `lhs` label sets are included in the
      `rhs` ones. */
  function IsSubSequence(lhs: Code, rhs: Code): (r: bool)
    ensures r <==> (lhs != rhs && |lhs| == |rhs| &&
      forall k :: 0 <= k < |lhs| ==> lhs[k].depth == rhs[k].depth && Includes(rhs[k].labels, lhs[k].labels))
  {
    if lhs == rhs then false
    else if |lhs| != |rhs| then false
    else
      ItemwiseIncludedMeans(lhs, rhs);
      ItemwiseIncluded(lhs, rhs)
  }

  /** Step by step, the depths agree and each `lhs` label set is included
      in the `rhs` one (`std::includes`). */
  predicate ItemwiseIncluded(lhs: Code, rhs: Code)
    requires |lhs| == |rhs|
    decreases |lhs|
  {
    if |lhs| == 0 then true
    else if lhs[0].depth != rhs[0].depth then false
    else if lhs[0].labels == rhs[0].labels then ItemwiseIncluded(lhs[1..], rhs[1..])
    else if !Includes(rhs[0].labels, lhs[0].labels) then false
    else ItemwiseIncluded(lhs[1..], rhs[1..])
  }

  lemma {:induction false} ItemwiseIncludedMeans(lhs: Code, rhs: Code)
    requires |lhs| == |rhs|
    ensures ItemwiseIncluded(lhs, rhs) <==>
      forall k :: 0 <= k < |lhs| ==> lhs[k].depth == rhs[k].depth && Includes(rhs[k].labels, lhs[k].labels)
    decreases |lhs|
  {
    if |lhs| > 0 {
      ItemwiseIncludedMeans(lhs[1..], rhs[1..]);
      assert forall k :: 0 < k < |lhs| ==> lhs[k] == lhs[1..][k - 1] && rhs[k] == rhs[1..][k - 1];
    }
  }

  /** The inclusion test holds exactly for distinct codes of one shape whose
      label sets grow step by step; it is irreflexive and never holds both ways. */
  lemma SubSequenceMeans(lhs: Code, rhs: Code)
    requires WfSteps(lhs) && WfSteps(rhs)
    ensures IsSubSequence(lhs, rhs) <==>
      lhs != rhs && |lhs| == |rhs| &&
      forall k :: 0 <= k < |lhs| ==> lhs[k].depth == rhs[k].depth && Includes(rhs[k].labels, lhs[k].labels)
    ensures !IsSubSequence(lhs, lhs)
    ensures !(IsSubSequence(lhs, rhs) && IsSubSequence(rhs, lhs))
  {
    if |lhs| == |rhs| {
      ItemwiseIncludedMeans(lhs, rhs);
      ItemwiseIncludedMeans(rhs, lhs);
    }
    if |lhs| == |rhs| && ItemwiseIncluded(lhs, rhs) && ItemwiseIncluded(rhs, lhs) {
      MutualInclusionEqual(lhs, rhs);
    }
  }

  lemma MutualInclusionEqual(lhs: Code, rhs: Code)
    requires WfSteps(lhs) && WfSteps(rhs) && |lhs| == |rhs|
    requires ItemwiseIncluded(lhs, rhs) && ItemwiseIncluded(rhs, lhs)
    ensures lhs == rhs
  {
    ItemwiseIncludedMeans(lhs, rhs);
    ItemwiseIncludedMeans(rhs, lhs);
    forall k | 0 <= k < |lhs|
      ensures lhs[k] == rhs[k]
    {
      SortedUnique(lhs[k].labels, rhs[k].labels);
    }
  }

  /** `convertLabel`: before each step, as many up-markers `[-1]` as levels
      climbed since the previous step (starting from depth -1), then the
      step's label set. */
  function ConvertLabel(lp: Code): seq<seq<int>> {
    ConvertFrom(lp, -1)
  }

  function ConvertFrom(lp: Code, prev: int): seq<seq<int>>
    decreases |lp|
  {
    if |lp| == 0 then []
    else Markers(if lp[0].depth <= prev then prev - lp[0].depth + 1 else 0)
         + [lp[0].labels] + ConvertFrom(lp[1..], lp[0].depth)
  }

  function Markers(n: nat): (r: seq<seq<int>>)
    ensures |r| == n && forall k :: 0 <= k < n ==> r[k] == [-1]
  {
    if n == 0 then [] else [[-1]] + Markers(n - 1)
  }

  /** The entries of an output code that are not up-markers. */
  function DropMarkers(out: seq<seq<int>>): seq<seq<int>> {
    if |out| == 0 then []
    else if out[0] == [-1] then DropMarkers(out[1..])
    else [out[0]] + DropMarkers(out[1..])
  }

  function Labels(lp: Code): (r: seq<seq<int>>)
    ensures |r| == |lp| && forall k :: 0 <= k < |lp| ==> r[k] == lp[k].labels
  {
    if |lp| == 0 then [] else [lp[0].labels] + Labels(lp[1..])
  }

  lemma {:induction false} DropMarkersAppend(a: seq<seq<int>>, b: seq<seq<int>>)
    ensures DropMarkers(a + b) == DropMarkers(a) + DropMarkers(b)
    decreases |a|
  {
    if |a| > 0 {
      assert (a + b)[0] == a[0];
      assert (a + b)[1..] == a[1..] + b;
      DropMarkersAppend(a[1..], b);
      if a[0] != [-1] {
        assert [a[0]] + DropMarkers(a[1..]) + DropMarkers(b) == [a[0]] + (DropMarkers(a[1..]) + DropMarkers(b));
      }
    } else {
      assert a + b == b;
    }
  }

  lemma {:induction false} DropAllMarkers(n: nat)
    ensures DropMarkers(Markers(n)) == []
    decreases n
  {
    if n > 0 {
      DropAllMarkers(n - 1);
    }
  }

  /** Deleting the up-markers from the output leaves the step label sets, in
      order, provided no step carries the marker set itself. */
  lemma {:induction false} ConvertKeepsLabels(lp: Code, prev: int)
    requires forall k :: 0 <= k < |lp| ==> lp[k].labels != [-1]
    ensures DropMarkers(ConvertFrom(lp, prev)) == Labels(lp)
    decreases |lp|
  {
    if |lp| > 0 {
      var m := Markers(if lp[0].depth <= prev then prev - lp[0].depth + 1 else 0);
      var rest := ConvertFrom(lp[1..], lp[0].depth);
      DropMarkersAppend(m + [lp[0].labels], rest);
      DropMarkersAppend(m, [lp[0].labels]);
      DropAllMarkers(|m|);
      ConvertKeepsLabels(lp[1..], lp[0].depth);
    }
  }

  /** Replaying an output code from depth `d`: a label set goes one level
      down and is reported at its depth, a marker goes one level up. */
  function Replay(out: seq<seq<int>>, d: int): seq<int>
    decreases |out|
  {
    if |out| == 0 then []
    else if out[0] == [-1] then Replay(out[1..], d - 1)
    else [d + 1] + Replay(out[1..], d + 1)
  }

  function Depths(lp: Code): (r: seq<int>)
    ensures |r| == |lp| && forall k :: 0 <= k < |lp| ==> r[k] == lp[k].depth
  {
    if |lp| == 0 then [] else [lp[0].depth] + Depths(lp[1..])
  }

  /** The depth never rises by more than one level from one step to the next,
      counting the first step from `prev`. */
  predicate RisesByOne(lp: Code, prev: int) {
    && (|lp| > 0 ==> lp[0].depth <= prev + 1)
    && (forall k :: 0 < k < |lp| ==> lp[k].depth <= lp[k - 1].depth + 1)
  }

  lemma {:induction false} ReplayMarkers(n: nat, d: int, rest: seq<seq<int>>)
    ensures Replay(Markers(n) + rest, d) == Replay(rest, d - n)
    decreases n
  {
    if n > 0 {
      assert (Markers(n) + rest)[0] == [-1];
      assert (Markers(n) + rest)[1..] == Markers(n - 1) + rest;
      ReplayMarkers(n - 1, d - 1, rest);
    } else {
      assert Markers(n) + rest == rest;
    }
  }

  /** Replaying the output of `convertLabel` reproduces every step's depth. */
  lemma {:induction false} ConvertKeepsDepths(lp: Code, prev: int)
    requires forall k :: 0 <= k < |lp| ==> lp[k].labels != [-1]
    requires RisesByOne(lp, prev)
    ensures Replay(ConvertFrom(lp, prev), prev) == Depths(lp)
    decreases |lp|
  {
    if |lp| > 0 {
      var n := if lp[0].depth <= prev then prev - lp[0].depth + 1 else 0;
      var rest := ConvertFrom(lp[1..], lp[0].depth);
      assert ConvertFrom(lp, prev) == Markers(n) + ([lp[0].labels] + rest);
      ReplayMarkers(n, prev, [lp[0].labels] + rest);
      assert prev - n + 1 == lp[0].depth;
      assert ([lp[0].labels] + rest)[1..] == rest;
      assert RisesByOne(lp[1..], lp[0].depth) by {
        forall k | 0 < k < |lp[1..]|
          ensures lp[1..][k].depth <= lp[1..][k - 1].depth + 1
        {
          assert lp[1..][k] == lp[k + 1] && lp[1..][k - 1] == lp[k];
        }
        if |lp| > 1 {
          assert lp[1..][0] == lp[1];
        }
      }
      ConvertKeepsDepths(lp[1..], lp[0].depth);
    }
  }
}
