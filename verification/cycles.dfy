/** The canonical test for codes that close a cycle back to the root: the
    code is rotated one step at a time and rejected when some rotation both
    precedes it and passes `isCanonical` as a boolean. */
module Cycles {
  import opened IntSets
  import opened Codes
  import opened Canonical

  /** One step of the shift loop applied to a step left in place: a back-edge
      target moves one place right, and every such step goes one level down. */
  function Renumber(s: Step): (r: Step)
    ensures r.depth == s.depth + 1
    ensures IsBackEdge(s) ==> r.labels == [Lead(s) - 1, Marker] && Target(r) == Target(s) + 1
    ensures !IsBackEdge(s) ==> r.labels == s.labels
  {
    if IsBackEdge(s) then Step([Lead(s) - 1, Marker], s.depth + 1)
    else s.(depth := s.depth + 1)
  }

  /** One rotation (the body of the outer loop of `isCycleCanonical`, up to
      the comparison): the last-but-one step becomes the root, the steps
      before it are renumbered one level down, and the last step hangs below
      the new root. When the new root is itself a back-edge it takes the
      labels of its target, whose place gets the back-edge to the root. A
      target outside the code (undefined in the original) is left alone. */
  function Shift(code: Code): (r: Code)
    requires |code| >= 2
    ensures |r| == |code|
    ensures r[0].depth == 0
    ensures r[|r| - 1] == code[|code| - 1].(depth := code[|code| - 2].depth + 1)
    ensures forall j :: 1 <= j < |r| - 1 ==> r[j].depth == code[j - 1].depth + 1
    ensures var root := code[|code| - 2];
      !(IsBackEdge(root) && 0 <= Target(root) < |code| - 1) ==>
        && r[0] == root.(depth := 0)
        && forall j :: 1 <= j < |r| - 1 ==> r[j] == Renumber(code[j - 1])
    ensures var root := code[|code| - 2]; var a := Target(root);
      IsBackEdge(root) && 0 <= a < |code| - 1 ==>
        && r[a] == Step([-1, Marker], if a == 0 then 0 else code[a - 1].depth + 1)
        && (a > 0 ==> r[0] == Step(Renumber(code[a - 1]).labels, 0))
        && forall j :: 1 <= j < |r| - 1 && j != a ==> r[j] == Renumber(code[j - 1])
  {
    var n := |code|;
    var pre := [code[n - 2].(depth := 0)] + RenumberAll(code[..n - 2]);
    assert forall j :: 1 <= j < |pre| ==> pre[j] == Renumber(code[j - 1]);
    var front := MoveRoot(pre);
    var r := front + [code[n - 1].(depth := code[n - 2].depth + 1)];
    assert forall j :: 0 <= j < |front| ==> r[j] == front[j];
    r
  }

  /** The shift loop over the steps left in place. */
  function RenumberAll(s: Code): (r: Code)
    ensures |r| == |s| && forall j :: 0 <= j < |s| ==> r[j] == Renumber(s[j])
  {
    if |s| == 0 then [] else [Renumber(s[0])] + RenumberAll(s[1..])
  }

  /** A new root that is a back-edge takes the labels of its target, whose
      place receives the back-edge to the root; depths do not change. */
  function MoveRoot(front: Code): (r: Code)
    requires |front| > 0
    ensures |r| == |front|
    ensures forall j :: 0 <= j < |r| ==> r[j].depth == front[j].depth
    ensures !(IsBackEdge(front[0]) && 0 <= Target(front[0]) < |front|) ==> r == front
    ensures var a := Target(front[0]);
      IsBackEdge(front[0]) && 0 <= a < |front| ==>
        && r[a] == front[a].(labels := [-1, Marker])
        && (a > 0 ==> r[0] == front[0].(labels := front[a].labels))
        && forall j :: 0 < j < |r| && j != a ==> r[j] == front[j]
  {
    if IsBackEdge(front[0]) && 0 <= Target(front[0]) < |front| then
      var a := Target(front[0]);
      var f1 := front[0 := front[0].(labels := front[a].labels)];
      f1[a := f1[a].(labels := [-1, Marker])]
    else front
  }

  /** The shift with the loop's guard: codes shorter than two steps never
      reach it. */
  function Rotate(code: Code): (r: Code)
    ensures |r| == |code|
  {
    if |code| >= 2 then Shift(code) else code
  }

  /** The codes a loop applying `step` holds after each of its `n`
      iterations, starting from `code`. */
  function Iterates(step: Code -> Code, code: Code, n: nat): (r: seq<Code>)
    ensures |r| == n
    ensures n > 0 ==> r[0] == step(code)
    ensures forall k :: 0 < k < n ==> r[k] == step(r[k - 1])
    decreases n
  {
    if n == 0 then []
    else
      var rest := Iterates(step, step(code), n - 1);
      var r := [step(code)] + rest;
      assert forall k :: 0 < k < n ==> r[k] == rest[k - 1];
      r
  }

  /** The rotations `isCycleCanonical` tries: each one is the shift of the
      previous, all of the code's length. */
  function Rotations(code: Code, n: nat): (r: seq<Code>)
    requires |code| >= 2
    ensures |r| == n
    ensures forall k :: 0 <= k < n ==> |r[k]| == |code|
    ensures n > 0 ==> r[0] == Shift(code)
    ensures forall k :: 0 < k < n ==> r[k] == Shift(r[k - 1])
  {
    var r := Iterates(Rotate, code, n);
    RotationsKeepLength(code, n);
    r
  }

  lemma {:induction false} RotationsKeepLength(code: Code, n: nat)
    ensures forall k :: 0 <= k < n ==> |Iterates(Rotate, code, n)[k]| == |code|
    decreases n
  {
    if n > 0 {
      RotationsKeepLength(Rotate(code), n - 1);
      var r := Iterates(Rotate, code, n);
      assert forall k :: 0 < k < n ==> r[k] == Iterates(Rotate, Rotate(code), n - 1)[k - 1];
    }
  }

  /** `found_smallest`: scanning all steps but the last, the first step where
      the original and the rotation differ has the rotation deeper, or at the
      same depth a label set that is smaller as a `std::set`. */
  predicate FoundSmaller(lab: Code, code: Code)
    requires |lab| == |code|
    decreases |code|
  {
    if |code| <= 1 then false
    else if lab[0].depth < code[0].depth then true
    else if lab[0].depth > code[0].depth then false
    else if LexLess(code[0].labels, lab[0].labels) then true
    else if LexLess(lab[0].labels, code[0].labels) then false
    else FoundSmaller(lab[1..], code[1..])
  }

  /** Step `j` is where the rotation first wins: all earlier steps agree. */
  predicate WinsAt(lab: Code, code: Code, j: int)
    requires |lab| == |code|
  {
    && 0 <= j < |code| - 1
    && lab[..j] == code[..j]
    && (lab[j].depth < code[j].depth ||
        (lab[j].depth == code[j].depth && LexLess(code[j].labels, lab[j].labels)))
  }

  /** The scan decides exactly whether the rotation wins at the first
      difference among all steps but the last. */
  lemma {:induction false} FoundSmallerMeans(lab: Code, code: Code)
    requires |lab| == |code|
    ensures FoundSmaller(lab, code) <==> exists j :: WinsAt(lab, code, j)
    decreases |code|
  {
    if |code| > 1 {
      if WinsAt(lab, code, 0) {
      } else if lab[0] == code[0] {
        LexLessIrreflexive(lab[0].labels);
        FoundSmallerMeans(lab[1..], code[1..]);
        if exists j :: WinsAt(lab[1..], code[1..], j) {
          var j :| WinsAt(lab[1..], code[1..], j);
          assert lab[..j + 1] == [lab[0]] + lab[1..][..j];
          assert code[..j + 1] == [code[0]] + code[1..][..j];
          assert WinsAt(lab, code, j + 1);
        }
        if exists j :: WinsAt(lab, code, j) {
          var j :| WinsAt(lab, code, j);
          assert j != 0;
          assert lab[1..][..j - 1] == lab[..j][1..];
          assert code[1..][..j - 1] == code[..j][1..];
          assert WinsAt(lab[1..], code[1..], j - 1);
        }
      } else {
        LexLessTrichotomy(lab[0].labels, code[0].labels);
        forall j | 0 < j <= |code|
          ensures lab[..j] != code[..j]
        {
          assert lab[..j][0] == lab[0] && code[..j][0] == code[0];
        }
      }
    }
  }

  /** The test at aadage.cpp 822, `isCanonical` being read as a boolean. */
  predicate RejectedBy(lab: Code, rot: Code)
    requires |lab| == |rot|
  {
    FoundSmaller(lab, rot) && IsCanonical(rot) != 0
  }

  /** `isCycleCanonical(lab)`: 1 when one of the first `|lab| - 2`
      rotations rejects the code, -1 otherwise. The loop bound is computed
      in unsigned arithmetic, so the original needs at least two steps. */
  function IsCycleCanonical(lab: Code): (r: int)
    requires |lab| >= 2
    ensures r == -1 || r == 1
    ensures var rots := Rotations(lab, |lab| - 2);
      r == 1 <==> exists k :: 0 <= k < |rots| && RejectedBy(lab, rots[k])
  {
    var rejects := (rot: Code) => |rot| == |lab| && RejectedBy(lab, rot);
    ScanMeans(Rotate, rejects, lab, |lab| - 2);
    var rots := Rotations(lab, |lab| - 2);
    assert forall k :: HitAt(rejects, rots, k) <==> 0 <= k < |rots| && RejectedBy(lab, rots[k]);
    if Scan(Rotate, rejects, lab, |lab| - 2) then 1 else -1
  }

  /** The outer loop: `n` more iterations of `step` from `code`, stopping
      at the first code the test `rejects` holds for. */
  predicate Scan(step: Code -> Code, rejects: Code -> bool, code: Code, n: nat)
    decreases n
  {
    if n == 0 then false
    else
      var next := step(code);
      if rejects(next) then true
      else Scan(step, rejects, next, n - 1)
  }

  /** The `k`-th of the codes `rots` passes the test. */
  predicate HitAt(rejects: Code -> bool, rots: seq<Code>, k: int) {
    0 <= k < |rots| && rejects(rots[k])
  }

  /** The loop stops early exactly when the test holds for one of the codes
      it goes through. */
  lemma {:induction false} ScanMeans(step: Code -> Code, rejects: Code -> bool, code: Code, n: nat)
    ensures Scan(step, rejects, code, n) <==> exists k :: HitAt(rejects, Iterates(step, code, n), k)
    decreases n
  {
    if n > 0 {
      var next := step(code);
      var rots := Iterates(step, code, n);
      var rest := Iterates(step, next, n - 1);
      assert forall k :: 0 < k < n ==> rots[k] == rest[k - 1];
      ScanMeans(step, rejects, next, n - 1);
      if Scan(step, rejects, code, n) {
        if rejects(next) {
          assert HitAt(rejects, rots, 0);
        } else {
          var k :| HitAt(rejects, rest, k);
          assert HitAt(rejects, rots, k + 1);
        }
      }
      if exists k :: HitAt(rejects, rots, k) {
        var k :| HitAt(rejects, rots, k);
        if k > 0 {
          assert HitAt(rejects, rest, k - 1);
          assert Scan(step, rejects, next, n - 1);
        }
        assert Scan(step, rejects, code, n);
        assert HitAt(rejects, Iterates(step, code, n), k);
      }
    }
  }

  /** A two-step cycle code is never rejected: the loop runs zero times. */
  lemma TwoStepCycleAccepted(lab: Code)
    requires |lab| == 2
    ensures IsCycleCanonical(lab) == -1
  {
  }
}
