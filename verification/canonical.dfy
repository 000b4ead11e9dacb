/** Navigation in a pattern code and the canonical-form tests that decide
    whether a generated code is the representative of its pattern. */
module Canonical {
  import opened IntSets
  import opened Codes

  /** Step `j` is the previous sibling of step `pos`: same depth, and every
      step strictly between them lies deeper (inside `j`'s subtree). */
  predicate IsPrevSibling(code: Code, pos: int, j: int)
    requires 0 <= pos < |code|
  {
    && 0 <= j < pos
    && code[j].depth == code[pos].depth
    && forall k :: j < k < pos ==> code[k].depth > code[pos].depth
  }

  /** `getPreviousSibbling(code, pos)`. */
  function PreviousSibling(code: Code, pos: int): (r: int)
    requires 0 <= pos < |code|
    ensures -1 <= r < pos
    ensures r >= 0 ==> IsPrevSibling(code, pos, r)
    ensures r == -1 ==> forall j :: 0 <= j < pos ==> !IsPrevSibling(code, pos, j)
  {
    SiblingScan(code, pos, pos - 1)
  }

  function SiblingScan(code: Code, pos: int, j: int): (r: int)
    requires 0 <= pos < |code| && -1 <= j < pos
    requires forall k :: j < k < pos ==> code[k].depth > code[pos].depth
    ensures -1 <= r <= j
    ensures r >= 0 ==> IsPrevSibling(code, pos, r)
    ensures r == -1 ==> forall i :: 0 <= i <= j ==> !IsPrevSibling(code, pos, i)
    decreases j + 1
  {
    if j < 0 then -1
    else if code[j].depth == code[pos].depth then j
    else if code[j].depth < code[pos].depth then -1
    else SiblingScan(code, pos, j - 1)
  }

  /** `getParent(code, pos)`: the nearest earlier step that is shallower,
      searching down to index 1; index 0 is returned without being tested. */
  function Parent(code: Code, pos: int): (r: int)
    requires 0 <= pos < |code|
    ensures pos == 0 ==> r == -1
    ensures pos > 0 ==> 0 <= r < pos
    ensures r > 0 ==> code[r].depth < code[pos].depth
    ensures forall k :: r < k < pos && k > 0 ==> code[k].depth >= code[pos].depth
  {
    ParentScan(code, pos, pos - 1)
  }

  function ParentScan(code: Code, pos: int, j: int): (r: int)
    requires 0 <= pos < |code| && -1 <= j < pos
    requires forall k :: j < k < pos ==> code[k].depth >= code[pos].depth
    ensures r == -1 <==> j == -1
    ensures -1 <= r <= j
    ensures r > 0 ==> code[r].depth < code[pos].depth
    ensures forall k :: r < k < pos && k > 0 ==> code[k].depth >= code[pos].depth
    decreases j + 1
  {
    if j <= 0 then j
    else if code[j].depth < code[pos].depth then j
    else ParentScan(code, pos, j - 1)
  }

  /** The rightmost path: the positions visited from the last step by
      repeated `getParent` until -1, in increasing order (the vector built by
      inserting at the front, aadage.cpp 1263-1268). */
  function RightmostPath(code: Code): (r: seq<int>)
    ensures |code| > 0 ==> |r| > 0 && r[0] == 0 && r[|r| - 1] == |code| - 1
    ensures |code| == 0 ==> r == []
    ensures forall k :: 0 <= k < |r| ==> 0 <= r[k] < |code|
    ensures forall k :: 0 < k < |r| ==> r[k - 1] == Parent(code, r[k])
  {
    if |code| == 0 then [] else PathTo(code, |code| - 1)
  }

  function PathTo(code: Code, pos: int): (r: seq<int>)
    requires 0 <= pos < |code|
    ensures |r| > 0 && r[0] == 0 && r[|r| - 1] == pos
    ensures forall k :: 0 <= k < |r| ==> 0 <= r[k] <= pos
    ensures forall k :: 0 < k < |r| ==> r[k - 1] == Parent(code, r[k])
    decreases pos
  {
    if pos == 0 then [0]
    else
      var p := PathTo(code, Parent(code, pos));
      var r := p + [pos];
      assert forall k :: 0 <= k < |p| ==> r[k] == p[k];
      r
  }

  /** `compareSubStructure(code, pos1, pos2)` as the original writes it. It
      tells two differing label sets of equal depth apart by comparing their
      addresses, not their contents; in a vector the address grows with the
      index, so a difference inside `[pos1, pos2)` always yields -1.
      `CompareSubStructure` is the comparison by content. */
  function CompareByAddress(code: Code, p1: int, p2: int): (r: int)
    requires 0 <= p1 < p2 <= |code|
    ensures r == -1 || r == 0 || r == 1
    ensures r == 0 <==> code[p1..p2] == code[p2..]
    ensures r == 1 <==> p2 - p1 < |code| - p2 && code[p1..p2] == code[p2..p2 + (p2 - p1)]
  {
    if p2 - p1 > |code| - p2 then -1
    else AddressFrom(code, p1, p2, p1)
  }

  /** The second loop of `compareSubStructure` as written, at position `i`
      of the left segment. */
  function AddressFrom(code: Code, p1: int, p2: int, i: int): (r: int)
    requires 0 <= p1 < p2 <= |code| && p2 - p1 <= |code| - p2 && p1 <= i <= p2
    requires code[p1..i] == code[p2..p2 + (i - p1)]
    ensures r == -1 || r == 0 || r == 1
    ensures r == 0 <==> code[p1..p2] == code[p2..]
    ensures r == 1 <==> p2 - p1 < |code| - p2 && code[p1..p2] == code[p2..p2 + (p2 - p1)]
    decreases p2 - i
  {
    var j := i - p1;
    if i == p2 then
      if p2 - p1 < |code| - p2 then 1 else 0
    else if code[i] == code[p2 + j] then
      assert code[p1..i + 1] == code[p1..i] + [code[i]];
      assert code[p2..p2 + j + 1] == code[p2..p2 + j] + [code[p2 + j]];
      AddressFrom(code, p1, p2, i + 1)
    else
      assert code[p1..p2][j] != code[p2..][j];
      assert code[p1..p2][j] != code[p2..p2 + (p2 - p1)][j];
      if code[i].depth != code[p2 + j].depth then -1
      else if i < p2 + j then -1
      else 1
  }

  /** Offset `j` is where the window `[p1, p2)` and the code from `p2` first
      differ. */
  predicate FirstDiff(code: Code, p1: int, p2: int, j: int)
    requires 0 <= p1 < p2 <= |code|
  {
    && 0 <= j < p2 - p1
    && p2 + j < |code|
    && code[p1 + j] != code[p2 + j]
    && code[p1..p1 + j] == code[p2..p2 + j]
  }

  /** The first difference is unique: no other offset is one. */
  lemma FirstDiffUnique(code: Code, p1: int, p2: int, j: int)
    requires 0 <= p1 < p2 <= |code|
    requires FirstDiff(code, p1, p2, j)
    ensures forall d :: 0 <= d < p2 - p1 && d != j ==> !FirstDiff(code, p1, p2, d)
  {
    forall d | 0 <= d < p2 - p1 && d != j
      ensures !FirstDiff(code, p1, p2, d)
    {
      if d < j {
        assert code[p1 + d] == code[p2 + d] by {
          assert code[p1..p1 + j][d] == code[p2..p2 + j][d];
        }
      } else if p2 + d <= |code| {
        assert code[p1..p1 + d] != code[p2..p2 + d] by {
          assert code[p1..p1 + d][j] != code[p2..p2 + d][j];
        }
      }
    }
  }

  /** The subtree order `compareSubStructure` is meant to decide: the left
      window `[p1, p2)` orders after the code from `p2` when it is no longer,
      and either the first step where they differ has the same depth on both
      sides and the greater label set on the left, or they do not differ and
      the left window is the shorter one. */
  predicate LeftAfter(code: Code, p1: int, p2: int)
    requires 0 <= p1 < p2 <= |code|
  {
    && p2 - p1 <= |code| - p2
    && ((exists j :: 0 <= j < p2 - p1 && FirstDiff(code, p1, p2, j)
           && code[p1 + j].depth == code[p2 + j].depth
           && LexLess(code[p2 + j].labels, code[p1 + j].labels))
        || (p2 - p1 < |code| - p2 && code[p1..p2] == code[p2..p2 + (p2 - p1)]))
  }

  /** `compareSubStructure(code, pos1, pos2)` with the label sets compared by
      content, in the order of `std::set`: -1 keeps the code, 0 is a tie,
      1 rejects it. */
  function CompareSubStructure(code: Code, p1: int, p2: int): (r: int)
    requires 0 <= p1 < p2 <= |code|
    ensures r == -1 || r == 0 || r == 1
    ensures r == 0 <==> code[p1..p2] == code[p2..]
    ensures r == 1 <==> LeftAfter(code, p1, p2)
  {
    if p2 - p1 > |code| - p2 then -1
    else CompareFrom(code, p1, p2, p1)
  }

  /** The second loop of `compareSubStructure`, at position `i` of the left
      segment, comparing label sets by content. */
  function CompareFrom(code: Code, p1: int, p2: int, i: int): (r: int)
    requires 0 <= p1 < p2 <= |code| && p2 - p1 <= |code| - p2 && p1 <= i <= p2
    requires code[p1..i] == code[p2..p2 + (i - p1)]
    ensures r == -1 || r == 0 || r == 1
    ensures r == 0 <==> code[p1..p2] == code[p2..]
    ensures r == 1 <==> LeftAfter(code, p1, p2)
    decreases p2 - i
  {
    var j := i - p1;
    if i == p2 then
      forall d | 0 <= d < p2 - p1
        ensures !FirstDiff(code, p1, p2, d)
      {
        assert code[p1..p2][d] == code[p2..p2 + (p2 - p1)][d];
      }
      if p2 - p1 < |code| - p2 then
        1
      else
        0
    else if code[i] == code[p2 + j] then
      assert code[p1..i + 1] == code[p1..i] + [code[i]];
      assert code[p2..p2 + j + 1] == code[p2..p2 + j] + [code[p2 + j]];
      CompareFrom(code, p1, p2, i + 1)
    else
      assert code[p1..p2][j] != code[p2..][j];
      assert code[p1..p2][j] != code[p2..p2 + (p2 - p1)][j];
      assert FirstDiff(code, p1, p2, j);
      FirstDiffUnique(code, p1, p2, j);
      LexLessTrichotomy(code[i].labels, code[p2 + j].labels);
      if code[i].depth != code[p2 + j].depth then -1
      else if LexLess(code[i].labels, code[p2 + j].labels) then -1
      else 1
  }

  /** The code `isCanonical` works on: every back-edge step, in order, takes
      the label set of the step it points to as that step reads at that
      moment. A target outside the code (undefined in the original) leaves
      the step as it is. */
  function DecodeBackEdges(lab: Code): (r: Code)
    ensures |r| == |lab|
    ensures forall k :: 0 <= k < |r| ==> r[k].depth == lab[k].depth
    ensures forall k :: 0 <= k < |r| && !IsBackEdge(lab[k]) ==> r[k] == lab[k]
  {
    DecodeUpTo(lab, |lab|)
  }

  /** The decoding loop after its first `n` iterations. */
  function DecodeUpTo(lab: Code, n: nat): (r: Code)
    requires n <= |lab|
    ensures |r| == |lab|
    ensures forall k :: 0 <= k < |r| ==> r[k].depth == lab[k].depth
    ensures forall k :: n <= k < |r| ==> r[k] == lab[k]
    ensures forall k :: 0 <= k < |r| && !IsBackEdge(lab[k]) ==> r[k] == lab[k]
    decreases n
  {
    if n == 0 then lab
    else
      var prev := DecodeUpTo(lab, n - 1);
      var i := n - 1;
      if IsBackEdge(prev[i]) && 0 <= Target(prev[i]) < |prev| then
        prev[i := prev[i].(labels := prev[Target(prev[i])].labels)]
      else prev
  }

  /** Every back-edge points to an earlier step. */
  predicate BackEdgesPointBack(lab: Code) {
    forall k :: 0 <= k < |lab| && IsBackEdge(lab[k]) ==> 0 <= Target(lab[k]) < k
  }

  /** When every back-edge points back, decoding leaves no back-edge: each
      one reads a step that is already decoded. */
  lemma DecodeRemovesBackEdges(lab: Code)
    requires BackEdgesPointBack(lab)
    ensures forall k :: 0 <= k < |lab| ==> !IsBackEdge(DecodeBackEdges(lab)[k])
  {
    DecodeUpToRemoves(lab, |lab|);
  }

  lemma {:induction false} DecodeUpToRemoves(lab: Code, n: nat)
    requires BackEdgesPointBack(lab) && n <= |lab|
    ensures forall k :: 0 <= k < n ==> !IsBackEdge(DecodeUpTo(lab, n)[k])
    decreases n
  {
    if n > 0 {
      DecodeUpToRemoves(lab, n - 1);
      var prev := DecodeUpTo(lab, n - 1);
      var i := n - 1;
      if IsBackEdge(prev[i]) && 0 <= Target(prev[i]) < |prev| {
        assert prev[i] == lab[i];
        assert Target(prev[i]) < i;
      }
    }
  }

  /** How two sibling subtrees are compared: `ByAddress` is the comparison
      the original makes, `ByContent` the one its documentation describes. */
  datatype Order = ByAddress | ByContent

  /** `compareSubStructure` under the chosen order. */
  function Compare(code: Code, p1: int, p2: int, ord: Order): (r: int)
    requires 0 <= p1 < p2 <= |code|
    ensures r == -1 || r == 0 || r == 1
    ensures r == 0 <==> code[p1..p2] == code[p2..]
    ensures ord == ByAddress ==> r == CompareByAddress(code, p1, p2)
    ensures ord == ByContent ==> r == CompareSubStructure(code, p1, p2)
  {
    match ord
    case ByAddress => CompareByAddress(code, p1, p2)
    case ByContent => CompareSubStructure(code, p1, p2)
  }

  /** The sibling comparisons made while walking up the rightmost path from
      `pos`, in walk order, without the early exit on 1. */
  function Comparisons(code: Code, pos: int, ord: Order): (r: seq<int>)
    requires -1 <= pos < |code|
    ensures forall k :: 0 <= k < |r| ==> r[k] == -1 || r[k] == 0 || r[k] == 1
    decreases pos + 1
  {
    if pos <= 0 then []
    else
      var ps := PreviousSibling(code, pos);
      var rest := Comparisons(code, Parent(code, pos), ord);
      if ps != -1 then [Compare(code, ps, pos, ord)] + rest else rest
  }

  /** `isCanonical(lab)` as the original runs it, with sibling subtrees
      compared by address: -1 canonical and extendable, 0 canonical but
      every comparison on the rightmost path was a tie, 1 rejected. */
  function IsCanonical(lab: Code): (r: int)
    ensures r == -1 || r == 0 || r == 1
    ensures |lab| <= 1 ==> r == -1
    ensures var cs := Comparisons(DecodeBackEdges(lab), |lab| - 1, ByAddress);
      && (r == 1 <==> 1 in cs)
      && (r == 0 <==> |cs| > 0 && forall k :: 0 <= k < |cs| ==> cs[k] == 0)
  {
    WalkFromTop(lab, ByAddress);
    Walk(DecodeBackEdges(lab), |lab| - 1, false, true, ByAddress)
  }

  /** `isCanonical(lab)` with sibling subtrees compared by content, the test
      the original's documentation describes. */
  function IsCanonicalByContent(lab: Code): (r: int)
    ensures r == -1 || r == 0 || r == 1
    ensures |lab| <= 1 ==> r == -1
    ensures var cs := Comparisons(DecodeBackEdges(lab), |lab| - 1, ByContent);
      && (r == 1 <==> 1 in cs)
      && (r == 0 <==> |cs| > 0 && forall k :: 0 <= k < |cs| ==> cs[k] == 0)
  {
    WalkFromTop(lab, ByContent);
    Walk(DecodeBackEdges(lab), |lab| - 1, false, true, ByContent)
  }

  /** The walk as `isCanonical` starts it: from the last step of the decoded
      code, with no comparison made yet. */
  lemma WalkFromTop(lab: Code, ord: Order)
    ensures var r := Walk(DecodeBackEdges(lab), |lab| - 1, false, true, ord);
      var cs := Comparisons(DecodeBackEdges(lab), |lab| - 1, ord);
      && (|lab| <= 1 ==> r == -1)
      && (r == 1 <==> 1 in cs)
      && (r == 0 <==> |cs| > 0 && forall k :: 0 <= k < |cs| ==> cs[k] == 0)
  {
    var cs := Comparisons(DecodeBackEdges(lab), |lab| - 1, ord);
    if forall k :: 0 <= k < |cs| ==> cs[k] == 0 {
      assert 1 !in cs;
    }
  }

  /** The loop of `isCanonical`, with its two flags. */
  function Walk(code: Code, pos: int, found: bool, identical: bool, ord: Order): (r: int)
    requires -1 <= pos < |code|
    ensures r == -1 || r == 0 || r == 1
    ensures var cs := Comparisons(code, pos, ord);
      && (r == 1 <==> 1 in cs)
      && (r == 0 <==> (!(1 in cs) && (found || |cs| > 0) && identical
                       && forall k :: 0 <= k < |cs| ==> cs[k] == 0))
    decreases pos + 1
  {
    if pos <= 0 then
      if identical && found then 0 else -1
    else
      var ps := PreviousSibling(code, pos);
      var par := Parent(code, pos);
      if ps != -1 then
        var c := Compare(code, ps, pos, ord);
        if c == 1 then 1
        else
          var rest := Comparisons(code, par, ord);
          assert Comparisons(code, pos, ord) == [c] + rest;
          var cs := [c] + rest;
          assert cs[0] == c;
          assert forall k :: 0 < k < |cs| ==> cs[k] == rest[k - 1];
          assert (1 in cs) <==> (1 in rest);
          assert (forall k :: 0 <= k < |cs| ==> cs[k] == 0) <==>
                 (c == 0 && forall k :: 0 <= k < |rest| ==> rest[k] == 0) by {
            if forall k :: 0 <= k < |cs| ==> cs[k] == 0 {
              forall k | 0 <= k < |rest|
                ensures rest[k] == 0
              {
                assert cs[k + 1] == rest[k];
              }
            }
          }
          Walk(code, par, true, identical && c != -1, ord)
      else
        Walk(code, par, found, identical, ord)
  }

  /** A root labelled 0 with two children labelled 1; below them hang
      children labelled 5 and 3, in this order. */
  function FiveThenThree(): Code {
    [Step([0], 0), Step([1], 1), Step([5], 2), Step([1], 1), Step([3], 2)]
  }

  /** The same tree with the two subtrees listed in the other order. */
  function ThreeThenFive(): Code {
    [Step([0], 0), Step([1], 1), Step([3], 2), Step([1], 1), Step([5], 2)]
  }

  /** Comparing by address, both orders of the two sibling subtrees say the
      left one comes first, so neither code is rejected and the tree is
      enumerated twice. */
  lemma AddressCompareAcceptsBothOrders()
    ensures FiveThenThree() != ThreeThenFive()
    ensures CompareByAddress(FiveThenThree(), 1, 3) == -1
    ensures CompareByAddress(ThreeThenFive(), 1, 3) == -1
  {
    var a, b := FiveThenThree(), ThreeThenFive();
    assert a[2] != b[2];
    assert a[1..3] != a[3..];
    assert a[1..3] != a[3..5];
    assert b[1..3] != b[3..];
    assert b[1..3] != b[3..5];
  }

  /** As the original runs it, `isCanonical` keeps both codes of the tree,
      so the tree is enumerated twice. */
  lemma AddressCanonicalKeepsBothOrders()
    ensures IsCanonical(FiveThenThree()) == -1
    ensures IsCanonical(ThreeThenFive()) == -1
  {
    var a, b := FiveThenThree(), ThreeThenFive();
    NoBackEdgeDecodes(a);
    NoBackEdgeDecodes(b);
    AddressCompareAcceptsBothOrders();
    TwoSubtreeComparisons(a, ByAddress);
    TwoSubtreeComparisons(b, ByAddress);
  }

  /** Comparing by content, exactly one of the two codes survives the
      canonical test: the one listing the subtree with the smaller label set
      first. */
  lemma ContentCompareKeepsOneOrder()
    ensures IsCanonicalByContent(FiveThenThree()) == 1
    ensures IsCanonicalByContent(ThreeThenFive()) == -1
  {
    var a, b := FiveThenThree(), ThreeThenFive();
    NoBackEdgeDecodes(a);
    NoBackEdgeDecodes(b);
    SiblingCompareByContent();
    TwoSubtreeComparisons(a, ByContent);
    TwoSubtreeComparisons(b, ByContent);
  }

  /** The one comparison each of the two codes makes. */
  lemma SiblingCompareByContent()
    ensures CompareSubStructure(FiveThenThree(), 1, 3) == 1
    ensures CompareSubStructure(ThreeThenFive(), 1, 3) == -1
  {
    var a, b := FiveThenThree(), ThreeThenFive();
    assert LexLess([3], [5]);
    assert a[1..2] == a[3..4];
    assert FirstDiff(a, 1, 3, 1);
    assert LeftAfter(a, 1, 3);
    assert b[1..2] == b[3..4];
    assert FirstDiff(b, 1, 3, 1);
    assert b[1..3] != b[3..] by { assert b[1..3][1] != b[3..][1]; }
    assert !LeftAfter(b, 1, 3) by {
      FirstDiffUnique(b, 1, 3, 1);
      assert b[1..3] != b[3..5] by { assert b[1..3][1] != b[3..5][1]; }
    }
  }

  /** On a five-step code shaped like the two above, the walk from the last
      step makes exactly the comparison of the two subtrees at 1 and 3. */
  lemma TwoSubtreeComparisons(c: Code, ord: Order)
    requires |c| == 5
    requires c[0].depth == 0 && c[1].depth == 1 && c[2].depth == 2
    requires c[3].depth == 1 && c[4].depth == 2
    ensures Comparisons(c, 4, ord) == [Compare(c, 1, 3, ord)]
  {
    assert PreviousSibling(c, 4) == -1;
    assert Parent(c, 4) == 3;
    assert PreviousSibling(c, 3) == 1;
    assert Parent(c, 3) == 0;
  }

  /** A code whose steps are all plain decodes to itself. */
  lemma NoBackEdgeDecodes(lab: Code)
    requires forall k :: 0 <= k < |lab| ==> !IsBackEdge(lab[k])
    ensures DecodeBackEdges(lab) == lab
  {
  }
}
