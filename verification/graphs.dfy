/** The normalized input: one vector of nodes per source graph. A node is
    identified by its index in its graph's vector; its record holds a label
    set, a child set and a depth. */
module Graphs {
  import opened IntSets
  import opened Options

  datatype Node = Node(labels: seq<int>, children: seq<int>, depth: int)

  type Graph = seq<Node>

  /** The empty constructor `NodeInfo()`. */
  function DefaultNode(): (n: Node)
    ensures |n.labels| == 0 && |n.children| == 0 && n.depth == -1
    ensures !IsFrequent(n)
  {
    Node([], [], -1)
  }

  /** `NodeInfo(id, depth)`: the id is not stored, identity is the index. */
  function NewNode(id: int, depth: int): (n: Node)
    ensures |n.labels| == 0 && |n.children| == 0 && n.depth == depth
    ensures !IsFrequent(n)
  {
    Node([], [], depth)
  }

  /** `isFrequent()`: the node still carries at least one label. */
  predicate IsFrequent(n: Node) {
    |n.labels| > 0
  }

  /** Frequency depends on the labels alone: neither children nor depth matter. */
  lemma FrequencyIgnoresStructure(n: Node, children: seq<int>, depth: int)
    ensures IsFrequent(n.(children := children, depth := depth)) == IsFrequent(n)
    ensures IsFrequent(n) <==> exists l :: l in n.labels
  {
    if |n.labels| > 0 {
      var l := n.labels[0];
      assert l in n.labels;
    }
  }

  predicate WfNode(n: Node) {
    Sorted(n.labels) && Sorted(n.children)
  }

  /** Labels and children are sets, and every child index names a node of the graph. */
  predicate WfGraph(g: Graph) {
    forall i :: 0 <= i < |g| ==> WfNode(g[i]) && InRange(g, g[i].children)
  }

  /** Every element of `cs` is a node index of `g`. */
  predicate InRange(g: Graph, cs: seq<int>) {
    forall k :: 0 <= k < |cs| ==> 0 <= cs[k] < |g|
  }

  /** The recursion bound used for a gap argument. A non-negative depth is
      used as given. A negative one never reaches zero in the original, whose
      recursion then ends only where the child relation does, and never on a
      cycle (`NegativeGapNeverFinishes`). It is modelled by |g| levels, which
      reach every descendant on every graph (`NegativeGapIsReach`). */
  function Hops(g: Graph, depth: int): (h: nat)
    ensures depth >= 0 ==> h == depth
    ensures depth < 0 ==> h == |g|
  {
    if depth < 0 then |g| else depth
  }

  /** `collectAllChilds(listNodes, first, depth, childs)` on an empty `childs`. */
  function CollectAllChilds(g: Graph, first: int, depth: int): (r: seq<int>)
    requires WfGraph(g) && 0 <= first < |g|
    ensures Sorted(r)
    ensures forall x :: x in r ==> 0 <= x < |g|
    ensures forall x :: x in g[first].children ==> x in r
  {
    CollectFrom(g, first, Hops(g, depth))
  }

  function CollectFrom(g: Graph, first: int, d: nat): (r: seq<int>)
    requires WfGraph(g) && 0 <= first < |g|
    ensures Sorted(r)
    ensures forall x :: x in r ==> 0 <= x < |g|
    decreases d, 0
  {
    var below := if d == 0 then [] else CollectList(g, g[first].children, d - 1);
    Union(g[first].children, below)
  }

  /** The union of `CollectFrom(c, d)` over the children `cs`, in order. */
  function CollectList(g: Graph, cs: seq<int>, d: nat): (r: seq<int>)
    requires WfGraph(g) && InRange(g, cs)
    ensures Sorted(r)
    ensures forall x :: x in r ==> 0 <= x < |g|
    decreases d, |cs|
  {
    if |cs| == 0 then [] else Union(CollectFrom(g, cs[0], d), CollectList(g, cs[1..], d))
  }

  lemma {:induction false} CollectListMembers(g: Graph, cs: seq<int>, d: nat, x: int)
    requires WfGraph(g) && InRange(g, cs)
    ensures x in CollectList(g, cs, d) <==> exists i :: 0 <= i < |cs| && x in CollectFrom(g, cs[i], d)
    decreases |cs|
  {
    if |cs| > 0 {
      CollectListMembers(g, cs[1..], d, x);
      if x in CollectList(g, cs[1..], d) {
        var i :| 0 <= i < |cs[1..]| && x in CollectFrom(g, cs[1..][i], d);
        assert cs[1..][i] == cs[i + 1];
      }
      if exists i :: 0 <= i < |cs| && x in CollectFrom(g, cs[i], d) {
        var i :| 0 <= i < |cs| && x in CollectFrom(g, cs[i], d);
        if i > 0 {
          assert cs[i] == cs[1..][i - 1];
        }
      }
    }
  }

  /** `b` is a child of node `a`. */
  predicate IsEdge(g: Graph, a: int, b: int) {
    0 <= a < |g| && b in g[a].children
  }

  /** A walk along child edges, one node after the other. */
  predicate IsChildPath(g: Graph, p: seq<int>) {
    && |p| >= 1
    && (forall i :: 0 <= i < |p| ==> 0 <= p[i] < |g|)
    && (forall i :: 0 <= i < |p| - 1 ==> IsEdge(g, p[i], p[i + 1]))
  }

  /** `CollectFrom(first, d)` is exactly the set of nodes reached from `first`
      by a walk of 1 to d+1 child edges. */
  lemma CollectFromIsBoundedReach(g: Graph, first: int, d: nat, x: int)
    requires WfGraph(g) && 0 <= first < |g|
    ensures x in CollectFrom(g, first, d) <==>
      exists p :: IsChildPath(g, p) && p[0] == first && p[|p| - 1] == x && 2 <= |p| <= d + 2
  {
    if x in CollectFrom(g, first, d) {
      var p := CollectedHasPath(g, first, d, x);
    }
    if exists p :: IsChildPath(g, p) && p[0] == first && p[|p| - 1] == x && 2 <= |p| <= d + 2 {
      var p :| IsChildPath(g, p) && p[0] == first && p[|p| - 1] == x && 2 <= |p| <= d + 2;
      PathIsCollected(g, first, d, p);
    }
  }

  /** One level of `CollectFrom`: a child, or collected below a child. */
  lemma CollectFromUnfold(g: Graph, first: int, d: nat, x: int)
    requires WfGraph(g) && 0 <= first < |g|
    ensures x in CollectFrom(g, first, d) <==>
      x in g[first].children ||
      (d > 0 && exists i :: 0 <= i < |g[first].children| && x in CollectFrom(g, g[first].children[i], d - 1))
  {
    var cs := g[first].children;
    assert InRange(g, cs);
    if d > 0 {
      assert x in CollectFrom(g, first, d) <==> x in cs || x in CollectList(g, cs, d - 1);
      CollectListMembers(g, cs, d - 1, x);
    }
  }

  lemma {:induction false} CollectedHasPath(g: Graph, first: int, d: nat, x: int) returns (p: seq<int>)
    requires WfGraph(g) && 0 <= first < |g|
    requires x in CollectFrom(g, first, d)
    ensures IsChildPath(g, p) && p[0] == first && p[|p| - 1] == x && 2 <= |p| <= d + 2
    decreases d
  {
    if x in g[first].children {
      p := EdgePath(g, first, x);
    } else {
      var c := CollectedBelowChild(g, first, d, x);
      var q := CollectedHasPath(g, c, d - 1, x);
      p := ConsPath(g, first, q);
    }
  }

  /** A collected node that is not a direct child was collected below one. */
  lemma CollectedBelowChild(g: Graph, first: int, d: nat, x: int) returns (c: int)
    requires WfGraph(g) && 0 <= first < |g|
    requires x in CollectFrom(g, first, d) && x !in g[first].children
    ensures d > 0 && c in g[first].children && 0 <= c < |g| && x in CollectFrom(g, c, d - 1)
  {
    CollectFromUnfold(g, first, d, x);
    var cs := g[first].children;
    assert InRange(g, cs);
    var i :| 0 <= i < |cs| && x in CollectFrom(g, cs[i], d - 1);
    c := cs[i];
  }

  /** The one-edge walk from a node to one of its children. */
  lemma EdgePath(g: Graph, first: int, x: int) returns (p: seq<int>)
    requires WfGraph(g) && 0 <= first < |g| && x in g[first].children
    ensures IsChildPath(g, p) && p[0] == first && p[|p| - 1] == x && |p| == 2
  {
    assert InRange(g, g[first].children);
    p := [first, x];
    assert IsEdge(g, p[0], p[1]);
  }

  /** Prepending a parent to a walk that starts at one of its children. */
  lemma ConsPath(g: Graph, first: int, q: seq<int>) returns (p: seq<int>)
    requires 0 <= first < |g| && IsChildPath(g, q) && q[0] in g[first].children
    ensures IsChildPath(g, p) && p[0] == first && p[|p| - 1] == q[|q| - 1] && |p| == |q| + 1
  {
    p := [first] + q;
    forall k | 0 <= k < |p| - 1
      ensures IsEdge(g, p[k], p[k + 1])
    {
      if k > 0 {
        assert p[k] == q[k - 1] && p[k + 1] == q[k];
      }
    }
  }

  lemma TailPath(g: Graph, p: seq<int>)
    requires IsChildPath(g, p) && |p| >= 2
    ensures IsChildPath(g, p[1..])
  {
    var q := p[1..];
    forall k | 0 <= k < |q| - 1
      ensures IsEdge(g, q[k], q[k + 1])
    {
      assert q[k] == p[k + 1] && q[k + 1] == p[k + 2];
    }
  }

  lemma {:induction false} PathIsCollected(g: Graph, first: int, d: nat, p: seq<int>)
    requires WfGraph(g) && 0 <= first < |g|
    requires IsChildPath(g, p) && p[0] == first && 2 <= |p| <= d + 2
    ensures p[|p| - 1] in CollectFrom(g, first, d)
    decreases d
  {
    assert IsEdge(g, p[0], p[1]);
    if |p| == 2 {
      CollectChild(g, first, d, p[1]);
    } else {
      var q := p[1..];
      TailPath(g, p);
      PathIsCollected(g, q[0], d - 1, q);
      assert q[|q| - 1] == p[|p| - 1];
      CollectBelowChild(g, first, d, q[0], p[|p| - 1]);
    }
  }

  lemma CollectChild(g: Graph, first: int, d: nat, x: int)
    requires WfGraph(g) && 0 <= first < |g| && x in g[first].children
    ensures x in CollectFrom(g, first, d)
  {
  }

  lemma CollectBelowChild(g: Graph, first: int, d: nat, c: int, x: int)
    requires WfGraph(g) && 0 <= first < |g| && d > 0
    requires c in g[first].children && 0 <= c < |g| && x in CollectFrom(g, c, d - 1)
    ensures x in CollectFrom(g, first, d)
  {
    var cs := g[first].children;
    var i :| 0 <= i < |cs| && cs[i] == c;
    CollectFromUnfold(g, first, d, x);
  }

  /** A rank that strictly decreases along every child edge witnesses that
      the child relation is acyclic. */
  predicate Ranked(g: Graph, rank: seq<nat>) {
    && |rank| == |g|
    && (forall i :: 0 <= i < |g| ==> rank[i] < |g|)
    && (forall i, c :: 0 <= i < |g| && c in g[i].children && 0 <= c < |g| ==> rank[c] < rank[i])
  }

  lemma {:induction false} RankBoundsPath(g: Graph, rank: seq<nat>, p: seq<int>)
    requires Ranked(g, rank) && IsChildPath(g, p)
    ensures rank[p[0]] >= rank[p[|p| - 1]] + |p| - 1
    decreases |p|
  {
    if |p| > 1 {
      var q := p[1..];
      TailPath(g, p);
      RankBoundsPath(g, rank, q);
      assert IsEdge(g, p[0], p[1]);
    }
  }

  /** On an acyclic graph, collecting beyond the rank of `first` adds nothing:
      the bounded model of a negative gap is the whole descendant relation,
      which is what the original's unbounded recursion computes there. */
  lemma CollectStable(g: Graph, rank: seq<nat>, first: int, d: nat, x: int)
    requires WfGraph(g) && Ranked(g, rank) && 0 <= first < |g|
    requires d >= rank[first]
    ensures x in CollectFrom(g, first, d) <==>
      exists p :: IsChildPath(g, p) && p[0] == first && p[|p| - 1] == x && |p| >= 2
  {
    CollectFromIsBoundedReach(g, first, d, x);
    if exists p :: IsChildPath(g, p) && p[0] == first && p[|p| - 1] == x && |p| >= 2 {
      var p :| IsChildPath(g, p) && p[0] == first && p[|p| - 1] == x && |p| >= 2;
      RankBoundsPath(g, rank, p);
    }
  }

  /** The node values of a sequence, as a set. */
  function Values(s: seq<int>): set<int> {
    set k | 0 <= k < |s| :: s[k]
  }

  lemma {:induction false} DistinctCard(s: seq<int>)
    requires forall i, j :: 0 <= i < j < |s| ==> s[i] != s[j]
    ensures |Values(s)| == |s|
    decreases |s|
  {
    if |s| > 0 {
      var front := s[..|s| - 1];
      DistinctCard(front);
      assert Values(s) == Values(front) + {s[|s| - 1]};
      assert s[|s| - 1] !in Values(front);
    }
  }

  lemma SubsetCard(a: set<int>, b: set<int>)
    requires a <= b
    ensures |a| <= |b|
  {
    assert b == a + (b - a);
  }

  /** A sequence of more than `n` values below `n` repeats one of them. */
  lemma Pigeonhole(s: seq<int>, n: nat)
    requires forall k :: 0 <= k < |s| ==> 0 <= s[k] < n
    requires |s| > n
    ensures exists i, j :: 0 <= i < j < |s| && s[i] == s[j]
  {
    if forall i, j :: 0 <= i < j < |s| ==> s[i] != s[j] {
      var below := seq(n, i => i);
      DistinctCard(s);
      DistinctCard(below);
      assert forall k :: 0 <= k < |s| ==> s[k] == below[s[k]];
      SubsetCard(Values(s), Values(below));
      assert false;
    }
  }

  /** A walk that visits more nodes than the graph has contains a cycle, and
      cutting cycles out leaves a walk between the same ends with at most
      |g| edges. */
  lemma {:induction false} ShortenPath(g: Graph, p: seq<int>) returns (q: seq<int>)
    requires IsChildPath(g, p) && |p| >= 2
    ensures IsChildPath(g, q) && q[0] == p[0] && q[|q| - 1] == p[|p| - 1]
    ensures 2 <= |q| <= |g| + 1
    decreases |p|
  {
    if |p| <= |g| + 1 {
      q := p;
    } else {
      var t := p[1..];
      Pigeonhole(t, |g|);
      var i, j :| 0 <= i < j < |t| && t[i] == t[j];
      var r := p[..i + 1] + p[j + 1..];
      assert p[i + 1] == p[j + 1];
      forall k | 0 <= k < |r|
        ensures 0 <= r[k] < |g|
        ensures k <= i ==> r[k] == p[k]
        ensures k > i ==> r[k] == p[k + j - i]
      {
      }
      forall k | 0 <= k < |r| - 1
        ensures IsEdge(g, r[k], r[k + 1])
      {
        if k < i {
          assert IsEdge(g, p[k], p[k + 1]);
        } else if k == i {
          assert IsEdge(g, p[i], p[i + 1]);
        } else {
          assert IsEdge(g, p[k + j - i], p[k + j - i + 1]);
        }
      }
      q := ShortenPath(g, r);
    }
  }

  /** With a negative gap the model collects exactly the nodes reachable
      from `first` by a walk of any length, on every graph, cyclic or not. */
  lemma NegativeGapIsReach(g: Graph, first: int, depth: int, x: int)
    requires WfGraph(g) && 0 <= first < |g| && depth < 0
    ensures x in CollectAllChilds(g, first, depth) <==>
      exists p :: IsChildPath(g, p) && p[0] == first && p[|p| - 1] == x && |p| >= 2
  {
    CollectFromIsBoundedReach(g, first, |g|, x);
    if exists p :: IsChildPath(g, p) && p[0] == first && p[|p| - 1] == x && |p| >= 2 {
      var p :| IsChildPath(g, p) && p[0] == first && p[|p| - 1] == x && |p| >= 2;
      var q := ShortenPath(g, p);
      assert IsChildPath(g, q) && q[0] == first && q[|q| - 1] == x && 2 <= |q| <= |g| + 2;
    }
  }

  /** `collectAllChilds` as written, with its recursion cut off after `fuel`
      nested calls: `None` when the recursion goes deeper than that. */
  function CollectAsWritten(g: Graph, first: int, depth: int, fuel: nat): Option<seq<int>>
    requires WfGraph(g) && 0 <= first < |g|
    decreases fuel, 0
  {
    if fuel == 0 then None
    else if depth == 0 then Some(g[first].children)
    else
      match CollectKidsAsWritten(g, g[first].children, depth - 1, fuel - 1)
      case None => None
      case Some(below) => Some(Union(g[first].children, below))
  }

  /** The loop of `collectAllChilds` over the children `cs`. */
  function CollectKidsAsWritten(g: Graph, cs: seq<int>, depth: int, fuel: nat): Option<seq<int>>
    requires WfGraph(g) && InRange(g, cs)
    decreases fuel, 1, |cs|
  {
    if |cs| == 0 then Some([])
    else
      match CollectAsWritten(g, cs[0], depth, fuel)
      case None => None
      case Some(here) =>
        match CollectKidsAsWritten(g, cs[1..], depth, fuel)
        case None => None
        case Some(rest) => Some(Union(here, rest))
  }

  /** With a non-negative depth the recursion as written finishes within
      depth + 1 nested calls and collects what the model collects. */
  lemma {:induction false} CollectAsWrittenFinishes(g: Graph, first: int, d: nat, fuel: nat)
    requires WfGraph(g) && 0 <= first < |g| && fuel > d
    ensures CollectAsWritten(g, first, d, fuel) == Some(CollectAllChilds(g, first, d))
    decreases d, 0
  {
    if d == 0 {
      SortedUnique(g[first].children, CollectFrom(g, first, 0));
    } else {
      KidsAsWrittenFinish(g, g[first].children, d - 1, fuel - 1);
    }
  }

  lemma {:induction false} KidsAsWrittenFinish(g: Graph, cs: seq<int>, d: nat, fuel: nat)
    requires WfGraph(g) && InRange(g, cs) && fuel > d
    ensures CollectKidsAsWritten(g, cs, d, fuel) == Some(CollectList(g, cs, d))
    decreases d, 1, |cs|
  {
    if |cs| > 0 {
      CollectAsWrittenFinishes(g, cs[0], d, fuel);
      KidsAsWrittenFinish(g, cs[1..], d, fuel);
    }
  }

  /** Two nodes, each the other's child: what every edge of an undirected
      graph becomes once both directions are stored. */
  function TwoCycle(): (g: Graph)
    ensures WfGraph(g) && |g| == 2
  {
    [Node([0], [1], 0), Node([0], [0], 0)]
  }

  /** With a negative gap the recursion as written never finishes on two
      nodes that are each other's child, however deep it is allowed to go. */
  lemma {:induction false} NegativeGapNeverFinishes(first: int, depth: int, fuel: nat)
    requires 0 <= first < 2 && depth < 0
    ensures CollectAsWritten(TwoCycle(), first, depth, fuel) == None
    decreases fuel
  {
    if fuel > 0 {
      var g := TwoCycle();
      var c := 1 - first;
      assert g[first].children == [c];
      NegativeGapNeverFinishes(c, depth - 1, fuel - 1);
      assert CollectKidsAsWritten(g, [c], depth - 1, fuel - 1) == None;
    }
  }

  /** `isAncestor(listNodes, first, second, maxGap)`. */
  function IsAncestor(g: Graph, first: int, second: int, maxGap: int): (r: bool)
    requires WfGraph(g) && 0 <= first < |g|
    ensures r <==> second in CollectAllChilds(g, first, maxGap)
    ensures r <==> exists p :: IsChildPath(g, p) && p[0] == first && p[|p| - 1] == second
                               && 2 <= |p| <= Hops(g, maxGap) + 2
    ensures maxGap < 0 ==>
      (r <==> exists p :: IsChildPath(g, p) && p[0] == first && p[|p| - 1] == second && |p| >= 2)
  {
    CollectFromIsBoundedReach(g, first, Hops(g, maxGap), second);
    NegativeGapIsReach(g, first, -1, second);
    if maxGap == 0 then second in g[first].children
    else second in CollectAllChilds(g, first, maxGap)
  }
}
