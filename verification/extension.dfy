/** The extension phase of `extendFirstCandidate` (aadage.cpp 1325-1360 and
    1427-1742): every occurrence of the popped code proposes codes with one
    more item in the last label set, one more step below the last node, or
    one more step as a sibling further up the rightmost path. Each proposal
    appends an occurrence to a pending entry. */
module Extension {
  import opened IntSets
  import opened Settings
  import opened Graphs
  import opened Codes
  import opened Canonical
  import opened Embeddings
  import opened Store
  import opened Options

  /** The input: one graph per source tree; graph ids index it. */
  type Db = seq<Graph>

  predicate WfDb(db: Db) {
    forall t :: 0 <= t < |db| ==> WfGraph(db[t])
  }

  predicate InDb(db: Db, t: int, n: int) {
    0 <= t < |db| && 0 <= n < |db[t]|
  }

  /** `listNodes[t][n]`. An index outside the input, which no occurrence the
      engine builds holds, reads an empty node. */
  function NodeAt(db: Db, t: int, n: int): (r: Node)
    ensures InDb(db, t, n) ==> r == db[t][n]
    ensures !InDb(db, t, n) ==> !IsFrequent(r)
  {
    if InDb(db, t, n) then db[t][n] else DefaultNode()
  }

  /** `collectAllChilds(listNodes[t], n, gap)` on an empty set. */
  function Reach(db: Db, t: int, n: int, gap: int): (r: seq<int>)
    ensures Sorted(r)
    ensures InDb(db, t, n) && WfGraph(db[t]) ==> r == CollectAllChilds(db[t], n, gap)
    ensures !(InDb(db, t, n) && WfGraph(db[t])) ==> r == []
  {
    if InDb(db, t, n) && WfGraph(db[t]) then CollectAllChilds(db[t], n, gap) else []
  }

  /** The nodes an extension below node `n` tries: its children, or with a
      gap every node within the gap. */
  function Kids(cfg: Config, db: Db, t: int, n: int): (r: seq<int>)
    ensures Sorted(r) || cfg.maximumGap == 0
  {
    if cfg.maximumGap != 0 then Reach(db, t, n, cfg.maximumGap)
    else if InDb(db, t, n) then db[t][n].children
    else []
  }

  /** The nodes tried below `n` are exactly the nodes `isAncestor(n, x,
      maximumGap)` accepts. */
  lemma KidsAreDescendants(cfg: Config, db: Db, t: int, n: int, x: int)
    requires WfDb(db) && InDb(db, t, n)
    ensures x in Kids(cfg, db, t, n) <==> IsAncestor(db[t], n, x, cfg.maximumGap)
  {
    if cfg.maximumGap == 0 {
      assert CollectAllChilds(db[t], n, 0) == CollectFrom(db[t], n, 0);
    }
  }

  /** The first index of `x` in `s`: the loop at aadage.cpp 1475-1480. */
  function FirstIndex(s: seq<int>, x: int): (i: nat)
    requires x in s
    ensures i < |s| && s[i] == x && forall j :: 0 <= j < i ==> s[j] != x
  {
    if s[0] == x then 0 else 1 + FirstIndex(s[1..], x)
  }

  /** What the extension phase works from: the run configuration, the input,
      the popped code and its (reduced) occurrence list. */
  datatype Origin = Origin(cfg: Config, db: Db, top: Code, values: seq<Embedding>)

  /** Every occurrence matches one node per step of the popped code. */
  predicate Shaped(o: Origin) {
    |o.top| > 0 && forall j :: 0 <= j < |o.values| ==> |o.values[j].path| == |o.top|
  }

  /** The occurrence `e` and code `code` come from occurrence `v` by a
      structural extension: a frequent node `x` within reach of the node
      matched at some step `p` is appended, one level below step `p`. When
      `x` is already on the path the new step is the back-edge to its first
      index; otherwise its label set is one label of `x`, and outside
      ordered search the code is not rejected by `isCanonical`. */
  ghost predicate Attached(cfg: Config, db: Db, top: Code, v: Embedding, code: Code, e: Embedding) {
    && |v.path| == |top|
    && |code| == |top| + 1 && code[..|top|] == top
    && |e.path| == |v.path| + 1 && e == Extend(v, e.path[|v.path|])
    && var x := e.path[|v.path|];
       var s := code[|top|];
       && IsFrequent(NodeAt(db, v.tree, x))
       && (exists p :: 0 <= p < |top| && s.depth == top[p].depth + 1 && x in Kids(cfg, db, v.tree, v.path[p]))
       && (x in v.path ==> s == BackEdgeStep(FirstIndex(v.path, x), s.depth))
       && (x !in v.path ==>
             && |s.labels| == 1 && s.labels[0] in NodeAt(db, v.tree, x).labels
             && (!cfg.orderedSearch ==> IsCanonical(code) != 1))
  }

  /** A back-edge step added for a node already on the path decodes to the
      first position that node occupies, which lies before the new step; so
      a code whose back-edges all point back keeps that property. */
  lemma BackEdgeFindsNode(cfg: Config, db: Db, top: Code, v: Embedding, code: Code, e: Embedding)
    requires Attached(cfg, db, top, v, code, e) && e.path[|v.path|] in v.path
    ensures IsBackEdge(code[|top|])
    ensures 0 <= Target(code[|top|]) < |top| && v.path[Target(code[|top|])] == e.path[|v.path|]
    ensures BackEdgesPointBack(top) ==> BackEdgesPointBack(code)
  {
    var x := e.path[|v.path|];
    var i := FirstIndex(v.path, x);
    AppendBackEdge(top, code, i, code[|top|].depth);
  }

  lemma AppendBackEdge(top: Code, code: Code, i: nat, d: int)
    requires |code| == |top| + 1 && code[..|top|] == top && i < |top|
    requires code[|top|] == BackEdgeStep(i, d)
    ensures IsBackEdge(code[|top|]) && Target(code[|top|]) == i
    ensures BackEdgesPointBack(top) ==> BackEdgesPointBack(code)
  {
    BackEdgeRoundTrip(i, d);
    if BackEdgesPointBack(top) {
      forall k | 0 <= k < |code| && IsBackEdge(code[k])
        ensures 0 <= Target(code[k]) < k
      {
        if k < |top| {
          assert code[k] == code[..|top|][k];
        }
      }
    }
  }

  /** `l` exceeds every label of `s` (`l > *s.rbegin()` on a non-empty set). */
  predicate Above(s: seq<int>, l: int) {
    forall y :: y in s ==> y < l
  }

  /** The code with `l` added to the last label set. */
  function ItemsetCode(top: Code, l: int): (r: Code)
    requires |top| > 0
    ensures |r| == |top| && r[..|top| - 1] == top[..|top| - 1]
    ensures r[|top| - 1].depth == top[|top| - 1].depth
  {
    var last := top[|top| - 1];
    top[..|top| - 1] + [Step(last.labels + [l], last.depth)]
  }

  /** For a label above the last set, appending is `std::set::insert`. */
  lemma ItemsetCodeInserts(top: Code, l: int)
    requires |top| > 0 && Sorted(top[|top| - 1].labels) && Above(top[|top| - 1].labels, l)
    ensures ItemsetCode(top, l)[|top| - 1].labels == Insert(top[|top| - 1].labels, l)
  {
    InsertAboveMax(top[|top| - 1].labels, l);
  }

  /** The occurrence `e` and code `code` come from occurrence `v` by an
      itemset extension: its last node carries more than one label, one of
      them, above the last label set, is added to that set, and the
      occurrence is copied unchanged. */
  ghost predicate Itemized(db: Db, top: Code, v: Embedding, code: Code, e: Embedding) {
    && |top| > 0 && |v.path| == |top|
    && e == NewEmbedding(v.tree, v.path)
    && var node := NodeAt(db, v.tree, v.path[|v.path| - 1]);
       && |node.labels| > 1
       && exists l :: l in node.labels && Above(top[|top| - 1].labels, l) && code == ItemsetCode(top, l)
  }

  /** The pairs the extension phase may add to the pending map. */
  ghost predicate Generated(o: Origin, code: Code, e: Embedding) {
    || (exists v :: v in o.values && Attached(o.cfg, o.db, o.top, v, code, e))
    || (exists v :: v in o.values && Itemized(o.db, o.top, v, code, e))
  }

  /** A generated code has one step more, or the same steps with a grown
      last label set; a generated occurrence matches one node per step. */
  lemma GeneratedShape(o: Origin, code: Code, e: Embedding)
    requires Shaped(o) && Generated(o, code, e)
    ensures |code| == |o.top| + 1 || |code| == |o.top|
    ensures |e.path| == |code|
  {
  }

  /** Generation from fewer occurrences is generation from more. */
  lemma GeneratedWiden(o: Origin, values: seq<Embedding>, code: Code, e: Embedding)
    requires Generated(o, code, e)
    requires forall v :: v in o.values ==> v in values
    ensures Generated(o.(values := values), code, e)
  {
  }

  /** Record `b` is record `a` with generated occurrences appended. */
  ghost predicate Extends(a: CandidateInfo, b: CandidateInfo, o: Origin, k: Code) {
    && b.(subtrees := a.subtrees) == a
    && |a.subtrees| <= |b.subtrees| && b.subtrees[..|a.subtrees|] == a.subtrees
    && forall j :: |a.subtrees| <= j < |b.subtrees| ==> Generated(o, k, b.subtrees[j])
  }

  /** Pending map `p` is `p0` with generated occurrences appended, and
      nothing else changed; a new entry holds at least one occurrence. */
  ghost predicate PendingGrows(p0: seq<Entry>, p: seq<Entry>, o: Origin) {
    && Keys(p0) <= Keys(p)
    && (forall k :: k in Keys(p) && k !in Keys(p0) ==> |Get(p, k).subtrees| > 0)
    && forall k :: Extends(Get(p0, k), Get(p, k), o, k)
  }

  /** Store `c` is `c0` with its pending map grown; the worklist and the
      accepted map are untouched. */
  ghost predicate Grows(c0: Candidates, c: Candidates, o: Origin) {
    && Valid(c) && c.worklist == c0.worklist && c.accepted == c0.accepted
    && PendingGrows(c0.pending, c.pending, o)
  }

  lemma GrowsRefl(c: Candidates, o: Origin)
    requires Valid(c)
    ensures Grows(c, c, o)
  {
    forall k
      ensures Extends(Get(c.pending, k), Get(c.pending, k), o, k)
    {
      var a := Get(c.pending, k);
      assert a.subtrees[..|a.subtrees|] == a.subtrees;
    }
  }

  /** Appending one generated occurrence to a grown record keeps it grown. */
  lemma ExtendsSnoc(a: CandidateInfo, b: CandidateInfo, o: Origin, k: Code, e: Embedding)
    requires Extends(a, b, o, k) && Generated(o, k, e)
    ensures Extends(a, b.(subtrees := b.subtrees + [e]), o, k)
  {
    var b' := b.(subtrees := b.subtrees + [e]);
    assert b'.subtrees[..|a.subtrees|] == b.subtrees[..|a.subtrees|];
    forall j | |a.subtrees| <= j < |b'.subtrees|
      ensures Generated(o, k, b'.subtrees[j])
    {
      if j < |b.subtrees| {
        assert b'.subtrees[j] == b.subtrees[j];
      }
    }
  }

  /** Adding one generated occurrence keeps the store a growth of `c0`. */
  lemma GrowsAdd(c0: Candidates, c: Candidates, o: Origin, code: Code, e: Embedding)
    requires Grows(c0, c, o) && Generated(o, code, e)
    ensures Grows(c0, AddNewCandidate(c, code, e), o)
  {
    var r := AddNewCandidate(c, code, e);
    ExtendsSnoc(Get(c0.pending, code), Get(c.pending, code), o, code, e);
    forall k
      ensures Extends(Get(c0.pending, k), Get(r.pending, k), o, k)
    {
      if k != code {
        assert Get(r.pending, k) == Get(c.pending, k);
      }
    }
  }

  lemma {:induction false} PendingGrowsTrans(p0: seq<Entry>, p1: seq<Entry>, p2: seq<Entry>, o: Origin)
    requires PendingGrows(p0, p1, o) && PendingGrows(p1, p2, o)
    ensures PendingGrows(p0, p2, o)
  {
    forall k
      ensures Extends(Get(p0, k), Get(p2, k), o, k)
    {
      var a := Get(p0, k);
      var b := Get(p1, k);
      var d := Get(p2, k);
      assert Extends(a, b, o, k) && Extends(b, d, o, k);
      assert d.subtrees[..|a.subtrees|] == d.subtrees[..|b.subtrees|][..|a.subtrees|];
      forall j | |a.subtrees| <= j < |d.subtrees|
        ensures Generated(o, k, d.subtrees[j])
      {
        if j < |b.subtrees| {
          assert d.subtrees[j] == b.subtrees[j];
        }
      }
    }
    forall k | k in Keys(p2) && k !in Keys(p0)
      ensures |Get(p2, k).subtrees| > 0
    {
      if k in Keys(p1) {
        assert |Get(p1, k).subtrees| > 0;
        assert Extends(Get(p1, k), Get(p2, k), o, k);
      }
    }
  }

  lemma GrowsTrans(c0: Candidates, c1: Candidates, c2: Candidates, o: Origin)
    requires Grows(c0, c1, o) && Grows(c1, c2, o)
    ensures Grows(c0, c2, o)
  {
    PendingGrowsTrans(c0.pending, c1.pending, c2.pending, o);
  }

  /** Adding node `x` below the node matched at step `p` of occurrence `i`
      (aadage.cpp 1475-1551 and 1660-1737): a back-edge when `x` is already
      on the path, otherwise one code per label of `x`. Outside ordered
      search a label below `bound` (the lead label of the last child, for
      sibling extensions) and a code `isCanonical` rejects are skipped. */
  method AddChild(o: Origin, i: int, p: int, x: int, bound: Option<int>, c0: Candidates)
    returns (c: Candidates)
    requires Valid(c0) && Shaped(o) && 0 <= i < |o.values| && 0 <= p < |o.top|
    requires x in Kids(o.cfg, o.db, o.values[i].tree, o.values[i].path[p])
    requires IsFrequent(NodeAt(o.db, o.values[i].tree, x))
    ensures Grows(c0, c, o)
  {
    var v := o.values[i];
    var depth := o.top[p].depth + 1;
    var e := Extend(v, x);
    assert e.path[|v.path|] == x;
    GrowsRefl(c0, o);
    if x in v.path {
      var code := o.top + [BackEdgeStep(FirstIndex(v.path, x), depth)];
      assert code[..|o.top|] == o.top;
      assert Attached(o.cfg, o.db, o.top, v, code, e);
      GrowsAdd(c0, c0, o, code, e);
      return AddNewCandidate(c0, code, e);
    }
    var labels := NodeAt(o.db, v.tree, x).labels;
    c := c0;
    var j := 0;
    while j < |labels|
      invariant 0 <= j <= |labels| && Grows(c0, c, o)
    {
      var l := labels[j];
      var code := o.top + [Step([l], depth)];
      var belowBound := bound.Some? && l < bound.value;
      if o.cfg.orderedSearch || (!belowBound && IsCanonical(code) != 1) {
        assert code[..|o.top|] == o.top;
        assert Attached(o.cfg, o.db, o.top, v, code, e);
        GrowsAdd(c0, c, o, code, e);
        c := AddNewCandidate(c, code, e);
      }
      j := j + 1;
    }
  }

  /** Path position `q` is the nearest one at or below `pp` whose reach
      contains the last node of the path. */
  predicate NearestParent(cfg: Config, db: Db, v: Embedding, pp: int, q: int)
    requires 0 < |v.path| && pp < |v.path|
  {
    0 <= q <= pp && v.path[|v.path| - 1] in Kids(cfg, db, v.tree, v.path[q])
    && forall q' :: q < q' <= pp ==> v.path[|v.path| - 1] !in Kids(cfg, db, v.tree, v.path[q'])
  }

  /** The loop of aadage.cpp 1449-1454: `parentPos` counts down from `pp`
      until its node's reach contains the last node. */
  function ParentPos(cfg: Config, db: Db, v: Embedding, pp: int): (r: Option<nat>)
    requires 0 < |v.path| && pp < |v.path|
    ensures r.Some? ==> NearestParent(cfg, db, v, pp, r.value)
    ensures r.None? ==> forall q :: 0 <= q <= pp ==> v.path[|v.path| - 1] !in Kids(cfg, db, v.tree, v.path[q])
    decreases pp + 1
  {
    if pp < 0 then None
    else if v.path[|v.path| - 1] in Kids(cfg, db, v.tree, v.path[pp]) then Some(pp)
    else ParentPos(cfg, db, v, pp - 1)
  }

  /** The undirected-graph parent search (aadage.cpp 1443-1452): the node of
      the nearest path position at or below `pp` whose reach contains the
      last node. The original runs past index 0 when there is none; the
      model then excludes nothing. */
  function ParentInPath(cfg: Config, db: Db, v: Embedding, pp: int): (r: Option<int>)
    requires 0 < |v.path| && pp < |v.path|
    ensures r.Some? ==> exists q :: (0 <= q <= pp && r.value == v.path[q]
      && v.path[|v.path| - 1] in Kids(cfg, db, v.tree, v.path[q])
      && forall q' :: q < q' <= pp ==> v.path[|v.path| - 1] !in Kids(cfg, db, v.tree, v.path[q']))
    ensures r.None? ==> forall q :: 0 <= q <= pp ==> v.path[|v.path| - 1] !in Kids(cfg, db, v.tree, v.path[q])
  {
    var q := ParentPos(cfg, db, v, pp);
    if q.Some? then Some(v.path[q.value]) else None
  }

  /** The descendant extension of occurrence `i` (aadage.cpp 1431-1555):
      only when extension of the last node is allowed, the last node does
      not occur earlier on the path, and the size bound is not reached. */
  method ExtendDescendants(o: Origin, i: int, extAllowed: bool, c0: Candidates) returns (c: Candidates)
    requires Valid(c0) && Shaped(o) && 0 <= i < |o.values|
    ensures Grows(c0, c, o)
  {
    GrowsRefl(c0, o);
    c := c0;
    var v := o.values[i];
    var size := |v.path|;
    var n := v.path[size - 1];
    var canAddDescendant := n !in v.path[..size - 1];
    var excluded: set<int> := {};
    if o.cfg.undirectedGraph && size >= 2 {
      var parentPos := ParentPos(o.cfg, o.db, v, size - 2);
      if parentPos.Some? {
        excluded := {v.path[parentPos.value]};
      }
    }
    if extAllowed && canAddDescendant && (o.cfg.maxDepth == -1 || size < o.cfg.maxDepth) {
      var kids := Kids(o.cfg, o.db, v.tree, n);
      var k := 0;
      while k < |kids|
        invariant 0 <= k <= |kids| && Grows(c0, c, o)
      {
        var x := kids[k];
        if x !in excluded && IsFrequent(NodeAt(o.db, v.tree, x)) {
          var c1 := AddChild(o, i, size - 1, x, None, c);
          GrowsTrans(c0, c, c1, o);
          c := c1;
        }
        k := k + 1;
      }
    }
  }

  /** The unordered-search test of aadage.cpp 1611-1633: `x` is neither a
      child already matched below step `pp` nor, with a gap, above one. */
  predicate InsertionPossible(o: Origin, v: Embedding, pp: int, lcp: int, x: int)
    requires |v.path| == |o.top| && 0 <= pp < lcp < |o.top|
  {
    forall j :: pp < j <= lcp && o.top[j].depth == o.top[pp].depth + 1 ==>
      && x != v.path[j]
      && (o.cfg.maximumGap != 0 ==> v.path[j] !in Reach(o.db, v.tree, x, o.cfg.maximumGap))
  }

  /** One parent of the sibling extension (aadage.cpp 1582-1736): every
      frequent, not excluded node within reach of the node matched at `pp`
      that passes the unordered-search test is added one level below `pp`.
      With a gap, the reach of the node after `pp` joins the excluded set
      as soon as the first candidate passes the exclusion test. */
  method SiblingsAt(o: Origin, i: int, pp: int, lcp: int, excluded0: set<int>, c0: Candidates)
    returns (c: Candidates, excluded: set<int>)
    requires Valid(c0) && Shaped(o) && 0 <= i < |o.values| && 0 <= pp < lcp < |o.top|
    ensures Grows(c0, c, o)
    ensures excluded0 <= excluded
  {
    GrowsRefl(c0, o);
    c := c0;
    excluded := excluded0;
    var v := o.values[i];
    var kids := Kids(o.cfg, o.db, v.tree, v.path[pp]);
    var k := 0;
    while k < |kids|
      invariant 0 <= k <= |kids| && Grows(c0, c, o) && excluded0 <= excluded
    {
      var x := kids[k];
      if x !in excluded {
        if o.cfg.maximumGap != 0 {
          excluded := excluded + Elems(Reach(o.db, v.tree, v.path[pp + 1], o.cfg.maximumGap));
        }
        if IsFrequent(NodeAt(o.db, v.tree, x)) && (o.cfg.orderedSearch || InsertionPossible(o, v, pp, lcp, x)) {
          var c1 := AddChild(o, i, pp, x, Some(Lead(o.top[lcp])), c);
          GrowsTrans(c0, c, c1, o);
          c := c1;
        }
      }
      k := k + 1;
    }
  }

  /** The sibling extension of occurrence `i` (aadage.cpp 1557-1742): the
      walk up the path from the last-but-one position. A position deeper
      than the last parent, or not above the last child, is only excluded
      and skipped; a parent that is used becomes the new last child. Paths
      shorter than two and sequence search skip it. */
  method ExtendSiblings(o: Origin, i: int, c0: Candidates) returns (c: Candidates)
    requires Valid(c0) && Shaped(o) && 0 <= i < |o.values|
    ensures Grows(c0, c, o)
  {
    GrowsRefl(c0, o);
    c := c0;
    var v := o.values[i];
    var top := o.top;
    var size := |v.path|;
    if size < 2 || o.cfg.sequenceSearch {
      return;
    }
    var pp := size - 2;
    var parentDepth := top[pp].depth;
    var lcp := size - 1;
    var excluded: set<int> := {};
    while pp >= 0
      invariant -1 <= pp < lcp < size && Grows(c0, c, o)
      decreases pp
    {
      excluded := excluded + {v.path[lcp]};
      if o.cfg.maximumGap != 0 {
        excluded := excluded + Elems(Reach(o.db, v.tree, v.path[pp + 1], o.cfg.maximumGap + 1));
      } else {
        excluded := excluded + {v.path[pp + 1]};
      }
      if top[pp].depth > parentDepth || top[pp].depth >= top[lcp].depth {
        excluded := excluded + {v.path[pp]};
        pp := pp - 1;
      } else {
        if o.cfg.undirectedGraph {
          excluded := excluded + {v.path[pp]};
        }
        var c1, _ := SiblingsAt(o, i, pp, lcp, excluded, c);
        GrowsTrans(c0, c, c1, o);
        c := c1;
        lcp := pp;
        pp := pp - 1;
        if pp >= 0 {
          parentDepth := top[pp].depth;
        }
        excluded := {};
      }
    }
  }

  /** The structural extension over all occurrences, each one first below
      its last node and then as siblings. */
  method ExtendStructure(o: Origin, extAllowed: bool, c0: Candidates) returns (c: Candidates)
    requires Valid(c0) && Shaped(o)
    ensures Grows(c0, c, o)
  {
    GrowsRefl(c0, o);
    c := c0;
    var i := 0;
    while i < |o.values|
      invariant 0 <= i <= |o.values| && Grows(c0, c, o)
    {
      var c1 := ExtendDescendants(o, i, extAllowed, c);
      var c2 := ExtendSiblings(o, i, c1);
      GrowsTrans(c, c1, c2, o);
      GrowsTrans(c0, c, c2, o);
      c := c2;
      i := i + 1;
    }
  }

  /** The itemset extension (aadage.cpp 1325-1360). The codes it touches are
      collected as supersets when closed itemsets are searched; each of them
      received at least one occurrence. */
  method ExtendItemsets(o: Origin, c0: Candidates) returns (c: Candidates, sups: set<Code>)
    requires Valid(c0) && Shaped(o)
    ensures Grows(c0, c, o)
    ensures forall s :: s in sups ==> |Get(c.pending, s).subtrees| > |Get(c0.pending, s).subtrees|
    ensures !o.cfg.closedItemsetSearch ==> sups == {}
  {
    GrowsRefl(c0, o);
    c := c0;
    sups := {};
    var top := o.top;
    var last := top[|top| - 1];
    var i := 0;
    while i < |o.values|
      invariant 0 <= i <= |o.values| && Grows(c0, c, o)
      invariant forall s :: s in sups ==> |Get(c.pending, s).subtrees| > |Get(c0.pending, s).subtrees|
      invariant !o.cfg.closedItemsetSearch ==> sups == {}
    {
      var v := o.values[i];
      var node := NodeAt(o.db, v.tree, v.path[|v.path| - 1]);
      if |node.labels| > 1 {
        var j := 0;
        while j < |node.labels|
          invariant 0 <= j <= |node.labels| && Grows(c0, c, o)
          invariant forall s :: s in sups ==> |Get(c.pending, s).subtrees| > |Get(c0.pending, s).subtrees|
          invariant !o.cfg.closedItemsetSearch ==> sups == {}
        {
          var l := node.labels[j];
          if Above(last.labels, l) {
            var code := ItemsetCode(top, l);
            var e := NewEmbedding(v.tree, v.path);
            assert Itemized(o.db, top, v, code, e);
            if o.cfg.closedItemsetSearch {
              sups := sups + {code};
            }
            GrowsAdd(c0, c, o, code, e);
            var c1 := AddNewCandidate(c, code, e);
            assert Extends(Get(c0.pending, code), Get(c.pending, code), o, code);
            c := c1;
          }
          j := j + 1;
        }
      }
      i := i + 1;
    }
  }
}
