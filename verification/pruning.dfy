/** Label pruning before the search (aadage.cpp 1830-1897): the labels whose
    support lies within the two bounds are collected, and every other label
    is erased from the nodes, which leaves a node without labels infrequent. */
module Pruning {
  import opened IntSets
  import opened Settings
  import opened Graphs

  /** Every node of `g` keeps its labels sorted, which is all the counting
      and the pruning rely on; unlike `WfGraph` it holds of every prefix. */
  predicate LabelsSorted(g: Graph) {
    forall i :: 0 <= i < |g| ==> Sorted(g[i].labels)
  }

  /** The number of nodes of `g` carrying `l`. */
  function NodesWith(g: Graph, l: int): nat
    decreases |g|
  {
    if |g| == 0 then 0
    else NodesWith(g[..|g| - 1], l) + (if l in g[|g| - 1].labels then 1 else 0)
  }

  lemma NodesWithSnoc(g: Graph, i: nat, l: int)
    requires i < |g|
    ensures NodesWith(g[..i + 1], l) == NodesWith(g[..i], l) + (if l in g[i].labels then 1 else 0)
  {
    assert g[..i + 1][..i] == g[..i];
  }

  /** The number of nodes carrying `l` over all graphs. */
  function Occurrences(db: seq<Graph>, l: int): nat
    decreases |db|
  {
    if |db| == 0 then 0
    else Occurrences(db[..|db| - 1], l) + NodesWith(db[|db| - 1], l)
  }

  /** The indices of the graphs that have a node carrying `l`. */
  function GraphsWith(db: seq<Graph>, l: int): set<int>
    decreases |db|
  {
    if |db| == 0 then {}
    else GraphsWith(db[..|db| - 1], l) + (if NodesWith(db[|db| - 1], l) > 0 then {|db| - 1} else {})
  }

  /** The support of `l` as `getfrequentNodes` measures it: distinct graphs
      under unique counting, nodes otherwise. */
  function LabelSupport(cfg: Config, db: seq<Graph>, l: int): int {
    if cfg.countUnique then |GraphsWith(db, l)| else Occurrences(db, l)
  }

  lemma {:induction false} NodesWithMeans(g: Graph, l: int)
    ensures NodesWith(g, l) > 0 <==> exists i :: 0 <= i < |g| && l in g[i].labels
    ensures NodesWith(g, l) <= |g|
    decreases |g|
  {
    if |g| > 0 {
      var front := g[..|g| - 1];
      NodesWithMeans(front, l);
      if exists i :: 0 <= i < |front| && l in front[i].labels {
        var i :| 0 <= i < |front| && l in front[i].labels;
        assert g[i] == front[i];
      }
      if exists i :: 0 <= i < |g| && l in g[i].labels {
        var i :| 0 <= i < |g| && l in g[i].labels;
        if i < |front| {
          assert front[i] == g[i];
        }
      }
    }
  }

  /** Graph `t` counts for `l` exactly when one of its nodes carries `l`. */
  lemma {:induction false} GraphsWithMeans(db: seq<Graph>, l: int, t: int)
    ensures t in GraphsWith(db, l) <==> 0 <= t < |db| && NodesWith(db[t], l) > 0
    decreases |db|
  {
    if |db| > 0 {
      var front := db[..|db| - 1];
      GraphsWithMeans(front, l, t);
      if 0 <= t < |front| {
        assert front[t] == db[t];
      }
    }
  }

  /** The unique count never exceeds the node count, and both are zero
      together. */
  lemma {:induction false} UniqueBelowAll(db: seq<Graph>, l: int)
    ensures |GraphsWith(db, l)| <= Occurrences(db, l)
    ensures |GraphsWith(db, l)| == 0 <==> Occurrences(db, l) == 0
    decreases |db|
  {
    if |db| > 0 {
      var front := db[..|db| - 1];
      UniqueBelowAll(front, l);
      GraphsWithMeans(front, l, |db| - 1);
    }
  }

  /** The count a `std::map<int, int>` yields for `l` through `operator[]`. */
  function Count(m: map<int, int>, l: int): int {
    if l in m then m[l] else 0
  }

  /** The set a `std::map<int, std::set<int>>` yields for `l` through
      `operator[]`. */
  function Trees(m: map<int, set<int>>, l: int): set<int> {
    if l in m then m[l] else {}
  }

  /** The label loop for one node: every label counts once. */
  method CountNode(count: map<int, int>, labels: seq<int>) returns (r: map<int, int>)
    requires Sorted(labels)
    ensures forall l :: Count(r, l) == Count(count, l) + (if l in labels then 1 else 0)
    ensures forall l :: l in r <==> l in count || l in labels
  {
    r := count;
    var m := 0;
    while m < |labels|
      invariant 0 <= m <= |labels|
      invariant forall l :: Count(r, l) == Count(count, l) + (if l in labels[..m] then 1 else 0)
      invariant forall l :: l in r <==> l in count || l in labels[..m]
    {
      var l := labels[m];
      assert labels[..m + 1] == labels[..m] + [l];
      assert l !in labels[..m];
      r := r[l := Count(r, l) + 1];
      m := m + 1;
    }
    assert labels[..m] == labels;
  }

  /** The node loop for one graph. */
  method CountGraph(count: map<int, int>, g: Graph) returns (r: map<int, int>)
    requires LabelsSorted(g)
    ensures forall l :: Count(r, l) == Count(count, l) + NodesWith(g, l)
    ensures forall l :: l in r <==> l in count || NodesWith(g, l) > 0
  {
    r := count;
    var i := 0;
    while i < |g|
      invariant 0 <= i <= |g|
      invariant forall l :: Count(r, l) == Count(count, l) + NodesWith(g[..i], l)
      invariant forall l :: l in r <==> l in count || NodesWith(g[..i], l) > 0
    {
      forall l
        ensures NodesWith(g[..i + 1], l) == NodesWith(g[..i], l) + (if l in g[i].labels then 1 else 0)
      {
        NodesWithSnoc(g, i, l);
      }
      r := CountNode(r, g[i].labels);
      i := i + 1;
    }
    assert g[..i] == g;
  }

  /** The counting pass of `getfrequentNodes` outside unique counting. */
  method CountAll(db: seq<Graph>) returns (r: map<int, int>)
    requires forall t :: 0 <= t < |db| ==> LabelsSorted(db[t])
    ensures forall l :: Count(r, l) == Occurrences(db, l)
    ensures forall l :: l in r <==> Occurrences(db, l) > 0
  {
    r := map[];
    var t := 0;
    while t < |db|
      invariant 0 <= t <= |db|
      invariant forall l :: Count(r, l) == Occurrences(db[..t], l)
      invariant forall l :: l in r <==> Occurrences(db[..t], l) > 0
    {
      assert db[..t + 1][..t] == db[..t];
      r := CountGraph(r, db[t]);
      t := t + 1;
    }
    assert db[..t] == db;
  }

  /** The label loop for one node of graph `t` under unique counting. */
  method TreesNode(count: map<int, set<int>>, labels: seq<int>, t: int) returns (r: map<int, set<int>>)
    ensures forall l :: Trees(r, l) == Trees(count, l) + (if l in labels then {t} else {})
    ensures forall l :: l in r <==> l in count || l in labels
  {
    r := count;
    var m := 0;
    while m < |labels|
      invariant 0 <= m <= |labels|
      invariant forall l :: Trees(r, l) == Trees(count, l) + (if l in labels[..m] then {t} else {})
      invariant forall l :: l in r <==> l in count || l in labels[..m]
    {
      var l := labels[m];
      assert labels[..m + 1] == labels[..m] + [l];
      r := r[l := Trees(r, l) + {t}];
      m := m + 1;
    }
    assert labels[..m] == labels;
  }

  /** The invariant of the node loop under unique counting survives one
      more node. */
  lemma TreesStep(count: map<int, set<int>>, r: map<int, set<int>>, next: map<int, set<int>>, g: Graph, i: nat, t: int)
    requires i < |g|
    requires forall l :: Trees(r, l) == Trees(count, l) + (if NodesWith(g[..i], l) > 0 then {t} else {})
    requires forall l :: l in r <==> l in count || NodesWith(g[..i], l) > 0
    requires forall l :: Trees(next, l) == Trees(r, l) + (if l in g[i].labels then {t} else {})
    requires forall l :: l in next <==> l in r || l in g[i].labels
    ensures forall l :: Trees(next, l) == Trees(count, l) + (if NodesWith(g[..i + 1], l) > 0 then {t} else {})
    ensures forall l :: l in next <==> l in count || NodesWith(g[..i + 1], l) > 0
  {
    forall l
      ensures Trees(next, l) == Trees(count, l) + (if NodesWith(g[..i + 1], l) > 0 then {t} else {})
      ensures l in next <==> l in count || NodesWith(g[..i + 1], l) > 0
    {
      NodesWithSnoc(g, i, l);
    }
  }

  /** The node loop for graph `t` under unique counting. */
  method TreesGraph(count: map<int, set<int>>, g: Graph, t: int) returns (r: map<int, set<int>>)
    ensures forall l :: Trees(r, l) == Trees(count, l) + (if NodesWith(g, l) > 0 then {t} else {})
    ensures forall l :: l in r <==> l in count || NodesWith(g, l) > 0
  {
    r := count;
    var i := 0;
    while i < |g|
      invariant 0 <= i <= |g|
      invariant forall l :: Trees(r, l) == Trees(count, l) + (if NodesWith(g[..i], l) > 0 then {t} else {})
      invariant forall l :: l in r <==> l in count || NodesWith(g[..i], l) > 0
    {
      var next := TreesNode(r, g[i].labels, t);
      TreesStep(count, r, next, g, i, t);
      r := next;
      i := i + 1;
    }
    assert g[..i] == g;
  }

  /** The counting pass of `getfrequentNodes` under unique counting. */
  method TreesAll(db: seq<Graph>) returns (r: map<int, set<int>>)
    ensures forall l :: Trees(r, l) == GraphsWith(db, l)
    ensures forall l :: l in r <==> Occurrences(db, l) > 0
  {
    r := map[];
    var t := 0;
    while t < |db|
      invariant 0 <= t <= |db|
      invariant forall l :: Trees(r, l) == GraphsWith(db[..t], l)
      invariant forall l :: l in r <==> Occurrences(db[..t], l) > 0
    {
      assert db[..t + 1][..t] == db[..t];
      r := TreesGraph(r, db[t], t);
      t := t + 1;
    }
    assert db[..t] == db;
  }

  /** `l` occurs in the input and its support lies between
      `absoluteSupport` and `absoluteMaxSupport`. */
  predicate FrequentLabel(cfg: Config, db: seq<Graph>, l: int) {
    && Occurrences(db, l) > 0
    && cfg.absoluteSupport <= LabelSupport(cfg, db, l) <= cfg.absoluteMaxSupport
  }

  /** `getfrequentNodes(allNodes, frequents)`: the frequent labels are added
      to the set the caller passes in. */
  method GetFrequentNodes(cfg: Config, db: seq<Graph>, frequents0: set<int>) returns (frequents: set<int>)
    requires forall t :: 0 <= t < |db| ==> LabelsSorted(db[t])
    ensures forall l :: l in frequents <==> l in frequents0 || FrequentLabel(cfg, db, l)
  {
    var found: set<int>;
    if !cfg.countUnique {
      var count := CountAll(db);
      found := set l | l in count && cfg.absoluteSupport <= count[l] <= cfg.absoluteMaxSupport;
    } else {
      var count := TreesAll(db);
      found := set l | l in count && cfg.absoluteSupport <= |count[l]| <= cfg.absoluteMaxSupport;
    }
    frequents := frequents0 + found;
  }

  /** A node with its labels outside `frequents` erased. */
  function PruneNode(n: Node, frequents: set<int>): (r: Node)
    requires Sorted(n.labels)
    ensures r.children == n.children && r.depth == n.depth && Sorted(r.labels)
    ensures forall l :: l in r.labels <==> l in n.labels && l in frequents
  {
    n.(labels := Filter(n.labels, frequents))
  }

  /** `removeUnfrequentNodes` on one graph. */
  function PruneGraph(g: Graph, frequents: set<int>): (r: Graph)
    requires LabelsSorted(g)
    ensures |r| == |g| && LabelsSorted(r)
    ensures WfGraph(g) ==> WfGraph(r)
    ensures forall i :: 0 <= i < |g| ==> r[i] == PruneNode(g[i], frequents)
  {
    seq(|g|, i requires 0 <= i < |g| => PruneNode(g[i], frequents))
  }

  /** `removeUnfrequentNodes`: every node keeps only the labels in
      `frequents`; children and depths are untouched. */
  function RemoveUnfrequentNodes(db: seq<Graph>, frequents: set<int>): (r: seq<Graph>)
    requires forall t :: 0 <= t < |db| ==> LabelsSorted(db[t])
    ensures |r| == |db|
    ensures forall t :: 0 <= t < |db| ==> r[t] == PruneGraph(db[t], frequents)
  {
    seq(|db|, t requires 0 <= t < |db| => PruneGraph(db[t], frequents))
  }

  /** After pruning a node is frequent exactly when it carried a kept label. */
  lemma PrunedFrequency(n: Node, frequents: set<int>)
    requires Sorted(n.labels)
    ensures IsFrequent(PruneNode(n, frequents)) <==> exists l :: l in n.labels && l in frequents
  {
    var r := PruneNode(n, frequents);
    FrequencyIgnoresStructure(r, r.children, r.depth);
  }

  /** Pruning keeps the node count of a kept label and clears the others. */
  lemma {:induction false} PruneGraphCounts(g: Graph, frequents: set<int>, l: int)
    requires LabelsSorted(g)
    ensures NodesWith(PruneGraph(g, frequents), l) == if l in frequents then NodesWith(g, l) else 0
    decreases |g|
  {
    if |g| > 0 {
      var front := g[..|g| - 1];
      PruneGraphCounts(front, frequents, l);
      assert PruneGraph(g, frequents)[..|g| - 1] == PruneGraph(front, frequents);
    }
  }

  /** Pruning keeps every count of a kept label and clears the others. */
  lemma {:induction false} PruneCounts(db: seq<Graph>, frequents: set<int>, l: int)
    requires forall t :: 0 <= t < |db| ==> LabelsSorted(db[t])
    ensures Occurrences(RemoveUnfrequentNodes(db, frequents), l) ==
      if l in frequents then Occurrences(db, l) else 0
    ensures GraphsWith(RemoveUnfrequentNodes(db, frequents), l) ==
      if l in frequents then GraphsWith(db, l) else {}
    decreases |db|
  {
    if |db| > 0 {
      var front := db[..|db| - 1];
      PruneCounts(front, frequents, l);
      PruneGraphCounts(db[|db| - 1], frequents, l);
      assert RemoveUnfrequentNodes(db, frequents)[..|db| - 1] == RemoveUnfrequentNodes(front, frequents);
    }
  }

  /** Erasing the same labels twice erases nothing more. */
  lemma PruneIdempotent(db: seq<Graph>, frequents: set<int>)
    requires forall t :: 0 <= t < |db| ==> LabelsSorted(db[t])
    ensures RemoveUnfrequentNodes(RemoveUnfrequentNodes(db, frequents), frequents) ==
      RemoveUnfrequentNodes(db, frequents)
  {
    var once := RemoveUnfrequentNodes(db, frequents);
    var twice := RemoveUnfrequentNodes(once, frequents);
    forall t | 0 <= t < |db|
      ensures twice[t] == once[t]
    {
      forall i | 0 <= i < |db[t]|
        ensures twice[t][i] == once[t][i]
      {
        var n := once[t][i];
        SortedUnique(Filter(n.labels, frequents), n.labels);
      }
    }
  }

  /** Computing the frequent labels again on the pruned input finds the same
      set: pruning with the frequent labels is a fixed point of the
      pre-processing. */
  lemma FrequentStable(cfg: Config, db: seq<Graph>, frequents: set<int>)
    requires forall t :: 0 <= t < |db| ==> LabelsSorted(db[t])
    requires forall l :: l in frequents <==> FrequentLabel(cfg, db, l)
    ensures forall l :: l in frequents <==> FrequentLabel(cfg, RemoveUnfrequentNodes(db, frequents), l)
  {
    forall l
      ensures l in frequents <==> FrequentLabel(cfg, RemoveUnfrequentNodes(db, frequents), l)
    {
      PruneCounts(db, frequents, l);
    }
  }
}
