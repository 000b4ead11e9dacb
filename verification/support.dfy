/** Support counting over an occurrence list (`countMotifs`,
    `getNbOccurences`). */
module Support {
  import opened Settings
  import opened Embeddings
  import opened Options

  /** The graph ids of the occurrences that lie in mined graphs (ids from
      `patternsCount` on; smaller ids are the reference patterns). */
  function TreesOf(values: seq<Embedding>, pc: int): set<int>
    decreases |values|
  {
    if |values| == 0 then {}
    else
      var e := values[|values| - 1];
      var rest := TreesOf(values[..|values| - 1], pc);
      if e.tree >= pc then rest + {e.tree} else rest
  }

  /** The (graph, node) pairs matched at step `i` by occurrences in mined
      graphs. */
  function ImagesAt(values: seq<Embedding>, pc: int, i: nat): set<(int, int)>
    decreases |values|
  {
    if |values| == 0 then {}
    else
      var e := values[|values| - 1];
      var rest := ImagesAt(values[..|values| - 1], pc, i);
      if e.tree >= pc && i < |e.path| then rest + {(e.tree, e.path[i])} else rest
  }

  /** The number of occurrences in mined graphs. */
  function NumCounted(values: seq<Embedding>, pc: int): nat
    decreases |values|
  {
    if |values| == 0 then 0
    else
      var e := values[|values| - 1];
      NumCounted(values[..|values| - 1], pc) + (if e.tree >= pc then 1 else 0)
  }

  /** The number of distinct pairs matched at step `i`. */
  function ImageCount(values: seq<Embedding>, pc: int, i: nat): nat {
    |ImagesAt(values, pc, i)|
  }

  /** The minimum-image support over the first `w` steps, starting from
      `INT_MAX`. */
  function MinImages(values: seq<Embedding>, pc: int, w: nat): (r: int)
    ensures r <= IntMax
    ensures forall i :: 0 <= i < w ==> r <= ImageCount(values, pc, i)
    ensures r == IntMax || exists i :: 0 <= i < w && r == ImageCount(values, pc, i)
  {
    if w == 0 then IntMax
    else
      var m := MinImages(values, pc, w - 1);
      var s := ImageCount(values, pc, w - 1);
      if s < m then s else m
  }

  /** A graph id is counted exactly when some occurrence in a mined graph has it. */
  lemma {:induction false} TreesOfMeans(values: seq<Embedding>, pc: int, t: int)
    ensures t in TreesOf(values, pc) <==> exists j :: 0 <= j < |values| && values[j].tree == t && t >= pc
    decreases |values|
  {
    if |values| > 0 {
      var front := values[..|values| - 1];
      TreesOfMeans(front, pc, t);
      assert forall j :: 0 <= j < |front| ==> front[j] == values[j];
    }
  }

  /** The value `countMotifs` computes, `None` where it throws. */
  function MotifCount(cfg: Config, values: seq<Embedding>): Option<int> {
    if cfg.countUnique then Some(|TreesOf(values, cfg.patternsCount)|)
    else if |values| == 0 then None
    else Some(MinImages(values, cfg.patternsCount, |values[0].path|))
  }

  /** `countMotifs(values)`. With `countUnique` the number of distinct mined
      graphs; otherwise the least number of distinct (graph, node) pairs at
      any step, the step count being read from the first occurrence, which
      throws on an empty list (`None`). Occurrence steps past that count are
      not read (they would index past the end in the original). */
  method CountMotifs(cfg: Config, values: seq<Embedding>) returns (r: Option<int>)
    ensures cfg.countUnique ==> r == Some(|TreesOf(values, cfg.patternsCount)|)
    ensures !cfg.countUnique && |values| == 0 ==> r == None
    ensures !cfg.countUnique && |values| > 0 ==>
      r == Some(MinImages(values, cfg.patternsCount, |values[0].path|))
  {
    var pc := cfg.patternsCount;
    if cfg.countUnique {
      var trees := DistinctTrees(values, pc);
      return Some(|trees|);
    }
    if |values| == 0 {
      return None;
    }
    var w := |values[0].path|;
    var images := CollectImages(values, pc, w);
    var count := IntMax;
    var i := 0;
    while i < w
      invariant 0 <= i <= w
      invariant count == MinImages(values, pc, i)
    {
      if |images[i]| < count {
        assert |images[i]| == ImageCount(values, pc, i);
        count := |images[i]|;
      }
      i := i + 1;
    }
    return Some(count);
  }

  /** The set of mined graph ids, built in one pass. */
  method DistinctTrees(values: seq<Embedding>, pc: int) returns (trees: set<int>)
    ensures trees == TreesOf(values, pc)
  {
    trees := {};
    var j := 0;
    while j < |values|
      invariant 0 <= j <= |values|
      invariant trees == TreesOf(values[..j], pc)
    {
      assert values[..j + 1][..j] == values[..j];
      if values[j].tree >= pc {
        trees := trees + {values[j].tree};
      }
      j := j + 1;
    }
    assert values[..|values|] == values;
  }

  /** The per-step pair sets for the first `w` steps, built in one pass. */
  method CollectImages(values: seq<Embedding>, pc: int, w: nat) returns (images: seq<set<(int, int)>>)
    ensures |images| == w
    ensures forall i :: 0 <= i < w ==> images[i] == ImagesAt(values, pc, i)
  {
    images := seq(w, i => {});
    var j := 0;
    while j < |values|
      invariant 0 <= j <= |values| && |images| == w
      invariant forall i :: 0 <= i < w ==> images[i] == ImagesAt(values[..j], pc, i)
    {
      images := AddOccurrence(values[..j], values[j], pc, images);
      assert values[..j + 1][..j] == values[..j];
      j := j + 1;
    }
    assert values[..|values|] == values;
  }

  /** One occurrence of the outer loop: its pair at each step goes into
      that step's set. */
  method AddOccurrence(seen: seq<Embedding>, e: Embedding, pc: int, images: seq<set<(int, int)>>)
    returns (r: seq<set<(int, int)>>)
    requires forall i :: 0 <= i < |images| ==> images[i] == ImagesAt(seen, pc, i)
    ensures |r| == |images|
    ensures forall i :: 0 <= i < |images| ==> r[i] == ImagesAt(seen + [e], pc, i)
  {
    assert (seen + [e])[..|seen|] == seen;
    r := images;
    if e.tree >= pc {
      var i := 0;
      while i < |e.path| && i < |images|
        invariant 0 <= i <= |images| && |r| == |images|
        invariant forall k :: 0 <= k < i ==> r[k] == ImagesAt(seen + [e], pc, k)
        invariant forall k :: i <= k < |images| ==> r[k] == images[k]
      {
        r := r[i := r[i] + {(e.tree, e.path[i])}];
        i := i + 1;
      }
    }
  }

  /** `getNbOccurences(values)`: the length of the occurrence list, which is
      never less than the number of distinct mined graphs. */
  function GetNbOccurences(values: seq<Embedding>): (r: int)
    ensures forall pc :: r >= NumCounted(values, pc) >= |TreesOf(values, pc)|
  {
    NbOccurencesBound(values);
    |values|
  }

  lemma {:induction false} NbOccurencesBound(values: seq<Embedding>)
    ensures forall pc :: |values| >= NumCounted(values, pc) >= |TreesOf(values, pc)|
    decreases |values|
  {
    if |values| > 0 {
      var front := values[..|values| - 1];
      var e := values[|values| - 1];
      NbOccurencesBound(front);
      forall pc
        ensures NumCounted(values, pc) >= |TreesOf(values, pc)|
      {
        var ts := TreesOf(front, pc);
        if e.tree >= pc {
          if e.tree in ts {
            assert ts + {e.tree} == ts;
          } else {
            assert |ts + {e.tree}| == |ts| + 1;
          }
        }
      }
    }
  }

  /** The pairs seen at a step are at most one per counted occurrence. */
  lemma {:induction false} ImagesBound(values: seq<Embedding>, pc: int, i: nat)
    ensures |ImagesAt(values, pc, i)| <= NumCounted(values, pc)
    decreases |values|
  {
    if |values| > 0 {
      var front := values[..|values| - 1];
      var e := values[|values| - 1];
      ImagesBound(front, pc, i);
      var ims := ImagesAt(front, pc, i);
      if e.tree >= pc && i < |e.path| {
        var x := (e.tree, e.path[i]);
        if x in ims {
          assert ims + {x} == ims;
        } else {
          assert |ims + {x}| == |ims| + 1;
        }
      }
    }
  }

  /** When every occurrence reaches step `i`, each counted graph contributes
      at least one pair at that step. */
  lemma {:induction false} TreesBelowImages(values: seq<Embedding>, pc: int, i: nat)
    requires forall j :: 0 <= j < |values| ==> i < |values[j].path|
    ensures forall p :: p in ImagesAt(values, pc, i) ==> p.0 in TreesOf(values, pc)
    ensures |TreesOf(values, pc)| <= |ImagesAt(values, pc, i)|
    decreases |values|
  {
    if |values| > 0 {
      var front := values[..|values| - 1];
      var e := values[|values| - 1];
      TreesBelowImages(front, pc, i);
      var ts := TreesOf(front, pc);
      var ims := ImagesAt(front, pc, i);
      var x := (e.tree, e.path[i]);
      if e.tree >= pc {
        if e.tree !in ts {
          assert x !in ims;
          assert |ims + {x}| == |ims| + 1;
          assert |ts + {e.tree}| == |ts| + 1;
        } else {
          assert ts + {e.tree} == ts;
          if x !in ims {
            assert |ims + {x}| == |ims| + 1;
          } else {
            assert ims + {x} == ims;
          }
        }
      }
    }
  }

  /** In all-occurrences mode, for a non-empty list whose paths all have the
      same length `w >= 1`, the minimum-image support lies between the
      number of distinct mined graphs and the number of occurrences in them. */
  lemma CountBounds(values: seq<Embedding>, pc: int, w: nat)
    requires |values| > 0 && w >= 1 && |values| <= IntMax
    requires forall j :: 0 <= j < |values| ==> |values[j].path| == w
    ensures |TreesOf(values, pc)| <= MinImages(values, pc, w) <= NumCounted(values, pc)
  {
    NbOccurencesBound(values);
    forall i | 0 <= i < w
      ensures |TreesOf(values, pc)| <= ImageCount(values, pc, i)
    {
      TreesBelowImages(values, pc, i);
    }
    ImagesBound(values, pc, 0);
    assert MinImages(values, pc, w) <= ImageCount(values, pc, 0);
  }
}
