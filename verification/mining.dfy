/** The driver of the search (aadage.cpp 900-938, 1148-1323, 1398-1425,
    1743-1828 and the loop of `main`): the store is seeded with one code
    per frequent label; the top code of the worklist is then popped,
    counted, tested, reduced and extended until the worklist is empty; and
    under closed-sequence search a final sweep reports the records never
    marked as subsumed. */
module Mining {
  import opened IntSets
  import opened Settings
  import opened Graphs
  import opened Codes
  import opened Canonical
  import opened Cycles
  import opened Embeddings
  import opened Store
  import opened Options
  import opened Support
  import opened Reductions
  import opened Closure
  import opened Extension

  /** `containsPattern`: some occurrence lies in a reference pattern, one
      of the first `patternsCount` graphs. */
  function ContainsPattern(cfg: Config, values: seq<Embedding>): (r: bool)
    ensures r <==> exists j :: 0 <= j < |values| && values[j].tree < cfg.patternsCount
  {
    if |values| == 0 then false
    else
      var rest := ContainsPattern(cfg, values[1..]);
      assert forall j :: 0 < j < |values| ==> values[1..][j - 1] == values[j];
      values[0].tree < cfg.patternsCount || rest
  }

  /** Graph `t` has exactly the label sets of `top`, node by node. */
  predicate SameLabels(db: Db, t: int, top: Code) {
    && 0 <= t < |db| && |db[t]| == |top|
    && forall i :: 0 <= i < |top| ==> db[t][i].labels == top[i].labels
  }

  /** Occurrence `j` lies in a reference pattern carrying the labels of `top`. */
  predicate MatchAt(cfg: Config, db: Db, top: Code, values: seq<Embedding>, j: int) {
    0 <= j < |values| && values[j].tree < cfg.patternsCount && SameLabels(db, values[j].tree, top)
  }

  /** `matchesPattern`: the reference pattern of the first occurrence whose
      pattern carries exactly the labels of `top`; -1 when there is none. */
  function MatchesPattern(cfg: Config, db: Db, top: Code, values: seq<Embedding>): (r: int)
    ensures r == -1 <==> forall j :: !MatchAt(cfg, db, top, values, j)
    ensures r != -1 ==> exists j :: && MatchAt(cfg, db, top, values, j) && values[j].tree == r
                                     && forall k :: 0 <= k < j ==> !MatchAt(cfg, db, top, values, k)
  {
    if |values| == 0 then -1
    else if MatchAt(cfg, db, top, values, 0) then values[0].tree
    else
      var r := MatchesPattern(cfg, db, top, values[1..]);
      MatchShift(cfg, db, top, values, r);
      r
  }

  /** The first match after a non-matching head is the first match of the
      tail. */
  lemma MatchShift(cfg: Config, db: Db, top: Code, values: seq<Embedding>, r: int)
    requires |values| > 0 && !MatchAt(cfg, db, top, values, 0)
    requires r == -1 <==> forall j :: !MatchAt(cfg, db, top, values[1..], j)
    requires r != -1 ==> exists j :: && MatchAt(cfg, db, top, values[1..], j) && values[1..][j].tree == r
                                     && forall k :: 0 <= k < j ==> !MatchAt(cfg, db, top, values[1..], k)
    ensures r == -1 <==> forall j :: !MatchAt(cfg, db, top, values, j)
    ensures r != -1 ==> exists j :: && MatchAt(cfg, db, top, values, j) && values[j].tree == r
                                     && forall k :: 0 <= k < j ==> !MatchAt(cfg, db, top, values, k)
  {
    forall j | 0 < j
      ensures MatchAt(cfg, db, top, values[1..], j - 1) <==> MatchAt(cfg, db, top, values, j)
    {
      if j < |values| {
        assert values[1..][j - 1] == values[j];
      }
    }
    if r != -1 {
      var j :| && MatchAt(cfg, db, top, values[1..], j) && values[1..][j].tree == r
               && forall k :: 0 <= k < j ==> !MatchAt(cfg, db, top, values[1..], k);
      assert MatchAt(cfg, db, top, values, j + 1);
      assert forall k :: 0 <= k < j + 1 ==> !MatchAt(cfg, db, top, values, k) by {
        forall k | 0 < k < j + 1
          ensures !MatchAt(cfg, db, top, values, k)
        {
          assert !MatchAt(cfg, db, top, values[1..], k - 1);
        }
      }
    } else {
      forall j
        ensures !MatchAt(cfg, db, top, values, j)
      {
        if j > 0 {
          assert !MatchAt(cfg, db, top, values[1..], j - 1);
        }
      }
    }
  }

  /** One line `writeSolution` would print: the code, its support and, under
      pattern search, the reference pattern it matches (-1 otherwise). */
  datatype Emission = Emission(code: Code, count: int, base: int)

  /** The outcome of one step: `countMotifs` threw, or the new store and
      what the step reported. */
  datatype Transition = Aborted | Done(c: Candidates, emitted: Option<Emission>)

  /** `canonicalCycle`: the cycle test runs on codes `isCanonical` does not
      reject and whose last step is the back-edge to the root. A one-step
      code of that kind is left out: the original's loop bound wraps
      around there. */
  function CycleCode(top: Code): (r: int)
    requires |top| > 0
    ensures r == -1 || r == 1
    ensures r == 1 ==> |top| >= 2 && IsCanonical(top) != 1 && Lead(top[|top| - 1]) == -1
    ensures |top| >= 2 && IsCanonical(top) != 1 && Lead(top[|top| - 1]) == -1 && IsCycleCanonical(top) == 1 ==> r == 1
    ensures |top| >= 2 && IsCycleCanonical(top) != 1 ==> r == -1
  {
    if IsCanonical(top) != 1 && Lead(top[|top| - 1]) == -1 && |top| >= 2 then IsCycleCanonical(top) else -1
  }

  /** The tests a popped code passes before it is extended: it touches a
      reference pattern (under pattern search), its support reaches the
      threshold and, unless order matters, neither `isCanonical` nor the
      cycle test rejects it. */
  predicate Passes(cfg: Config, top: Code, values: seq<Embedding>)
    requires |top| > 0
  {
    && (!cfg.patternSearch || ContainsPattern(cfg, values))
    && MotifCount(cfg, values).Some?
    && MotifCount(cfg, values).value >= cfg.absoluteSupport
    && (cfg.orderedSearch || (IsCanonical(top) != 1 && CycleCode(top) != 1))
  }

  /** Emission `e` reports the popped code with its support; under pattern
      search it names a reference pattern, carrying exactly the labels of
      the code, that one of the occurrences lies in. */
  ghost predicate Reports(cfg: Config, db: Db, top: Code, values: seq<Embedding>, e: Emission) {
    && e.code == top && MotifCount(cfg, values) == Some(e.count)
    && cfg.outputFrequentTrees && !cfg.closedSequenceSearch
    && (cfg.patternSearch ==> exists j :: MatchAt(cfg, db, top, values, j) && values[j].tree == e.base)
    && (!cfg.patternSearch ==> e.base == -1)
  }

  /** Under closed-sequence search a record may be marked as subsumed;
      otherwise it is left as it was. */
  predicate MarkedOrSame(cfg: Config, a: CandidateInfo, b: CandidateInfo) {
    b == a || (cfg.closedSequenceSearch && b == a.(isClosed := true))
  }

  /** The accepted map of `c` is that of `c0` up to closure marks on codes
      other than `top`; the record of `top` keeps its occurrences. */
  predicate AcceptedKept(cfg: Config, c0: Candidates, c: Candidates, top: Code) {
    && c.accepted.Keys == c0.accepted.Keys
    && (forall k :: k in c0.accepted && k != top ==> MarkedOrSame(cfg, c0.accepted[k], c.accepted[k]))
    && (top in c0.accepted ==> c.accepted[top].subtrees == c0.accepted[top].subtrees)
  }

  lemma AcceptedKeptTrans(cfg: Config, c0: Candidates, c1: Candidates, c2: Candidates, top: Code)
    requires AcceptedKept(cfg, c0, c1, top) && AcceptedKept(cfg, c1, c2, top)
    ensures AcceptedKept(cfg, c0, c2, top)
  {
  }

  /** What a step may do to the pending map: entries other than the popped
      code's stay, every entry present has grown by generated occurrences
      only, and a new entry is not empty. */
  ghost predicate PendingEffect(p0: seq<Entry>, p: seq<Entry>, o: Origin) {
    && SortedEntries(p)
    && Keys(p0) - {o.top} <= Keys(p)
    && (forall k :: k in Keys(p) && k !in Keys(p0) ==> |Get(p, k).subtrees| > 0)
    && forall k :: k in Keys(p) ==> Extends(Get(p0, k), Get(p, k), o, k)
  }

  /** A grown pending map, with or without the popped code's entry. */
  lemma GrowsEffect(p0: seq<Entry>, p: seq<Entry>, o: Origin)
    requires SortedEntries(p) && PendingGrows(p0, p, o)
    ensures PendingEffect(p0, p, o)
    ensures PendingEffect(p0, Remove(p, o.top), o)
  {
  }

  /** What one call of `extendFirstCandidate` may do to the store whose top
      code is that of `o`: the top entry is popped (it stays only on the
      identical-superset exit of closed-itemset search); no accepted code is
      added; other accepted records at most get marked as subsumed; the
      popped record keeps at most its occurrences, in order, and is erased
      when no closure bookkeeping is on; and pending entries only grow by
      generated occurrences. */
  ghost predicate StepEffect(cfg: Config, c0: Candidates, c: Candidates, o: Origin)
    requires |c0.worklist| > 0
  {
    var top := c0.worklist[|c0.worklist| - 1];
    && Valid(c)
    && (|| c.worklist == c0.worklist[..|c0.worklist| - 1]
        || (c.worklist == c0.worklist && cfg.closedItemsetSearch && cfg.itemSetMining))
    && c.accepted.Keys <= c0.accepted.Keys
    && (forall k :: k in c0.accepted && k != top ==> k in c.accepted && MarkedOrSame(cfg, c0.accepted[k], c.accepted[k]))
    && (top in c.accepted ==> top in c0.accepted && IsSubsequence(c.accepted[top].subtrees, c0.accepted[top].subtrees))
    && (!KeepsRecords(cfg) ==> top !in c.accepted)
    && PendingEffect(c0.pending, c.pending, o)
  }

  /** Popping the top code without keeping its record. */
  lemma PopEffect(cfg: Config, c: Candidates, o: Origin)
    requires Valid(c) && |c.worklist| > 0 && o.top == c.worklist[|c.worklist| - 1]
    ensures StepEffect(cfg, c, RemoveCandidate(c, false), o)
  {
    GrowsRefl(c, o);
    GrowsEffect(c.pending, c.pending, o);
  }

  /** The reductions edit the record in place: a code still in the accepted
      map gets the reduced list. */
  function WriteBack(c: Candidates, top: Code, values: seq<Embedding>): (r: Candidates)
    ensures r.worklist == c.worklist && r.pending == c.pending && r.accepted.Keys == c.accepted.Keys
    ensures top in c.accepted ==> r.accepted[top] == c.accepted[top].(subtrees := values)
    ensures forall k :: k in c.accepted && k != top ==> r.accepted[k] == c.accepted[k]
  {
    if top in c.accepted then c.(accepted := c.accepted[top := c.accepted[top].(subtrees := values)])
    else c
  }

  /** The three reductions of the occurrence list (aadage.cpp 1182-1303),
      in the order the original applies them. Extension of the last node
      is switched off exactly when the automorphism reduction runs. */
  method ReduceOccurrences(cfg: Config, top: Code, values: seq<Embedding>, canonical: int)
    returns (r: seq<Embedding>, extAllowed: bool)
    requires |top| > 0
    ensures IsSubsequence(r, values)
    ensures extAllowed <==> cfg.orderedSearch || canonical != 0
  {
    r := values;
    SubsequenceRefl(values);
    extAllowed := true;
    if !cfg.orderedSearch && canonical == 0 {
      extAllowed := false;
      r := ReduceAutomorphs(values);
    }
    var last := top[|top| - 1];
    if last.depth == 1 && |last.labels| == 1 {
      var ps := PreviousSibling(top, |top| - 1);
      if ps != -1 && Lead(top[ps]) < Lead(last) {
        var r2 := ReduceSiblings(r);
        SubsequenceTrans(r2, r, values);
        r := r2;
      }
    }
    var r3 := ReduceFrozenSubtree(top, r);
    SubsequenceTrans(r3, r, values);
    r := r3;
  }

  /** Extension by one more item in the last label set and the
      closed-itemset test on the supersets it creates (aadage.cpp
      1325-1396). `identical` is set when the step ends there: some
      superset has as many occurrences as the popped code, whose own
      pending entry is then dropped while it stays on the worklist. */
  method ItemsetPhase(o: Origin, c0: Candidates, extAllowed: bool, count: int, nbOcc: int, closed0: bool)
    returns (c: Candidates, identical: bool, closed: bool)
    requires Valid(c0) && Shaped(o)
    ensures Valid(c) && c.worklist == c0.worklist
    ensures AcceptedKept(o.cfg, c0, c, o.top)
    ensures !o.cfg.closedSequenceSearch ==> c.accepted == c0.accepted
    ensures closed0 ==> closed
    ensures !o.cfg.closedItemsetSearch ==> !identical && closed == closed0
    ensures identical ==> o.cfg.closedItemsetSearch && o.cfg.itemSetMining && PendingEffect(c0.pending, c.pending, o)
    ensures !identical ==> PendingGrows(c0.pending, c.pending, o)
    ensures o.cfg.closedSequenceSearch && identical && o.top in c0.accepted ==>
      c.accepted[o.top].perTreeFrequency == count && c.accepted[o.top].nbOccurences == nbOcc
  {
    c, identical, closed := c0, false, closed0;
    GrowsRefl(c0, o);
    if o.cfg.itemSetMining && extAllowed {
      var sups;
      c, sups := ExtendItemsets(o, c0);
      if o.cfg.closedItemsetSearch {
        ghost var grown := c;
        var rest := sups;
        while rest != {}
          invariant Valid(c) && c.worklist == grown.worklist && c.pending == grown.pending
          invariant AcceptedKept(o.cfg, c0, c, o.top)
          invariant !o.cfg.closedSequenceSearch ==> c.accepted == c0.accepted
          invariant closed0 ==> closed
          decreases |rest|
        {
          var s :| s in rest;
          var occurrences := Get(c.pending, s).subtrees;
          if |occurrences| == nbOcc {
            identical := true;
          }
          var supCount := CountMotifs(o.cfg, occurrences);
          if supCount == Some(count) {
            closed := true;
            if o.cfg.closedSequenceSearch {
              c := SetClosed(c, o.top);
              c := SetSuperCount(c, o.top, count, nbOcc);
            }
          }
          rest := rest - {s};
        }
        if identical {
          GrowsEffect(c0.pending, c.pending, o);
          c := RemoveNewCandidate(c, o.top);
          if o.cfg.closedSequenceSearch {
            c := SetClosed(c, o.top);
            c := SetSuperCount(c, o.top, count, nbOcc);
          }
        }
      }
    }
  }

  /** Popping the top code once the record and the pending map have been
      settled. */
  lemma PopAfter(cfg: Config, c0: Candidates, c: Candidates, o: Origin)
    requires |c0.worklist| > 0 && o.top == c0.worklist[|c0.worklist| - 1]
    requires Valid(c) && c.worklist == c0.worklist
    requires AcceptedKept(cfg, c0, c, o.top)
    requires !KeepsRecords(cfg) ==> c.accepted == c0.accepted
    requires PendingGrows(c0.pending, c.pending, o)
    ensures StepEffect(cfg, c0, RemoveCandidate(c, KeepsRecords(cfg)), o)
  {
    GrowsEffect(c0.pending, c.pending, o);
  }

  /** The identical-superset exit, which does not pop. */
  lemma StayAfter(cfg: Config, c0: Candidates, c: Candidates, o: Origin)
    requires |c0.worklist| > 0 && o.top == c0.worklist[|c0.worklist| - 1]
    requires Valid(c) && c.worklist == c0.worklist && cfg.closedItemsetSearch && cfg.itemSetMining
    requires AcceptedKept(cfg, c0, c, o.top)
    requires PendingEffect(c0.pending, c.pending, o)
    ensures StepEffect(cfg, c0, c, o)
  {
    if o.top in c.accepted {
      SubsequenceRefl(c.accepted[o.top].subtrees);
    }
  }

  /** The closed-itemset test against the accepted codes that include the
      popped one (aadage.cpp 1305-1323): `exit` when one of them has as many
      occurrences; `closed` when one has at least its support. */
  method InheritedTest(cfg: Config, c0: Candidates, top: Code, count: int, nbOcc: int)
    returns (c: Candidates, exit: bool, closed: bool)
    ensures c.worklist == c0.worklist && c.pending == c0.pending
    ensures AcceptedKept(cfg, c0, c, top)
    ensures !exit ==> c == c0
    ensures !cfg.closedSequenceSearch ==> c.accepted == c0.accepted
    ensures cfg.closedSequenceSearch && exit && top in c0.accepted ==>
      c.accepted[top].perTreeFrequency == count && c.accepted[top].nbOccurences == nbOcc
  {
    c := c0;
    var inherited := GetInheritedCount(c0, top);
    exit := inherited.0 > 0 && inherited.1 == nbOcc;
    closed := inherited.0 >= count;
    if exit && cfg.closedSequenceSearch {
      c := SetSuperCount(c, top, count, nbOcc);
      c := SetClosed(c, top);
    }
  }

  /** The closed-sequence test and the support bookkeeping (aadage.cpp
      1398-1415): unless already found closed, the codes the popped one
      subsumes are marked, and the popped one is closed when some accepted
      code with one more step has at least its support. */
  method ClosurePhase(cfg: Config, c0: Candidates, top: Code, count: int, nbOcc: int, closed0: bool)
    returns (c: Candidates, closed: bool)
    ensures c.worklist == c0.worklist && c.pending == c0.pending
    ensures AcceptedKept(cfg, c0, c, top)
    ensures !KeepsRecords(cfg) ==> c == c0 && closed == closed0
    ensures closed0 ==> closed
    ensures KeepsRecords(cfg) && top in c0.accepted ==>
      c.accepted[top].perTreeFrequency == count && c.accepted[top].nbOccurences == nbOcc
  {
    c, closed := c0, closed0;
    if !closed && cfg.closedSequenceSearch {
      c := MarkPreviousNonClosed(c, top, count);
      var inherited := GetInheritedCountStructural(c, top);
      closed := inherited.0 >= count;
    }
    if cfg.closedItemsetSearch || cfg.closedSequenceSearch {
      c := SetSuperCount(c, top, count, nbOcc);
      if closed && cfg.closedSequenceSearch {
        c := SetClosed(c, top);
      }
    }
  }

  /** What the step reports (aadage.cpp 1416-1425): nothing for a closed
      code or under closed-sequence search, whose output waits for the
      final sweep. */
  function Report(cfg: Config, db: Db, top: Code, values: seq<Embedding>, count: int, closed: bool): (r: Option<Emission>)
    ensures r.Some? ==> && r.value.code == top && r.value.count == count
                        && cfg.outputFrequentTrees && !closed && !cfg.closedSequenceSearch
                        && (cfg.patternSearch ==> r.value.base == MatchesPattern(cfg, db, top, values) != -1)
                        && (!cfg.patternSearch ==> r.value.base == -1)
    ensures cfg.outputFrequentTrees && !closed && !cfg.closedSequenceSearch && !cfg.patternSearch ==>
      r == Some(Emission(top, count, -1))
  {
    if !(cfg.outputFrequentTrees && !closed && !cfg.closedSequenceSearch) then None
    else if !cfg.patternSearch then Some(Emission(top, count, -1))
    else
      var base := MatchesPattern(cfg, db, top, values);
      if base != -1 then Some(Emission(top, count, base)) else None
  }

  /** Everything after the reductions (aadage.cpp 1305-1742): the closure
      tests, the support bookkeeping, the report, the extensions and the
      pop. `values` is the reduced occurrence list of the top code. */
  method Settle(cfg: Config, db: Db, c0: Candidates, values: seq<Embedding>, extAllowed: bool, count: int, nbOcc: int)
    returns (c: Candidates, emitted: Option<Emission>)
    requires Valid(c0) && |c0.worklist| > 0
    requires Shaped(Origin(cfg, db, c0.worklist[|c0.worklist| - 1], values))
    requires var top := c0.worklist[|c0.worklist| - 1];
      top in c0.accepted ==> c0.accepted[top].subtrees == values
    ensures var top := c0.worklist[|c0.worklist| - 1];
      && StepEffect(cfg, c0, c, Origin(cfg, db, top, values))
      && (cfg.closedSequenceSearch && top in c0.accepted ==>
            top in c.accepted && c.accepted[top].perTreeFrequency == count && c.accepted[top].nbOccurences == nbOcc)
      && (emitted.Some? ==>
            && emitted.value.code == top && emitted.value.count == count
            && cfg.outputFrequentTrees && !cfg.closedSequenceSearch
            && (cfg.patternSearch ==> emitted.value.base == MatchesPattern(cfg, db, top, values) != -1)
            && (!cfg.patternSearch ==> emitted.value.base == -1))
      && (!KeepsRecords(cfg) && cfg.outputFrequentTrees && !cfg.patternSearch ==>
            emitted == Some(Emission(top, count, -1)))
  {
    var top := c0.worklist[|c0.worklist| - 1];
    var o := Origin(cfg, db, top, values);
    GrowsRefl(c0, o);
    emitted := None;
    var closed := false;
    c := c0;
    if cfg.closedItemsetSearch && cfg.itemSetMining {
      var exit;
      c, exit, closed := InheritedTest(cfg, c0, top, count, nbOcc);
      if exit {
        PopAfter(cfg, c0, c, o);
        c := RemoveCandidate(c, true);
        return;
      }
    }
    var identical;
    c, identical, closed := ItemsetPhase(o, c0, extAllowed, count, nbOcc, closed);
    if identical {
      StayAfter(cfg, c0, c, o);
      return;
    }
    ghost var afterItems := c;
    c, closed := ClosurePhase(cfg, c, top, count, nbOcc, closed);
    AcceptedKeptTrans(cfg, c0, afterItems, c, top);
    emitted := Report(cfg, db, top, values, count, closed);
    var c1 := ExtendStructure(o, extAllowed, c);
    PendingGrowsTrans(c0.pending, c.pending, c1.pending, o);
    PopAfter(cfg, c0, c1, o);
    c := RemoveCandidate(c1, KeepsRecords(cfg));
  }

  /** Occurrences generated from a reduced list are generated from the
      full one, so the step's effect reads the same against either. */
  lemma WidenEffect(cfg: Config, db: Db, c: Candidates, c1: Candidates, c2: Candidates, values: seq<Embedding>, reduced: seq<Embedding>)
    requires |c.worklist| > 0
    requires var top := c.worklist[|c.worklist| - 1];
      && values == Record(c, top).subtrees && IsSubsequence(reduced, values)
      && c1 == WriteBack(c, top, reduced)
      && StepEffect(cfg, c1, c2, Origin(cfg, db, top, reduced))
    ensures StepEffect(cfg, c, c2, Origin(cfg, db, c.worklist[|c.worklist| - 1], values))
  {
    var top := c.worklist[|c.worklist| - 1];
    var o1 := Origin(cfg, db, top, reduced);
    var o2 := Origin(cfg, db, top, values);
    if top in c2.accepted {
      SubsequenceTrans(c2.accepted[top].subtrees, reduced, values);
    }
    forall v | v in reduced
      ensures v in values
    {
      SubsequenceMembers(reduced, values, v);
    }
    forall k | k in Keys(c2.pending)
      ensures Extends(Get(c.pending, k), Get(c2.pending, k), o2, k)
    {
      var a := Get(c.pending, k);
      var b := Get(c2.pending, k);
      assert Extends(a, b, o1, k);
      forall j | |a.subtrees| <= j < |b.subtrees|
        ensures Generated(o2, k, b.subtrees[j])
      {
        GeneratedWiden(o1, values, k, b.subtrees[j]);
      }
    }
  }

  /** `extendFirstCandidate` on the top code of the worklist: the code is
      dropped when it misses a reference pattern, is infrequent or (outside
      ordered search) not canonical; otherwise its occurrence list is
      reduced and the code is settled and extended. `countMotifs` throwing
      on an empty list ends the run. */
  method ExtendFirst(cfg: Config, db: Db, c: Candidates) returns (r: Transition)
    requires Valid(c) && |c.worklist| > 0 && StoreShaped(c)
    ensures var top := c.worklist[|c.worklist| - 1];
      var values := Record(c, top).subtrees;
      && |top| > 0
      && (r.Aborted? <==> (!cfg.patternSearch || ContainsPattern(cfg, values)) && MotifCount(cfg, values).None?)
      && (r.Done? && !Passes(cfg, top, values) ==> r == Done(RemoveCandidate(c, false), None))
      && (r.Done? ==> StepEffect(cfg, c, r.c, Origin(cfg, db, top, values)))
      && (r.Done? && r.emitted.Some? ==> Passes(cfg, top, values) && Reports(cfg, db, top, values, r.emitted.value))
      && (!KeepsRecords(cfg) && cfg.outputFrequentTrees && !cfg.patternSearch && Passes(cfg, top, values) ==>
            r == Done(r.c, Some(Emission(top, MotifCount(cfg, values).value, -1))))
      && (cfg.closedSequenceSearch && top in c.accepted && Passes(cfg, top, values) ==>
            r.Done? && top in r.c.accepted && Some(r.c.accepted[top].perTreeFrequency) == MotifCount(cfg, values))
  {
    var top := c.worklist[|c.worklist| - 1];
    var values := Record(c, top).subtrees;
    assert |top| > 0;
    var o := Origin(cfg, db, top, values);
    if cfg.patternSearch && !ContainsPattern(cfg, values) {
      PopEffect(cfg, c, o);
      return Done(RemoveCandidate(c, false), None);
    }
    var counted := CountMotifs(cfg, values);
    if counted.None? {
      return Aborted;
    }
    var count := counted.value;
    var nbOcc := GetNbOccurences(values);
    var canonical := IsCanonical(top);
    if count < cfg.absoluteSupport || (!cfg.orderedSearch && (canonical == 1 || CycleCode(top) == 1)) {
      PopEffect(cfg, c, o);
      return Done(RemoveCandidate(c, false), None);
    }
    var c2, emitted := Proceed(cfg, db, c, count, nbOcc, canonical);
    r := Done(c2, emitted);
  }

  /** The part of `extendFirstCandidate` a code that passes the tests goes
      through: the reductions, written back to its record, then the rest. */
  method Proceed(cfg: Config, db: Db, c: Candidates, count: int, nbOcc: int, canonical: int)
    returns (c2: Candidates, emitted: Option<Emission>)
    requires Valid(c) && |c.worklist| > 0 && StoreShaped(c)
    requires var top := c.worklist[|c.worklist| - 1];
      MotifCount(cfg, Record(c, top).subtrees) == Some(count)
    ensures var top := c.worklist[|c.worklist| - 1];
      var values := Record(c, top).subtrees;
      && StepEffect(cfg, c, c2, Origin(cfg, db, top, values))
      && (emitted.Some? ==> Reports(cfg, db, top, values, emitted.value))
      && (!KeepsRecords(cfg) && cfg.outputFrequentTrees && !cfg.patternSearch ==>
            emitted == Some(Emission(top, count, -1)))
      && (cfg.closedSequenceSearch && top in c.accepted ==>
            top in c2.accepted && c2.accepted[top].perTreeFrequency == count)
  {
    var top := c.worklist[|c.worklist| - 1];
    var values := Record(c, top).subtrees;
    var reduced, extAllowed := ReduceOccurrences(cfg, top, values, canonical);
    var c1 := WriteBack(c, top, reduced);
    assert Shaped(Origin(cfg, db, top, values));
    forall j | 0 <= j < |reduced|
      ensures |reduced[j].path| == |top|
    {
      SubsequenceMembers(reduced, values, reduced[j]);
    }
    c2, emitted := Settle(cfg, db, c1, reduced, extAllowed, count, nbOcc);
    WidenEffect(cfg, db, c, c1, c2, values, reduced);
    if emitted.Some? && cfg.patternSearch {
      var j :| MatchAt(cfg, db, top, reduced, j) && reduced[j].tree == emitted.value.base;
      SubsequenceMembers(reduced, values, reduced[j]);
      var j' :| 0 <= j' < |values| && values[j'] == reduced[j];
      assert MatchAt(cfg, db, top, values, j');
    }
  }

  /** Every occurrence held for `k` matches one node per step, and `k` is
      not empty. */
  predicate ShapedRecord(k: Code, info: CandidateInfo) {
    |k| > 0 && forall j :: 0 <= j < |info.subtrees| ==> |info.subtrees[j].path| == |k|
  }

  /** The shape every store the engine builds keeps. */
  predicate StoreShaped(c: Candidates) {
    && (forall j :: 0 <= j < |c.worklist| ==> |c.worklist[j]| > 0)
    && (forall k :: k in c.accepted ==> ShapedRecord(k, c.accepted[k]))
    && (forall k :: k in Keys(c.pending) ==> ShapedRecord(k, Get(c.pending, k)))
  }

  /** A step keeps the store's shape. */
  lemma StepKeepsShape(cfg: Config, c: Candidates, c2: Candidates, o: Origin)
    requires StoreShaped(c) && |c.worklist| > 0
    requires o.top == c.worklist[|c.worklist| - 1] && o.values == Record(c, o.top).subtrees
    requires StepEffect(cfg, c, c2, o)
    ensures StoreShaped(c2)
  {
    var top := o.top;
    assert Shaped(o);
    forall k | k in c2.accepted
      ensures ShapedRecord(k, c2.accepted[k])
    {
      if k == top {
        forall v | v in c2.accepted[k].subtrees
          ensures |v.path| == |k|
        {
          SubsequenceMembers(c2.accepted[k].subtrees, c.accepted[k].subtrees, v);
        }
      }
    }
    forall k | k in Keys(c2.pending)
      ensures ShapedRecord(k, Get(c2.pending, k))
    {
      var a := Get(c.pending, k);
      var b := Get(c2.pending, k);
      assert Extends(a, b, o, k);
      if k !in Keys(c.pending) {
        assert |b.subtrees| > 0;
        GeneratedShape(o, k, b.subtrees[0]);
      }
      forall j | 0 <= j < |b.subtrees|
        ensures |b.subtrees[j].path| == |k|
      {
        if j < |a.subtrees| {
          assert b.subtrees[j] == a.subtrees[j];
        } else {
          GeneratedShape(o, k, b.subtrees[j]);
        }
      }
    }
  }

  /** `storeNewCandidates` keeps the store's shape. */
  lemma StoreKeepsShape(c: Candidates)
    requires Valid(c) && StoreShaped(c)
    ensures StoreShaped(StoreNewCandidates(c))
  {
    var r := StoreNewCandidates(c);
    var codes := ReversedCodes(c.pending);
    forall j | 0 <= j < |codes|
      ensures |codes[j]| > 0
    {
      KeysMeans(c.pending, codes[j]);
    }
    assert r.worklist == c.worklist + codes;
  }

  /** Node `i` of graph `t` may seed the one-step code of label `l`: it is
      frequent, carries `l`, is a root under rooted search, and `l` is the
      chosen root label when one is set. */
  predicate Eligible(cfg: Config, db: Db, t: int, i: int, l: int) {
    && InDb(db, t, i) && IsFrequent(db[t][i]) && l in db[t][i].labels
    && (!cfg.rootedTreeSearch || db[t][i].depth == 0)
    && (cfg.useOnlyThisRoot == -1 || l == cfg.useOnlyThisRoot)
  }

  /** `e` is the single-node occurrence of an eligible node seeding the
      one-step code `k`. */
  predicate SeedOf(cfg: Config, db: Db, k: Code, e: Embedding) {
    && |k| == 1 && |k[0].labels| == 1 && k == SeedCode(k[0].labels[0])
    && |e.path| == 1 && e == NewEmbedding(e.tree, e.path)
    && Eligible(cfg, db, e.tree, e.path[0], k[0].labels[0])
  }

  /** Every pending entry holds at least one occurrence, all of them seeds
      of its code. */
  predicate SeedsOnly(cfg: Config, db: Db, p: seq<Entry>) {
    forall k :: k in Keys(p) ==> |Get(p, k).subtrees| > 0 && AllSeeds(cfg, db, k, Get(p, k).subtrees)
  }

  /** Every occurrence in `xs` is a seed of `k`. */
  predicate AllSeeds(cfg: Config, db: Db, k: Code, xs: seq<Embedding>) {
    forall j :: 0 <= j < |xs| ==> SeedOf(cfg, db, k, xs[j])
  }

  lemma AllSeedsSnoc(cfg: Config, db: Db, k: Code, xs: seq<Embedding>, e: Embedding)
    requires AllSeeds(cfg, db, k, xs) && SeedOf(cfg, db, k, e)
    ensures AllSeeds(cfg, db, k, xs + [e])
  {
    forall j | 0 <= j < |xs + [e]|
      ensures SeedOf(cfg, db, k, (xs + [e])[j])
    {
      if j < |xs| {
        assert (xs + [e])[j] == xs[j];
      }
    }
  }

  /** Appending one occurrence to the entry of `k` keeps every entry's old
      occurrences in front. */
  lemma PrefixedSnoc(p0: seq<Entry>, p: seq<Entry>, k: Code, e: Embedding)
    requires Get(p, k).subtrees == Get(p0, k).subtrees + [e]
    requires forall k' :: k' != k ==> Get(p, k') == Get(p0, k')
    ensures Prefixed(p0, p)
  {
    assert Get(p, k).subtrees[..|Get(p0, k).subtrees|] == Get(p0, k).subtrees;
  }

  /** The entry of label `l` holds the occurrence of node `i` of graph `t`. */
  predicate Seeded(p: seq<Entry>, t: int, i: int, l: int) {
    NewEmbedding(t, [i]) in Get(p, SeedCode(l)).subtrees
  }

  /** Every entry of `p` starts with the occurrences it had in `p0`. */
  ghost predicate Prefixed(p0: seq<Entry>, p: seq<Entry>) {
    forall k :: |Get(p0, k).subtrees| <= |Get(p, k).subtrees| &&
      Get(p, k).subtrees[..|Get(p0, k).subtrees|] == Get(p0, k).subtrees
  }

  lemma PrefixedKeepsSeeded(p0: seq<Entry>, p: seq<Entry>)
    requires Prefixed(p0, p)
    ensures forall t, i, l :: Seeded(p0, t, i, l) ==> Seeded(p, t, i, l)
  {
    forall t, i, l | Seeded(p0, t, i, l)
      ensures Seeded(p, t, i, l)
    {
      var a := Get(p0, SeedCode(l)).subtrees;
      var b := Get(p, SeedCode(l)).subtrees;
      assert b[..|a|] == a;
      var j :| 0 <= j < |a| && a[j] == NewEmbedding(t, [i]);
      assert b[j] == a[j];
    }
  }

  lemma SeededKept(p0: seq<Entry>, p: seq<Entry>, t: int, i: int, l: int)
    requires Prefixed(p0, p) && Seeded(p0, t, i, l)
    ensures Seeded(p, t, i, l)
  {
    PrefixedKeepsSeeded(p0, p);
  }

  lemma PrefixedTrans(p0: seq<Entry>, p1: seq<Entry>, p2: seq<Entry>)
    requires Prefixed(p0, p1) && Prefixed(p1, p2)
    ensures Prefixed(p0, p2)
  {
    forall k
      ensures |Get(p0, k).subtrees| <= |Get(p2, k).subtrees|
      ensures Get(p2, k).subtrees[..|Get(p0, k).subtrees|] == Get(p0, k).subtrees
    {
      var a, b, d := Get(p0, k).subtrees, Get(p1, k).subtrees, Get(p2, k).subtrees;
      assert d[..|a|] == d[..|b|][..|a|];
    }
  }

  /** One call of `addNewCandidateNode` for an eligible node. */
  lemma SeedStep(cfg: Config, db: Db, c: Candidates, t: int, i: int, l: int)
    requires Valid(c) && SeedsOnly(cfg, db, c.pending) && Eligible(cfg, db, t, i, l)
    ensures var r := AddNewCandidateNode(c, t, l, i);
      SeedsOnly(cfg, db, r.pending) && Prefixed(c.pending, r.pending) && Seeded(r.pending, t, i, l)
  {
    var r := AddNewCandidateNode(c, t, l, i);
    var k := SeedCode(l);
    var e := NewEmbedding(t, [i]);
    var before := Get(c.pending, k).subtrees;
    assert Get(r.pending, k).subtrees == before + [e];
    assert SeedOf(cfg, db, k, e);
    assert AllSeeds(cfg, db, k, before);
    AllSeedsSnoc(cfg, db, k, before, e);
    PrefixedSnoc(c.pending, r.pending, k, e);
    assert (before + [e])[|before|] == e;
  }

  /** The body of the label loop of `initializeCandidates`: label `l` of
      node `i` seeds its one-step code when no root label is chosen or `l`
      is the chosen one. */
  method SeedLabel(cfg: Config, db: Db, t: int, i: int, l: int, c0: Candidates) returns (c: Candidates)
    requires Valid(c0) && InDb(db, t, i) && IsFrequent(db[t][i]) && l in db[t][i].labels
    requires !cfg.rootedTreeSearch || db[t][i].depth == 0
    requires SeedsOnly(cfg, db, c0.pending)
    ensures Valid(c) && c.worklist == c0.worklist && c.accepted == c0.accepted
    ensures SeedsOnly(cfg, db, c.pending) && Prefixed(c0.pending, c.pending)
    ensures Eligible(cfg, db, t, i, l) ==> Seeded(c.pending, t, i, l)
  {
    c := c0;
    PrefixedTrans(c0.pending, c0.pending, c0.pending);
    if cfg.useOnlyThisRoot == -1 || cfg.useOnlyThisRoot == l {
      c := AddNewCandidateNode(c0, t, l, i);
      SeedStep(cfg, db, c0, t, i, l);
    }
  }

  /** The label loop of `initializeCandidates` for node `i` of graph `t`:
      one seed per label, or only for the chosen root label. */
  method SeedNode(cfg: Config, db: Db, t: int, i: int, c0: Candidates) returns (c: Candidates)
    requires Valid(c0) && InDb(db, t, i) && IsFrequent(db[t][i])
    requires !cfg.rootedTreeSearch || db[t][i].depth == 0
    requires SeedsOnly(cfg, db, c0.pending)
    ensures Valid(c) && c.worklist == c0.worklist && c.accepted == c0.accepted
    ensures SeedsOnly(cfg, db, c.pending) && Prefixed(c0.pending, c.pending)
    ensures forall l :: Eligible(cfg, db, t, i, l) ==> Seeded(c.pending, t, i, l)
  {
    c := c0;
    var labels := db[t][i].labels;
    var m := 0;
    PrefixedTrans(c0.pending, c0.pending, c0.pending);
    while m < |labels|
      invariant 0 <= m <= |labels|
      invariant Valid(c) && c.worklist == c0.worklist && c.accepted == c0.accepted
      invariant SeedsOnly(cfg, db, c.pending) && Prefixed(c0.pending, c.pending)
      invariant forall l :: l in labels[..m] && Eligible(cfg, db, t, i, l) ==> Seeded(c.pending, t, i, l)
    {
      var l := labels[m];
      var next := SeedLabel(cfg, db, t, i, l, c);
      PrefixedTrans(c0.pending, c.pending, next.pending);
      PrefixedKeepsSeeded(c.pending, next.pending);
      c := next;
      assert labels[..m + 1] == labels[..m] + [l];
      m := m + 1;
    }
    assert labels[..m] == labels;
  }

  /** No seed is skipped: without the gap pruning of unique counting and
      without the dense-dataset dedupe, every eligible node is seeded. */
  predicate Unpruned(cfg: Config) {
    !cfg.countUnique || (cfg.maximumGap == 0 && !cfg.denseDataset)
  }

  /** The body of the node loop of `initializeCandidates` for node `i` of
      graph `t`. Under unique counting with a gap, a node whose labels
      include those of a node within reach below it makes that node
      ignored; under the dense-dataset option a node whose subtree text
      `serial(t, i)` was already seen in this graph is skipped and ignored. */
  method SeedVisit(cfg: Config, db: Db, serial: (int, int) -> string, t: int, i: int,
                   c0: Candidates, ignored0: set<int>, seen0: set<string>)
      returns (c: Candidates, ignored: set<int>, seen: set<string>)
    requires Valid(c0) && 0 <= t < |db| && 0 <= i < |db[t]| && SeedsOnly(cfg, db, c0.pending)
    ensures Valid(c) && c.worklist == c0.worklist && c.accepted == c0.accepted
    ensures SeedsOnly(cfg, db, c.pending) && Prefixed(c0.pending, c.pending)
    ensures Unpruned(cfg) ==> forall l :: Eligible(cfg, db, t, i, l) ==> Seeded(c.pending, t, i, l)
    ensures var skipped := (cfg.maximumGap != 0 && cfg.countUnique && i in ignored0)
                        || (cfg.countUnique && cfg.denseDataset && serial(t, i) in seen0);
      && (skipped ==> c == c0)
      && (!skipped ==> forall l :: Eligible(cfg, db, t, i, l) ==> Seeded(c.pending, t, i, l))
    ensures ignored0 <= ignored && seen0 <= seen
    ensures var visited := !(cfg.maximumGap != 0 && cfg.countUnique && i in ignored0)
                        && IsFrequent(db[t][i]) && !(cfg.rootedTreeSearch && db[t][i].depth != 0);
      && (visited && cfg.maximumGap != 0 && cfg.countUnique ==>
            forall j :: j in Reach(db, t, i, cfg.maximumGap) && Includes(db[t][i].labels, NodeAt(db, t, j).labels)
                        ==> j in ignored)
      && (visited && cfg.countUnique && cfg.denseDataset ==> serial(t, i) in seen)
      && (visited && cfg.countUnique && cfg.denseDataset && serial(t, i) in seen0 ==> i in ignored)
  {
    c, ignored, seen := c0, ignored0, seen0;
    PrefixedTrans(c0.pending, c0.pending, c0.pending);
    var node := db[t][i];
    var pruneByGap := cfg.maximumGap != 0 && cfg.countUnique;
    if !(pruneByGap && i in ignored) && IsFrequent(node) && !(cfg.rootedTreeSearch && node.depth != 0) {
      if pruneByGap {
        var reach := Reach(db, t, i, cfg.maximumGap);
        ignored := ignored + set j | j in reach && Includes(node.labels, NodeAt(db, t, j).labels);
      }
      var unseen := true;
      if cfg.countUnique && cfg.denseDataset {
        var text := serial(t, i);
        if text in seen {
          unseen := false;
          ignored := ignored + {i};
        } else {
          seen := seen + {text};
        }
      }
      if unseen {
        c := SeedNode(cfg, db, t, i, c0);
      }
    }
  }

  /** The node loop of `initializeCandidates` for graph `t`, with its set of
      ignored nodes and of subtree texts already seen. */
  method SeedTree(cfg: Config, db: Db, serial: (int, int) -> string, t: int, c0: Candidates) returns (c: Candidates)
    requires Valid(c0) && 0 <= t < |db| && SeedsOnly(cfg, db, c0.pending)
    ensures Valid(c) && c.worklist == c0.worklist && c.accepted == c0.accepted
    ensures SeedsOnly(cfg, db, c.pending) && Prefixed(c0.pending, c.pending)
    ensures Unpruned(cfg) ==> forall i, l :: Eligible(cfg, db, t, i, l) ==> Seeded(c.pending, t, i, l)
  {
    c := c0;
    var ignored: set<int> := {};
    var seen: set<string> := {};
    var i := 0;
    PrefixedTrans(c0.pending, c0.pending, c0.pending);
    while i < |db[t]|
      invariant 0 <= i <= |db[t]|
      invariant Valid(c) && c.worklist == c0.worklist && c.accepted == c0.accepted
      invariant SeedsOnly(cfg, db, c.pending) && Prefixed(c0.pending, c.pending)
      invariant Unpruned(cfg) ==> forall i', l :: 0 <= i' < i && Eligible(cfg, db, t, i', l) ==> Seeded(c.pending, t, i', l)
    {
      var next;
      next, ignored, seen := SeedVisit(cfg, db, serial, t, i, c, ignored, seen);
      PrefixedTrans(c0.pending, c.pending, next.pending);
      if Unpruned(cfg) {
        forall i', l | 0 <= i' <= i && Eligible(cfg, db, t, i', l)
          ensures Seeded(next.pending, t, i', l)
        {
          if i' < i {
            SeededKept(c.pending, next.pending, t, i', l);
          }
        }
      }
      c := next;
      i := i + 1;
    }
  }

  /** `initializeCandidates`: every graph is seeded, then the seeds are
      stored. The least one-step code ends on top of the worklist. */
  method InitializeCandidates(cfg: Config, db: Db, serial: (int, int) -> string) returns (c: Candidates)
    ensures Valid(c) && StoreShaped(c) && Keys(c.pending) == {}
    ensures forall k :: k in c.accepted ==>
      && |c.accepted[k].subtrees| > 0
      && forall j :: 0 <= j < |c.accepted[k].subtrees| ==> SeedOf(cfg, db, k, c.accepted[k].subtrees[j])
    ensures Unpruned(cfg) ==> forall t, i, l :: Eligible(cfg, db, t, i, l) ==>
      SeedCode(l) in c.accepted && NewEmbedding(t, [i]) in c.accepted[SeedCode(l)].subtrees
    ensures forall k :: k in c.accepted <==> k in c.worklist
    ensures forall i, j :: 0 <= i < j < |c.worklist| ==> CodeLess(c.worklist[j], c.worklist[i])
  {
    var p := Empty();
    var t := 0;
    PrefixedTrans(p.pending, p.pending, p.pending);
    while t < |db|
      invariant 0 <= t <= |db|
      invariant Valid(p) && p.worklist == [] && p.accepted == map[]
      invariant SeedsOnly(cfg, db, p.pending)
      invariant Unpruned(cfg) ==> forall t', i, l :: 0 <= t' < t && Eligible(cfg, db, t', i, l) ==> Seeded(p.pending, t', i, l)
    {
      var next := SeedTree(cfg, db, serial, t, p);
      PrefixedKeepsSeeded(p.pending, next.pending);
      p := next;
      t := t + 1;
    }
    c := StoreNewCandidates(p);
    SeedsStored(cfg, db, p, c);
  }

  /** Storing the seeds: the accepted map is the pending map, and the
      worklist lists its codes in decreasing order. */
  lemma SeedsStored(cfg: Config, db: Db, p: Candidates, c: Candidates)
    requires Valid(p) && p.worklist == [] && p.accepted == map[] && SeedsOnly(cfg, db, p.pending)
    requires c == StoreNewCandidates(p)
    ensures StoreShaped(c)
    ensures forall k :: k in c.accepted ==>
      && |c.accepted[k].subtrees| > 0
      && forall j :: 0 <= j < |c.accepted[k].subtrees| ==> SeedOf(cfg, db, k, c.accepted[k].subtrees[j])
    ensures forall t, i, l :: Seeded(p.pending, t, i, l) ==>
      SeedCode(l) in c.accepted && NewEmbedding(t, [i]) in c.accepted[SeedCode(l)].subtrees
    ensures forall k :: k in c.accepted <==> k in c.worklist
    ensures forall i, j :: 0 <= i < j < |c.worklist| ==> CodeLess(c.worklist[j], c.worklist[i])
  {
    WorklistIsKeys(p.pending);
    if |p.pending| > 0 {
      ReversedCodesDescend(p.pending);
    }
    SeedsKept(cfg, db, p, c);
  }

  lemma SeedsKept(cfg: Config, db: Db, p: Candidates, c: Candidates)
    requires Valid(p) && p.worklist == [] && p.accepted == map[] && SeedsOnly(cfg, db, p.pending)
    requires c == StoreNewCandidates(p)
    ensures forall k :: k in c.accepted ==> c.accepted[k] == Get(p.pending, k) && k in Keys(p.pending)
    ensures StoreShaped(c)
    ensures forall t, i, l :: Seeded(p.pending, t, i, l) ==>
      SeedCode(l) in c.accepted && NewEmbedding(t, [i]) in c.accepted[SeedCode(l)].subtrees
  {
    forall k | k in Keys(p.pending)
      ensures ShapedRecord(k, Get(p.pending, k))
    {
      assert SeedOf(cfg, db, k, Get(p.pending, k).subtrees[0]);
    }
    WorklistIsKeys(p.pending);
    forall j | 0 <= j < |c.worklist|
      ensures |c.worklist[j]| > 0
    {
      assert c.worklist[j] in ReversedCodes(p.pending);
    }
  }

  /** The codes pushed by `storeNewCandidates` are exactly the pending keys. */
  lemma WorklistIsKeys(p: seq<Entry>)
    ensures forall k :: k in Keys(p) <==> k in ReversedCodes(p)
  {
    var w := ReversedCodes(p);
    forall k
      ensures k in Keys(p) <==> k in w
    {
      KeysMeans(p, k);
      if k in w {
        var j :| 0 <= j < |w| && w[j] == k;
        assert p[|p| - 1 - j].code == k;
      }
      if k in Keys(p) {
        var j :| 0 <= j < |p| && p[j].code == k;
        assert w[|p| - 1 - j] == k;
      }
    }
  }

  /** A run's reports are frequent codes that passed the tests. */
  predicate Sound(cfg: Config, e: Emission) {
    && |e.code| > 0 && e.count >= cfg.absoluteSupport
    && cfg.outputFrequentTrees && !cfg.closedSequenceSearch
    && (cfg.orderedSearch || (IsCanonical(e.code) != 1 && CycleCode(e.code) != 1))
  }

  /** The loop of `main`: `performJoin` (one step, then `storeNewCandidates`)
      until the worklist is empty. The run stops early when a step aborts,
      and after `fuel` steps. */
  method Run(cfg: Config, db: Db, c0: Candidates, fuel: nat) returns (c: Candidates, out: seq<Emission>, aborted: bool, steps: nat)
    requires Valid(c0) && StoreShaped(c0) && Keys(c0.pending) == {}
    ensures Valid(c) && StoreShaped(c) && Keys(c.pending) == {}
    ensures forall j :: 0 <= j < |out| ==> Sound(cfg, out[j])
    ensures steps <= fuel && |out| <= steps
    ensures !aborted ==> steps == fuel || |c.worklist| == 0
  {
    c, out, aborted, steps := c0, [], false, 0;
    while steps < fuel && |c.worklist| > 0
      invariant Valid(c) && StoreShaped(c) && Keys(c.pending) == {}
      invariant forall j :: 0 <= j < |out| ==> Sound(cfg, out[j])
      invariant steps <= fuel && |out| <= steps
    {
      var next, emitted, stop := PerformJoin(cfg, db, c);
      if stop {
        aborted := true;
        return;
      }
      if emitted.Some? {
        out := out + [emitted.value];
      }
      c := next;
      steps := steps + 1;
    }
  }

  /** `performJoin`: the first code is extended, then the codes it generated
      are stored. A step that aborts leaves nothing to store. */
  method PerformJoin(cfg: Config, db: Db, c: Candidates) returns (r: Candidates, emitted: Option<Emission>, aborted: bool)
    requires Valid(c) && StoreShaped(c) && Keys(c.pending) == {} && |c.worklist| > 0
    ensures Valid(r) && StoreShaped(r) && Keys(r.pending) == {}
    ensures aborted ==> emitted.None?
    ensures emitted.Some? ==> Sound(cfg, emitted.value)
  {
    var t := ExtendFirst(cfg, db, c);
    if t.Aborted? {
      return c, None, true;
    }
    var top := c.worklist[|c.worklist| - 1];
    StepKeepsShape(cfg, c, t.c, Origin(cfg, db, top, Record(c, top).subtrees));
    StoreKeepsShape(t.c);
    r, emitted, aborted := StoreNewCandidates(t.c), t.emitted, false;
  }

  /** The sweep at the end of `main` under closed-sequence search: every
      accepted code not marked as subsumed whose recorded support reaches
      the threshold is reported with that support. */
  method ClosedSweep(cfg: Config, c: Candidates) returns (r: set<Emission>)
    ensures forall e :: e in r <==>
      && e.code in c.accepted && !c.accepted[e.code].isClosed
      && c.accepted[e.code].perTreeFrequency >= cfg.absoluteSupport
      && e.count == c.accepted[e.code].perTreeFrequency && e.base == -1
  {
    r := {};
    var rest := c.accepted.Keys;
    while rest != {}
      invariant rest <= c.accepted.Keys
      invariant forall e :: e in r <==>
        && e.code in c.accepted && e.code !in rest && !c.accepted[e.code].isClosed
        && c.accepted[e.code].perTreeFrequency >= cfg.absoluteSupport
        && e.count == c.accepted[e.code].perTreeFrequency && e.base == -1
      decreases |rest|
    {
      var k :| k in rest;
      var info := c.accepted[k];
      if !info.isClosed && info.perTreeFrequency >= cfg.absoluteSupport {
        r := r + {Emission(k, info.perTreeFrequency, -1)};
      }
      rest := rest - {k};
    }
  }
}
