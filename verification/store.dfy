/** The candidate store: the codes waiting to be committed (kept sorted by
    the code order, as a `std::map` with `compare`), the accepted records
    (a `std::map` under the default order, whose iteration order the engine
    never relies on), and the worklist of accepted codes still to extend. */
module Store {
  import opened Codes
  import opened Embeddings

  /** `CandidateInfo`: the occurrence list, the two counts and the flag that
      marks the code as subsumed by a super-pattern. */
  datatype CandidateInfo = CandidateInfo(
    subtrees: seq<Embedding>,
    perTreeFrequency: int,
    nbOccurences: int,
    isClosed: bool)

  /** A fresh record: no occurrences, both counts -1, not subsumed. */
  function NewCandidateInfo(): (r: CandidateInfo)
    ensures r.subtrees == [] && r.perTreeFrequency == -1 && r.nbOccurences == -1 && !r.isClosed
  {
    CandidateInfo([], -1, -1, false)
  }

  /** One entry of the pending map. */
  datatype Entry = Entry(code: Code, info: CandidateInfo)

  /** The pending map as its entries in increasing code order. */
  predicate SortedEntries(p: seq<Entry>) {
    forall i, j :: 0 <= i < j < |p| ==> CodeLess(p[i].code, p[j].code)
  }

  /** The keys of the pending map. */
  function Keys(p: seq<Entry>): set<Code> {
    if |p| == 0 then {} else {p[0].code} + Keys(p[1..])
  }

  /** A key is present exactly when some entry holds it. */
  lemma {:induction false} KeysMeans(p: seq<Entry>, k: Code)
    ensures k in Keys(p) <==> exists i :: 0 <= i < |p| && p[i].code == k
  {
    if |p| > 0 {
      KeysMeans(p[1..], k);
      if exists i :: 0 <= i < |p| && p[i].code == k {
        var i :| 0 <= i < |p| && p[i].code == k;
        if i > 0 {
          assert p[1..][i - 1].code == k;
        }
      }
      if exists i :: 0 <= i < |p[1..]| && p[1..][i].code == k {
        var i :| 0 <= i < |p[1..]| && p[1..][i].code == k;
        assert p[i + 1].code == k;
      }
    }
  }

  lemma KeysCons(e: Entry, p: seq<Entry>)
    ensures Keys([e] + p) == {e.code} + Keys(p)
  {
    assert ([e] + p)[1..] == p;
  }

  lemma {:induction false} KeysSnoc(p: seq<Entry>, e: Entry)
    ensures Keys(p + [e]) == Keys(p) + {e.code}
    decreases |p|
  {
    if |p| == 0 {
      assert ([] + [e])[1..] == [];
    } else {
      KeysSnoc(p[1..], e);
      assert (p + [e])[1..] == p[1..] + [e];
    }
  }

  /** `newCandidates[code]` as a read: the stored record, or a fresh one. */
  function Get(p: seq<Entry>, code: Code): (r: CandidateInfo)
    ensures code !in Keys(p) ==> r == NewCandidateInfo()
  {
    if |p| == 0 then NewCandidateInfo()
    else if p[0].code == code then p[0].info
    else Get(p[1..], code)
  }

  /** In a sorted map, reading the key of entry `i` gives entry `i`. */
  lemma {:induction false} SortedGet(p: seq<Entry>, i: int)
    requires SortedEntries(p) && 0 <= i < |p|
    ensures Get(p, p[i].code) == p[i].info
  {
    if i > 0 {
      assert CodeLess(p[0].code, p[i].code);
      CodeLessIrreflexive(p[i].code);
      assert p[1..][i - 1] == p[i];
      SortedGet(p[1..], i - 1);
    }
  }

  /** An entry below every key of a sorted map can go in front of it. */
  lemma SortedCons(e: Entry, q: seq<Entry>)
    requires SortedEntries(q)
    requires forall k :: k in Keys(q) ==> CodeLess(e.code, k)
    ensures SortedEntries([e] + q)
  {
    var r := [e] + q;
    forall i, j | 0 <= i < j < |r|
      ensures CodeLess(r[i].code, r[j].code)
    {
      if i == 0 {
        assert r[j] == q[j - 1];
        KeysMeans(q, q[j - 1].code);
      } else {
        assert r[i] == q[i - 1] && r[j] == q[j - 1];
      }
    }
  }

  /** The first entry of a sorted map is below all the others. */
  lemma SortedHead(p: seq<Entry>)
    requires SortedEntries(p) && |p| > 0
    ensures SortedEntries(p[1..])
    ensures forall k :: k in Keys(p[1..]) ==> CodeLess(p[0].code, k)
    ensures p[0].code !in Keys(p[1..])
  {
    forall k | k in Keys(p[1..])
      ensures CodeLess(p[0].code, k)
    {
      KeysMeans(p[1..], k);
      var m :| 0 <= m < |p[1..]| && p[1..][m].code == k;
      assert p[m + 1] == p[1..][m];
    }
    CodeLessIrreflexive(p[0].code);
  }

  /** The map with `code` bound to `info`, in its place in the order. */
  function Put(p: seq<Entry>, code: Code, info: CandidateInfo): (r: seq<Entry>)
    requires SortedEntries(p)
    ensures SortedEntries(r)
    ensures Keys(r) == Keys(p) + {code}
    ensures Get(r, code) == info
    ensures forall k :: k != code ==> Get(r, k) == Get(p, k)
    decreases |p|
  {
    if |p| == 0 then [Entry(code, info)]
    else
      SortedHead(p);
      if p[0].code == code then
        var r := [Entry(code, info)] + p[1..];
        assert r[1..] == p[1..];
        SortedCons(r[0], p[1..]);
        r
      else if CodeLess(code, p[0].code) then
        var r := [Entry(code, info)] + p;
        assert r[1..] == p;
        forall k | k in Keys(p)
          ensures CodeLess(code, k)
        {
          if k != p[0].code {
            CodeLessTransitive(code, p[0].code, k);
          }
        }
        SortedCons(r[0], p);
        r
      else
        var rest := Put(p[1..], code, info);
        var r := [p[0]] + rest;
        assert r[1..] == rest;
        CodeLessTrichotomy(code, p[0].code);
        SortedCons(p[0], rest);
        r
  }

  /** `newCandidates.erase(code)`. */
  function Remove(p: seq<Entry>, code: Code): (r: seq<Entry>)
    requires SortedEntries(p)
    ensures SortedEntries(r)
    ensures Keys(r) == Keys(p) - {code}
    ensures forall k :: k != code ==> Get(r, k) == Get(p, k)
    decreases |p|
  {
    if |p| == 0 then []
    else
      SortedHead(p);
      var rest := Remove(p[1..], code);
      if p[0].code == code then rest
      else
        var r := [p[0]] + rest;
        assert r[1..] == rest;
        SortedCons(p[0], rest);
        r
  }

  /** The whole store. */
  datatype Candidates = Candidates(
    worklist: seq<Code>,
    accepted: map<Code, CandidateInfo>,
    pending: seq<Entry>)

  predicate Valid(c: Candidates) {
    SortedEntries(c.pending)
  }

  function Empty(): (c: Candidates)
    ensures Valid(c) && c.worklist == [] && c.accepted == map[] && Keys(c.pending) == {}
  {
    Candidates([], map[], [])
  }

  /** The record a worklist entry refers to. An entry whose code has been
      erased from the accepted map meanwhile (a dangling pointer in the
      original) reads a fresh record. */
  function Record(c: Candidates, code: Code): CandidateInfo {
    if code in c.accepted then c.accepted[code] else NewCandidateInfo()
  }

  /** `addNewCandidate(code, e)`: `e` is appended to the occurrence list of
      the pending entry for `code`, which is created when absent. */
  function AddNewCandidate(c: Candidates, code: Code, e: Embedding): (r: Candidates)
    requires Valid(c)
    ensures Valid(r)
    ensures r.worklist == c.worklist && r.accepted == c.accepted
    ensures Keys(r.pending) == Keys(c.pending) + {code}
    ensures Get(r.pending, code) == Get(c.pending, code).(subtrees := Get(c.pending, code).subtrees + [e])
    ensures forall k :: k != code ==> Get(r.pending, k) == Get(c.pending, k)
  {
    var info := Get(c.pending, code);
    c.(pending := Put(c.pending, code, info.(subtrees := info.subtrees + [e])))
  }

  /** The one-step code of a single label at depth 0. */
  function SeedCode(l: int): (r: Code)
    ensures |r| == 1 && r[0].labels == [l] && r[0].depth == 0
  {
    [Step([l], 0)]
  }

  /** `addNewCandidateNode(tree, l, node)`: one occurrence `(tree, [node])`
      for the one-step code `[({l}, 0)]`. */
  function AddNewCandidateNode(c: Candidates, tree: int, l: int, node: int): (r: Candidates)
    requires Valid(c)
    ensures Valid(r)
    ensures r.worklist == c.worklist && r.accepted == c.accepted
    ensures Keys(r.pending) == Keys(c.pending) + {SeedCode(l)}
    ensures var before := Get(c.pending, SeedCode(l));
      Get(r.pending, SeedCode(l)).subtrees == before.subtrees + [Embedding(tree, [node], 1)]
    ensures forall k :: k != SeedCode(l) ==> Get(r.pending, k) == Get(c.pending, k)
  {
    AddNewCandidate(c, SeedCode(l), NewEmbedding(tree, [node]))
  }

  /** The codes of the pending entries, from the last one to the first. */
  function ReversedCodes(p: seq<Entry>): (r: seq<Code>)
    ensures |r| == |p|
    ensures forall k :: 0 <= k < |p| ==> r[k] == p[|p| - 1 - k].code
  {
    if |p| == 0 then [] else [p[|p| - 1].code] + ReversedCodes(p[..|p| - 1])
  }

  /** Reading a key other than the one appended. */
  lemma {:induction false} GetSnoc(p: seq<Entry>, e: Entry, k: Code)
    requires k != e.code
    ensures Get(p + [e], k) == Get(p, k)
    decreases |p|
  {
    if |p| > 0 {
      assert (p + [e])[1..] == p[1..] + [e];
      GetSnoc(p[1..], e, k);
    }
  }

  /** The loop of `storeNewCandidates` over the entries still to commit,
      taken from the greatest: `insert` adds a key that is absent and leaves
      a present record alone. */
  function Commit(accepted: map<Code, CandidateInfo>, p: seq<Entry>): (r: map<Code, CandidateInfo>)
    requires SortedEntries(p)
    ensures r.Keys == accepted.Keys + Keys(p)
    ensures forall k :: k in accepted ==> r[k] == accepted[k]
    ensures forall k :: k in Keys(p) && k !in accepted ==> r[k] == Get(p, k)
    decreases |p|
  {
    if |p| == 0 then accepted
    else
      var e := p[|p| - 1];
      var front := p[..|p| - 1];
      assert p == front + [e];
      KeysSnoc(front, e);
      SortedGet(p, |p| - 1);
      forall k | k != e.code
        ensures Get(p, k) == Get(front, k)
      {
        GetSnoc(front, e, k);
      }
      var a := if e.code in accepted then accepted else accepted[e.code := e.info];
      Commit(a, front)
  }

  /** `storeNewCandidates()`: every pending entry is committed and its code
      pushed, greatest first; the pending map is left empty. */
  function StoreNewCandidates(c: Candidates): (r: Candidates)
    requires Valid(c)
    ensures Valid(r)
    ensures Keys(r.pending) == {}
    ensures r.worklist == c.worklist + ReversedCodes(c.pending)
    ensures r.accepted.Keys == c.accepted.Keys + Keys(c.pending)
    ensures forall k :: k in c.accepted ==> r.accepted[k] == c.accepted[k]
    ensures forall k :: k in Keys(c.pending) && k !in c.accepted ==> r.accepted[k] == Get(c.pending, k)
  {
    Candidates(c.worklist + ReversedCodes(c.pending), Commit(c.accepted, c.pending), [])
  }

  /** The codes are pushed in decreasing order, so the least pending code
      ends on top of the worklist. */
  lemma ReversedCodesDescend(p: seq<Entry>)
    requires SortedEntries(p) && |p| > 0
    ensures var w := ReversedCodes(p);
      && w[|w| - 1] == p[0].code
      && (forall i, j :: 0 <= i < j < |w| ==> CodeLess(w[j], w[i]))
      && (forall k :: k in Keys(p) && k != p[0].code ==> CodeLess(p[0].code, k))
  {
    var w := ReversedCodes(p);
    var n := |p|;
    forall i, j | 0 <= i < j < |w|
      ensures CodeLess(w[j], w[i])
    {
      SortedAt(p, n - 1 - j, n - 1 - i);
    }
    SortedHead(p);
    assert Keys(p) == {p[0].code} + Keys(p[1..]);
  }

  lemma SortedAt(p: seq<Entry>, a: int, b: int)
    requires SortedEntries(p) && 0 <= a < b < |p|
    ensures CodeLess(p[a].code, p[b].code)
  {
  }

  /** `removeCandidate(keep)`: the top entry is popped; with `keep` its
      record loses its occurrences only, otherwise its code is erased from
      the accepted map. */
  function RemoveCandidate(c: Candidates, keep: bool): (r: Candidates)
    requires |c.worklist| > 0
    ensures r.worklist == c.worklist[..|c.worklist| - 1]
    ensures r.pending == c.pending
    ensures var top := c.worklist[|c.worklist| - 1];
      && (keep ==> (&& r.accepted.Keys == c.accepted.Keys
                    && (top in c.accepted ==> r.accepted[top] == c.accepted[top].(subtrees := []))
                    && forall k :: k in c.accepted && k != top ==> r.accepted[k] == c.accepted[k]))
      && (!keep ==> r.accepted == c.accepted - {top})
  {
    var top := c.worklist[|c.worklist| - 1];
    var accepted :=
      if !keep then c.accepted - {top}
      else if top in c.accepted then c.accepted[top := c.accepted[top].(subtrees := [])]
      else c.accepted;
    c.(worklist := c.worklist[..|c.worklist| - 1], accepted := accepted)
  }

  /** `removeNewCandidate(code)`. */
  function RemoveNewCandidate(c: Candidates, code: Code): (r: Candidates)
    requires Valid(c)
    ensures Valid(r)
    ensures r.worklist == c.worklist && r.accepted == c.accepted
    ensures Keys(r.pending) == Keys(c.pending) - {code}
    ensures forall k :: k != code ==> Get(r.pending, k) == Get(c.pending, k)
  {
    c.(pending := Remove(c.pending, code))
  }

  /** `setSuperCount(record of code, count, nbOcc)`: the two counts are
      overwritten; a record that is no longer in the map is not written. */
  function SetSuperCount(c: Candidates, code: Code, count: int, nbOcc: int): (r: Candidates)
    ensures r.worklist == c.worklist && r.pending == c.pending
    ensures r.accepted.Keys == c.accepted.Keys
    ensures code in c.accepted ==>
      r.accepted[code] == c.accepted[code].(perTreeFrequency := count, nbOccurences := nbOcc)
    ensures forall k :: k in c.accepted && k != code ==> r.accepted[k] == c.accepted[k]
  {
    if code in c.accepted then
      c.(accepted := c.accepted[code := c.accepted[code].(perTreeFrequency := count, nbOccurences := nbOcc)])
    else c
  }

  /** `setClosed(record of code)`: marks the code as subsumed. */
  function SetClosed(c: Candidates, code: Code): (r: Candidates)
    ensures r.worklist == c.worklist && r.pending == c.pending
    ensures r.accepted.Keys == c.accepted.Keys
    ensures code in c.accepted ==> r.accepted[code] == c.accepted[code].(isClosed := true)
    ensures forall k :: k in c.accepted && k != code ==> r.accepted[k] == c.accepted[k]
  {
    if code in c.accepted then c.(accepted := c.accepted[code := c.accepted[code].(isClosed := true)])
    else c
  }

  /** No operation of the store ever clears the subsumed flag. */
  lemma ClosedIsSticky(c: Candidates, code: Code, k: Code, count: int, nbOcc: int, keep: bool)
    requires Valid(c) && k in c.accepted && c.accepted[k].isClosed
    ensures SetClosed(c, code).accepted[k].isClosed
    ensures SetSuperCount(c, code, count, nbOcc).accepted[k].isClosed
    ensures StoreNewCandidates(c).accepted[k].isClosed
    ensures |c.worklist| > 0 && k in RemoveCandidate(c, keep).accepted ==>
      RemoveCandidate(c, keep).accepted[k].isClosed
  {
  }
}
