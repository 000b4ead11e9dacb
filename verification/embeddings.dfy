/** One occurrence of a pattern in the data: the graph it lies in and, for
    every step of the pattern code, the index of the node matched there. */
module Embeddings {
  import opened IntSets

  /** `SequenceInfo`: `nbIdentical` is carried but never read by the engine. */
  datatype Embedding = Embedding(tree: int, path: seq<int>, nbIdentical: int)

  /** `SequenceInfo(nbTree, pathList)`. */
  function NewEmbedding(tree: int, path: seq<int>): (e: Embedding)
    ensures GetNbTree(e) == tree && GetPathList(e) == path && GetSize(e) == |path|
    ensures e.nbIdentical == 1
  {
    Embedding(tree, path, 1)
  }

  function GetNbTree(e: Embedding): int {
    e.tree
  }

  function GetPathList(e: Embedding): seq<int> {
    e.path
  }

  function GetSize(e: Embedding): nat {
    |e.path|
  }

  function GetLast(e: Embedding): int
    requires |e.path| > 0
  {
    e.path[|e.path| - 1]
  }

  function GetElementAt(e: Embedding, n: int): int
    requires 0 <= n < |e.path|
  {
    e.path[n]
  }

  /** The accessors read one value and agree with each other: the last element
      is the element at `getSize() - 1`, and every element is a node of the path. */
  lemma AccessorsAgree(e: Embedding, n: int)
    requires 0 <= n < GetSize(e)
    ensures GetElementAt(e, n) in GetPathList(e)
    ensures GetLast(e) == GetElementAt(e, GetSize(e) - 1)
    ensures GetSize(e) == |GetPathList(e)|
  {
  }

  /** The embedding with one more matched node (`path.push_back(n)` on a copy). */
  function Extend(e: Embedding, n: int): (r: Embedding)
    ensures r.tree == e.tree && GetSize(r) == GetSize(e) + 1
    ensures GetLast(r) == n && r.path[..|e.path|] == e.path
    ensures r.nbIdentical == 1
  {
    NewEmbedding(e.tree, e.path + [n])
  }

  /** `operator==`: graph and path agree; the identical-subtree counter is ignored. */
  predicate Same(a: Embedding, b: Embedding) {
    a.tree == b.tree && a.path == b.path
  }

  /** `operator<`: lexicographic on (graph id, path). */
  predicate Less(a: Embedding, b: Embedding) {
    if a.tree < b.tree then true
    else if a.tree > b.tree then false
    else LexLess(a.path, b.path)
  }

  /** Two embeddings are `==` exactly when they differ at most in the counter. */
  lemma SameIgnoresCounter(a: Embedding, b: Embedding)
    ensures Same(a, b) <==> a.(nbIdentical := 0) == b.(nbIdentical := 0)
  {
  }

  /** `<` is a strict order whose incomparable pairs are exactly the `==` pairs. */
  lemma LessIsStrictTotal(a: Embedding, b: Embedding, c: Embedding)
    ensures !Less(a, a)
    ensures Less(a, b) && Less(b, c) ==> Less(a, c)
    ensures !Same(a, b) ==> (Less(a, b) <==> !Less(b, a))
    ensures Same(a, b) ==> !Less(a, b) && !Less(b, a)
  {
    LexLessIrreflexive(a.path);
    LexLessTrichotomy(a.path, b.path);
    if Less(a, b) && Less(b, c) && a.tree == b.tree && b.tree == c.tree {
      LexLessTransitive(a.path, b.path, c.path);
    }
  }
}
