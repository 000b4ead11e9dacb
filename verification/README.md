# AADAGE mining engine: a Dafny model

AADAGE mines frequent substructures from a forest of labelled, rooted and
possibly cyclic graphs. This project models its candidate enumeration engine.

- **Input.** Each graph is a vector of nodes. A node has a label set, a child set and a depth.
- **Label pruning.** Infrequent labels are erased from the nodes before the search starts.
- **Seeding.** The candidate store gets one one-step *pattern code* per frequent label and node.
- **Search loop.** The code on top of the worklist is popped and processed (`extendFirstCandidate`):
  - its support is counted;
  - it is tested against the canonical form (acyclic, and with back-edges to the root);
  - its occurrence list is reduced;
  - closure bookkeeping is done;
  - it may be reported;
  - it is extended by one item or one node, and the codes this generates are committed to the worklist.
- **Final sweep.** Under closed-sequence search, a last pass reports the records that were never marked as subsumed.

The model is functional. The store is an immutable value:

- the pending map is a sorted association list under the engine's code order;
- the accepted map is a Dafny `map`;
- the worklist is a sequence of codes.

The run configuration (the original's global flags) is one `Config` value passed to every operation.
Label sets and child sets are strictly increasing integer sequences, which is the iteration order of `std::set<int>`.

Modules follow the program's structure:

| module | models |
|---|---|
| `IntSets` | `std::set<int>` operations |
| `Settings` | the flags |
| `Graphs` | `NodeInfo`, `collectAllChilds` and `isAncestor` |
| `Embeddings` | `SequenceInfo` |
| `Codes` | the code order of `Candidates.h`, `isSubSequence`, step deletion and `convertLabel` |
| `Canonical` | `getPreviousSibbling`, `getParent`, `compareSubStructure` and `isCanonical` |
| `Cycles` | `isCycleCanonical` |
| `Store` | `Candidates` and `CandidateInfo` |
| `Support` | `countMotifs` and `getNbOccurences` |
| `Closure` | the inherited counts and the marking of subsumed codes |
| `Reductions` | the three occurrence-list reductions |
| `Extension` | the itemset and structural extension |
| `Pruning` | `getfrequentNodes` and `removeUnfrequentNodes` |
| `Mining` | `extendFirstCandidate`, `initializeCandidates`, `performJoin` and the loop of `main` |
| `Text` | the `split` and `join` helpers of `common.cpp` |

Points where the code's behaviour is easy to misread:

- **Code order.** At equal depth the label sets are compared element by element, and a set orders *before* each of its proper prefixes (`compare::myComp`). It is not the plain lexicographic order of sets.
- **Closure bookkeeping.**
  - The item-by-item inclusion test (`isSubSequence`) serves closed-itemset search (`getInheritedCount`).
  - The one-step deletion serves closed-sequence search (`getInheritedCountStructural`, `markPreviousNonClosedCandidates`).
  - `markPreviousNonClosedCandidates` *sets* the subsumed flag (`setClosed`) on the narrower codes of equal support; nothing ever clears it.
- **`storeNewCandidates`.** `std::map::insert` leaves an accepted record that is already present untouched; it never overwrites it.
- **The cycle test.** It runs whenever `isCanonical` does not reject a code whose last step is the back-edge to the root, whatever the undirected-graph flag says. Inside it, `isCanonical` is read as a boolean, so only a result of 0 counts as false.
- **Invalid back-edge indices.** The original reads undefined memory rather than aborting. The model makes each such case total (see "Left out").
- **`compareSubStructure`.** It tells differing label sets apart by their addresses (see "Findings"). The engine's `IsCanonical` uses this comparison as written, so the model enumerates what the original enumerates. The comparison by content, and the canonical test built on it, are stated beside it as `CompareSubStructure` and `IsCanonicalByContent`.
- **A negative gap.** `collectAllChilds` then recurses until it meets a node without children, which never happens on a cycle (see "Findings"). The model collects the full reach instead.

## Model

| member | source | states |
|---|---|---|
| Settings.Defaults | src/aadage.cpp:46-82 | the flags start as unique counting, no closed or ordered search, no pattern, rooted-tree or sequence search, no frequent-tree output, not dense, not undirected, support 0, maximum support `INT_MAX`, no gap bound, no depth bound, no chosen root, no label filters, no reference patterns and no itemsets |
| IntSets.Union | src/aadage.cpp:473-489 | the merge of two sets is sorted and holds exactly the elements of either |
| IntSets.Filter | src/aadage.cpp:1881-1897 | erasing labels outside a set keeps the order and exactly the labels that are kept |
| IntSets.SortedUnique | src/NodeInfo.h:48-49 | two sorted sequences with the same elements are the same set image |
| IntSets.LexLessTrichotomy | src/SequenceInfo.cpp:31-39 | `std::set`/`vector` `operator<` is a strict total order: exactly one direction holds for distinct sequences |
| IntSets.LexLessTransitive | src/SequenceInfo.cpp:31-39 | the lexicographic order of paths is transitive |
| Graphs.DefaultNode | src/NodeInfo.cpp:26-30 | the empty node has no labels, no children, depth -1, and is not frequent |
| Graphs.NewNode | src/NodeInfo.cpp:32-36 | a new node keeps the given depth, has no labels or children, and is not frequent |
| Graphs.FrequencyIgnoresStructure | src/NodeInfo.h:46 | a node is frequent exactly when it carries some label, whatever its children and depth |
| Graphs.CollectFromIsBoundedReach | src/aadage.cpp:473-489 | the nodes collected with bound d are exactly those reachable from the start by a walk of 1 to d+1 child edges |
| Graphs.CollectStable | src/aadage.cpp:473-489 | on an acyclic graph, collecting beyond the start's rank gives exactly the whole descendant relation, which is what the unbounded recursion of a negative gap computes |
| Graphs.CollectAsWrittenFinishes | src/aadage.cpp:473-481 | with a gap d >= 0 the recursion as written ends within d+1 nested calls and collects exactly what `CollectAllChilds` collects |
| Graphs.NegativeGapNeverFinishes | src/aadage.cpp:473-481 | with a negative gap the recursion as written does not end on two nodes that are each other's child, however many nested calls it is allowed |
| Graphs.NegativeGapIsReach | src/aadage.cpp:473-481 | with a negative gap the model collects exactly the nodes reachable by a walk of one or more child edges, on every graph, cyclic or not |
| Graphs.IsAncestor | src/aadage.cpp:490-508 | `isAncestor` holds exactly when the second node is reachable from the first by a walk of at most gap+1 child edges; for a negative gap, by a walk of any length |
| Embeddings.NewEmbedding | src/SequenceInfo.cpp:21-25 | a new occurrence reads back its graph and path through the accessors, and its identical-subtree counter is 1 |
| Embeddings.Extend | src/aadage.cpp:1553-1555 | extending an occurrence keeps its graph and path prefix and appends the new node as the last element |
| Embeddings.LessIsStrictTotal | src/SequenceInfo.cpp:27-39 | `operator<` is an irreflexive, transitive order whose incomparable pairs are exactly the `operator==` pairs |
| Codes.StepLessShape | src/Candidates.h:52-70 | `myComp` orders steps by depth first, then by the first differing label, and puts a longer label set before its proper prefix |
| Codes.StepLessIsStrictTotal | src/Candidates.h:52-70 | `myComp` is a strict total order on steps |
| Codes.CodeLessTrichotomy | src/Candidates.h:72-76 | the lexicographic code order relates every two distinct codes in exactly one direction |
| Codes.CodeLessTransitive | src/Candidates.h:72-76 | the lexicographic code order is transitive |
| Codes.PrefixOrdersFirst | src/Candidates.h:72-76 | a proper prefix of a code orders before every extension of it |
| Codes.DeleteStepDepths | src/aadage.cpp:1033-1043 | after deleting step i, a later step goes up one level exactly when it and every step between it and step i lay deeper than step i |
| Codes.SubSequenceMeans | src/aadage.cpp:977-995 | `isSubSequence` holds exactly for distinct codes of equal length and equal depths whose label sets grow step by step; it is irreflexive and never holds both ways |
| Codes.MutualInclusionEqual | src/aadage.cpp:977-995 | two codes that include each other item by item are equal |
| Codes.ConvertKeepsLabels | src/Candidates.cpp:131-145 | deleting the up-markers from the output of `convertLabel` leaves the steps' label sets in order |
| Codes.ConvertKeepsDepths | src/Candidates.cpp:131-145 | replaying the output of `convertLabel` (a label set goes down one level, a marker goes up one) reproduces every step's depth |
| Canonical.PreviousSibling | src/aadage.cpp:609-623 | the result is the nearest earlier step at the same depth with only deeper steps in between, or -1 when no earlier step is such a sibling |
| Canonical.Parent | src/aadage.cpp:624-633 | the result is the nearest earlier step that is shallower, searched down to index 1, with index 0 as the fallback and -1 only for the root |
| Canonical.RightmostPath | src/aadage.cpp:1261-1268 | the path runs from the root to the last step, and each position is the parent of the next |
| Canonical.CompareByAddress | src/aadage.cpp:691-724 | the comparison as written: 0 exactly when the left window equals the rest of the code; 1 exactly when the left window is shorter and equals the same-length start of the right window; -1 in every other case, whatever the differing label sets contain |
| Canonical.AddressCompareAcceptsBothOrders | src/aadage.cpp:717-722 | for two different codes of one tree that list two sibling subtrees in opposite orders, the comparison as written answers -1 for both |
| Canonical.CompareSubStructure | src/aadage.cpp:685-724 | the comparison with label sets compared by content: 0 exactly when the left window equals the rest of the code; 1 exactly when the left window is no longer and orders after the right one (the first difference has equal depth and the greater label set on the left, or there is none and the left window is shorter) |
| Canonical.SiblingCompareByContent | src/aadage.cpp:685-724 | on those two codes, the subtree with the greater label set first gives 1 and the other order gives -1 |
| Canonical.AddressCanonicalKeepsBothOrders | src/aadage.cpp:737-764 | as the original runs it, `isCanonical` answers -1 for both of those codes, so both orders of the one tree are kept |
| Canonical.IsCanonicalByContent | src/aadage.cpp:685-764 | the canonical test over the comparison by content: 1 exactly when some sibling comparison on the rightmost path gives 1, 0 exactly when there was one and all were ties, -1 otherwise |
| Canonical.ContentCompareKeepsOneOrder | src/aadage.cpp:737-764 | with the comparison by content, the test rejects the first of the two codes and keeps the second |
| Canonical.DecodeRemovesBackEdges | src/aadage.cpp:739-744 | when every back-edge points to an earlier step, the decoded code has no back-edge left |
| Canonical.IsCanonical | src/aadage.cpp:737-764 | with sibling subtrees compared by address, as the original compares them: 1 exactly when some sibling comparison on the rightmost path gives 1; 0 exactly when there was at least one comparison and all of them were ties; -1 otherwise, and always for codes of at most one step |
| Cycles.Shift | src/aadage.cpp:772-802 | one rotation puts the last-but-one step at the root, renumbers every earlier step one level down (back-edge targets one place on), and hangs the last step one level below its old parent; when the new root is a back-edge to an index of the rotated code, the root takes the labels of the step at that index and that step becomes the back-edge to the root |
| Cycles.MoveRoot | src/aadage.cpp:795-801 | a back-edge root to index a takes the labels of step a, step a becomes the back-edge to the root, and every other step is unchanged; any other root leaves the code unchanged |
| Cycles.FoundSmallerMeans | src/aadage.cpp:803-821 | the scan reports a smaller rotation exactly when, at the first difference among all steps but the last, the rotation is deeper or has a smaller label set |
| Cycles.ScanMeans | src/aadage.cpp:770-826 | the loop stops early exactly when the test holds for one of the rotations it goes through |
| Cycles.IsCycleCanonical | src/aadage.cpp:766-832 | 1 exactly when one of the first length-2 rotations precedes the code and is not given 0 by `isCanonical` |
| Store.NewCandidateInfo | src/CandidateInfo.cpp:21-25 | a fresh record has no occurrences, both counts -1, and is not subsumed |
| Store.Put | src/Candidates.cpp:45-48 | binding a code keeps the pending map sorted and adds exactly that key |
| Store.AddNewCandidate | src/Candidates.cpp:45-48 | the pending map gains the code as a key, the worklist and the accepted map are untouched, and the map stays sorted |
| Store.AddNewCandidateNode | src/Candidates.cpp:32-44 | the pending map gains the one-step code of the label, and nothing else changes |
| Store.Commit | src/Candidates.cpp:50-61 | the committed map has the union of the keys; a record already accepted is kept, and a new key reads its pending record |
| Store.StoreNewCandidates | src/Candidates.cpp:50-61 | every pending code is committed without overwriting an accepted record and pushed greatest first; the pending map ends empty |
| Store.ReversedCodesDescend | src/Candidates.cpp:50-61 | the codes are pushed in decreasing code order, so the least pending code ends on top of the worklist |
| Store.RemoveCandidate | src/Candidates.cpp:63-71 | the top entry is popped; with keep its record only loses its occurrences, otherwise its code leaves the accepted map |
| Store.RemoveNewCandidate | src/Candidates.cpp:72-74 | exactly that key leaves the pending map, and nothing else changes |
| Store.SetSuperCount | src/Candidates.cpp:76-80 | the two counts of that record are overwritten, and every other record and the key set are unchanged |
| Store.SetClosed | src/Candidates.cpp:82-84 | that record is marked as subsumed, and nothing else changes |
| Support.MinImages | src/aadage.cpp:953-966 | the minimum-image support is at most `INT_MAX`, at most the image count at every step, and equal to one of them unless no step is read |
| Support.TreesOfMeans | src/aadage.cpp:942-951 | a graph id is counted exactly when some occurrence in a mined graph has it |
| Support.CountMotifs | src/aadage.cpp:940-969 | the number of distinct mined graphs under unique counting; otherwise the least number of distinct (graph, node) pairs over the steps, or none (the original throws) for an empty list |
| Support.GetNbOccurences | src/aadage.cpp:997-1000 | for every graph-id threshold, the occurrence count is at least the number of occurrences in graphs at or above it, which is at least the number of such distinct graphs |
| Support.NbOccurencesBound | src/aadage.cpp:940-1000 | occurrences ≥ occurrences in mined graphs ≥ distinct mined graphs |
| Support.CountBounds | src/aadage.cpp:940-969 | for equal-length paths the all-occurrences support lies between the unique support and the number of counted occurrences |
| Closure.GetInheritedCount | src/aadage.cpp:1008-1025 | the result is the largest support and the largest occurrence count over the accepted codes that include the code item by item, or 0 when there is none |
| Closure.GetInheritedCountStructural | src/aadage.cpp:1066-1093 | the same maxima over the accepted codes of more than one step from which one step deletion gives the code |
| Closure.MarkPreviousNonClosed | src/aadage.cpp:1027-1064 | exactly the accepted codes obtained by deleting one step, whose support equals the given one, get marked as subsumed; every other record is unchanged |
| Reductions.KeepFirstProperties | src/aadage.cpp:1214-1231 | keeping the first occurrence per key keeps the order, leaves no two occurrences with one key, and loses no key |
| Reductions.ReduceAutomorphs | src/aadage.cpp:1214-1231 | the reduced list is a subsequence holding one occurrence per matched node set and every node set of the input |
| Reductions.KeepUncoveredProperties | src/aadage.cpp:1233-1259 | the reduction keeps the order, and each dropped occurrence has its prefix node set and its last node among the kept ones |
| Reductions.ReduceSiblings | src/aadage.cpp:1233-1259 | the reduced list is a subsequence, and every input occurrence is kept or covered by the kept ones |
| Reductions.FrozenSubtree | src/aadage.cpp:1261-1299 | the result is the first rightmost-path position from the root, strictly between the root and the last step, whose subtree is frozen (every earlier one is not), or none when no such position is frozen |
| Reductions.ReduceFrozenSubtree | src/aadage.cpp:1261-1304 | with no frozen subtree the list is unchanged; otherwise one occurrence is kept per (prefix nodes, subtree node set); always a subsequence |
| Reductions.SubsequenceTrans | src/aadage.cpp:1182-1304 | reductions applied one after the other still give a subsequence of the input |
| Extension.NodeAt | src/aadage.cpp:1476-1479 | a node inside the input is read as stored; one outside reads as infrequent |
| Extension.KidsAreDescendants | src/aadage.cpp:1462-1469 | the nodes tried below a node are exactly those `isAncestor` accepts with the gap |
| Extension.FirstIndex | src/aadage.cpp:1482-1488 | the result is the first position of the node on the path |
| Extension.BackEdgeFindsNode | src/aadage.cpp:1489-1514 | a back-edge added for a node already on the path decodes to its first position, which lies before the new step, so back-edges keep pointing back |
| Extension.ItemsetCodeInserts | src/aadage.cpp:1335-1345 | adding a label above the last set to the last step is `std::set::insert` on it |
| Extension.GrowsAdd | src/Candidates.cpp:45-48 | appending a generated occurrence keeps the store a growth of the original by generated occurrences only |
| Extension.AddChild | src/aadage.cpp:1476-1557 | every occurrence it adds comes from attaching the node within reach below the chosen step, as a back-edge or with one of its labels |
| Extension.ParentPos | src/aadage.cpp:1448-1454 | the position found is the nearest one at or below the start whose node's reach contains the last node, and there is none exactly when no position down to 0 qualifies |
| Extension.ParentInPath | src/aadage.cpp:1443-1456 | a found parent is the node of the nearest path position at or below the given one whose reach contains the last node (no later position up to the given one qualifies); none exactly when no such position exists |
| Extension.ExtendDescendants | src/aadage.cpp:1432-1559 | the store only grows by occurrences generated from the popped code's occurrences |
| Extension.SiblingsAt | src/aadage.cpp:1601-1737 | the store only grows by generated occurrences, and the excluded set only grows |
| Extension.ExtendSiblings | src/aadage.cpp:1561-1742 | the store only grows by generated occurrences |
| Extension.ExtendStructure | src/aadage.cpp:1428-1743 | the store only grows by occurrences generated by structural extension of the popped code |
| Extension.ExtendItemsets | src/aadage.cpp:1325-1360 | the store only grows by generated occurrences; each collected superset received at least one new occurrence; no superset is collected outside closed-itemset search |
| Pruning.NodesWithMeans | src/aadage.cpp:1836-1845 | a graph counts a label exactly when some node carries it, and at most once per node |
| Pruning.GraphsWithMeans | src/aadage.cpp:1857-1867 | a graph id is in the unique count of a label exactly when it names a graph with a node carrying the label |
| Pruning.UniqueBelowAll | src/aadage.cpp:1830-1880 | the unique count of a label never exceeds its node count, and they are zero together |
| Pruning.CountAll | src/aadage.cpp:1834-1845 | the counting pass gives every label its number of carrying nodes, and holds exactly the labels that occur |
| Pruning.TreesAll | src/aadage.cpp:1857-1867 | the unique-counting pass gives every label the set of graphs that carry it, and holds exactly the labels that occur |
| Pruning.GetFrequentNodes | src/aadage.cpp:1830-1880 | a label ends in the result exactly when it was there already or it occurs and its support lies between the two bounds |
| Pruning.PruneNode | src/aadage.cpp:1888-1894 | a node keeps exactly its labels in the frequent set, with its children and depth |
| Pruning.RemoveUnfrequentNodes | src/aadage.cpp:1881-1897 | every graph is pruned node by node, and the shape of the input is kept |
| Pruning.PrunedFrequency | src/aadage.cpp:1881-1897 | after pruning a node is frequent exactly when it carried a kept label |
| Pruning.PruneCounts | src/aadage.cpp:1881-1897 | pruning keeps both counts of a kept label and sets those of an erased label to zero |
| Pruning.PruneIdempotent | src/aadage.cpp:1881-1897 | pruning twice with the same set gives the same input as pruning once |
| Pruning.FrequentStable | src/aadage.cpp:1830-1897 | recomputing the frequent labels on the pruned input finds the same set |
| Mining.ContainsPattern | src/aadage.cpp:927-938 | true exactly when some occurrence lies in one of the reference-pattern graphs |
| Mining.MatchesPattern | src/aadage.cpp:902-925 | the reference pattern of the first occurrence whose pattern carries exactly the code's label sets, or -1 exactly when there is none |
| Mining.CycleCode | src/aadage.cpp:1171-1175 | the cycle test only rejects codes of at least two steps that `isCanonical` does not reject and whose last step is the back-edge to the root; such a code is rejected exactly when `isCycleCanonical` rejects it, and a code `isCycleCanonical` accepts is never rejected |
| Mining.WriteBack | src/aadage.cpp:1297-1298 | the reduced list replaces the popped record's occurrences, and nothing else changes |
| Mining.ReduceOccurrences | src/aadage.cpp:1182-1304 | the reduced list is a subsequence of the input, and extension of the last node stays allowed exactly under ordered search or when the code is not a tie |
| Mining.InheritedTest | src/aadage.cpp:1305-1323 | the store changes only on the exit, where only the popped record takes the current counts; other records are kept up to closure marks |
| Mining.ItemsetPhase | src/aadage.cpp:1325-1396 | the worklist is kept; pending entries only grow by generated occurrences unless the identical-superset exit drops the popped code's own entry, and that exit only happens under closed-itemset mining |
| Mining.ClosurePhase | src/aadage.cpp:1398-1415 | with closure bookkeeping the popped record takes the current counts; a code found closed stays closed; without bookkeeping nothing changes |
| Mining.Report | src/aadage.cpp:1416-1425 | a report names the popped code with its support, only when output is on and the code is neither closed nor under closed-sequence search, with the matched reference pattern under pattern search |
| Mining.Settle | src/aadage.cpp:1305-1742 | the step's store effect holds, the support is recorded under closed-sequence search, and what is reported is that of `Report` |
| Mining.Proceed | src/aadage.cpp:1182-1742 | the store effect holds against the unreduced occurrence list, and reports name the popped code with its support |
| Mining.ExtendFirst | src/aadage.cpp:1148-1746 | a step aborts exactly when counting throws; a code that misses a test is just popped; otherwise the store effect holds and reports are sound |
| Mining.StepKeepsShape | src/aadage.cpp:1148-1746 | a step keeps every stored occurrence matching one node per step of its code |
| Mining.SeedLabel | src/aadage.cpp:1814-1820 | an eligible label of the node is seeded; the store only gains seed occurrences |
| Mining.SeedNode | src/aadage.cpp:1813-1821 | every eligible label of the node is seeded; the store only gains seed occurrences |
| Mining.SeedVisit | src/aadage.cpp:1762-1821 | the store only gains seed occurrences; the node is left out exactly when it was already ignored under gap pruning or its subtree text was already seen under the dense option, and otherwise every eligible label of it is seeded; a visited node marks as ignored every node within reach whose labels its own include, and a dense duplicate marks itself |
| Mining.SeedTree | src/aadage.cpp:1758-1823 | the store only gains seed occurrences; without pruning every eligible node of the graph is seeded |
| Mining.InitializeCandidates | src/aadage.cpp:1754-1828 | every accepted record holds only seed occurrences; without pruning every eligible node and label is seeded; the worklist holds exactly the accepted codes, in decreasing order |
| Mining.SeedsStored | src/Candidates.cpp:50-61 | storing the seeds makes the accepted map the pending map and the worklist its codes in decreasing order |
| Mining.WorklistIsKeys | src/Candidates.cpp:50-61 | the codes pushed by `storeNewCandidates` are exactly the pending keys |
| Mining.PerformJoin | src/aadage.cpp:1748-1752 | one step and a commit keep the store valid and shaped and empty the pending map; a report is sound |
| Mining.Run | src/aadage.cpp:2287-2296 | every report of the run is sound, and without an abort the loop ends with an empty worklist or an exhausted bound |
| Mining.ClosedSweep | src/aadage.cpp:2297-2307 | exactly the accepted codes not marked as subsumed whose recorded support reaches the threshold are reported, with that support |
| Text.FirstOf | src/common.cpp:25 | the first delimiter at or after the start, or the end of the string when there is none |
| Text.FirstNotOf | src/common.cpp:23 | the first non-delimiter at or after the start, or the end of the string when there is none |
| Text.Split | src/common.cpp:20-39 | the maximal runs of non-delimiter characters, except the first `fromPos` of them, are appended to the tokens |
| Text.RunsCoverInput | src/common.cpp:20-39 | read back to back, the tokens are the input without its delimiters |
| Text.RunsEmpty | src/common.cpp:20-39 | no token is produced exactly when the input is empty or all delimiters |
| Text.JoinStrings | src/common.cpp:41-49 | the result keeps the old result as a prefix and is the join of it and the tokens, once empty strings in front are dropped |
| Text.SplitJoin | src/common.cpp:20-49 | splitting a join of tokens on the delimiter's characters gives the tokens back |
| Text.DecimalRoundTrip | src/common.cpp:57-60 | a written integer reads back as itself |
| Text.JoinInts | src/common.cpp:51-64 | the result is the numerals of the tokens separated by the delimiter, and it is empty exactly for no tokens |
| Text.JoinIntsSplit | src/common.cpp:20-64 | the joined numerals split back into numerals that read back as the original integers |

## Left out

- File readers (`processInputFile*`, `processPatternFile`, `collectNodes`, `initializeInputNodes`, `initializePatternNodes`) and option parsing: the model starts from the normalized graphs and a `Config` value.
- Output (`writeSolution*`, `serialize`, relative frequencies as floating point, `verbose` traces and memory reports): a report is an abstract `Emission` of the code, its support and the matched reference pattern.
- `isCanonical2`, the free functions `myComp`, `myComp2` and `myComp3`, `filterNewCandidates` and `Candidates::removeUnfrequent`: the engine's search loop never calls them. `getSequencesInfo` only returns the record's occurrence list; `Mining.MatchesPattern` takes that list as its `values` argument. `countMotifsByLabel` and `getNbOccurencesByLabel` are not separate members: `ItemsetPhase` applies `CountMotifs` and the length to the pending entry directly.
- The `option == 1` branch of the automorphism reduction: the constant `option` is 2, so that branch is dead.
- Memo tables of the structural extension (`memoLp`, `labelsGenerating*`): they cache deterministic tests, and the model recomputes the tests.
- The dense-dataset dedupe of `initializeCandidates`: `serializeSubTree` is the parameter `serial` of `SeedVisit`, `SeedTree` and `InitializeCandidates`.
- Undefined behaviour, made total:
  - a worklist code no longer in the accepted map reads a fresh record and writes nothing;
  - a node index outside the input reads an empty node (`NodeAt`, `Reach`);
  - a back-edge to an index outside the code is left undecoded;
  - the undirected parent search running below index 0 excludes nothing;
  - the least label of an empty set reads 0;
  - `countMotifs` sizes its per-step table by the first occurrence's path, and indexes past it when a later occurrence's path is longer. `Support.CountMotifs` reads only the steps the table has.
- Mining.CycleCode: a one-step code ending in the back-edge to the root is not passed to the cycle test, because the original's unsigned loop bound wraps around there.
- Graphs.IsAncestor: with a negative gap on a cyclic child relation the original never returns (see "Findings"); the model answers with the full reach, so it is total where the original is not.
- Mining.Run: the loop is bounded by `fuel` steps, because the original gives no termination measure: structural extension keeps producing longer codes, and the identical-superset exit leaves the current code in the worklist beneath the supersets it then commits, so no simple quantity decreases from one step to the next.
- Mining.Run: the statement is soundness of every report, not completeness of the mined set.
- Extension.ExtendStructure: states that every added occurrence is generated by an allowed extension (soundness), not that every allowed extension is added.
- Extension.ExtendItemsets: states soundness of the added occurrences, not completeness.
- Extension.ExtendDescendants: soundness of the added occurrences only, as above.
- Extension.ExtendSiblings: soundness of the added occurrences only, as above.
- Extension.SiblingsAt: soundness of the added occurrences only, as above.
- Extension.AddChild: soundness of the added occurrences only, as above.
- Mining.ItemsetPhase: states that the pending entries grow only by generated itemset occurrences (soundness), not that every allowed itemset extension is added.
- Mining.Settle: the store effect of its extension is soundness only, as for `Extension.ExtendStructure`.
- Mining.Proceed: the store effect of its extension is soundness only, as for `Extension.ExtendStructure`.
- Mining.ExtendFirst: the abort and pop gates and the report are exact; the store effect of the extension is soundness only.
- Mining.PerformJoin: inherits the soundness-only store effect of `Mining.ExtendFirst`.
- Mining.SeedVisit: the returned ignored and seen sets are stated to contain what the visit adds, not to hold nothing more.
- Mining.SeedTree: which nodes of the graph are seeded is stated only when neither the gap pruning of unique counting nor the dense-dataset dedupe is on. With them, a node's fate depends on the ignored set and texts accumulated over the nodes before it, and an exact statement would replay the loop; `Mining.SeedVisit` states the decision for one node.
- Mining.InitializeCandidates: completeness of the seeds is stated only when neither the gap pruning of unique counting nor the dense-dataset dedupe is on.
- Text.JoinInts: `int` width is not modelled; numerals of any size are written.
- Text.Split: `fromPos` is an unbounded integer. A negative `fromPos` is decremented and never reaches 0, so the model drops every token; the original's `int` would only wrap after 2^31 more tokens.
- The relation between the output order of the closed sweep and the map order: `ClosedSweep` returns a set.

## Findings

| source | as written | input that shows it | evidently intended | confidence | as-written member | corrected member |
|---|---|---|---|---|---|---|
| src/aadage.cpp:717-722 | at the first step where the two windows differ with equal depth, `compareSubStructure` compares the addresses of the two label sets (`label1 < label2` on `const set<int>*`); the left one always lies lower in the vector, so the answer is always -1 | root 0 with two children labelled 1, below them 5 and 3: the code `[({0},0), ({1},1), ({5},2), ({1},1), ({3},2)]` and the same code with 5 and 3 swapped both compare -1 at positions 1 and 3, so `isCanonical` keeps both and the tree is enumerated twice | compare the sets themselves (`*label1 < *label2`), as the documented contract of the function (-1 when the first substructure is the lower one) asks, so exactly one order survives | high; not executed | Canonical.AddressCanonicalKeepsBothOrders | Canonical.CompareSubStructure |
| src/aadage.cpp:473-481 | with a negative gap (the default is -1, line 61) `collectAllChilds` recurses with `depth-1`, which never reaches 0, so the recursion ends only at nodes without children | an undirected graph with one edge: nodes 0 and 1 list each other as children (lines 270-272), and `collectAllChilds(nodes, 0, -1, childs)` calls itself on 1 with -2, on 0 with -3, and so on without end | collect every node reachable from the start, which is what the recursion computes on acyclic graphs | high; not executed | Graphs.NegativeGapNeverFinishes | Graphs.NegativeGapIsReach |
