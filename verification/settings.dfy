/** The run configuration. The original keeps these as process-wide mutable
    flags; here they are one immutable value handed to every operation. */
module Settings {

  /** `INT_MAX` of a 32-bit `int`. */
  const IntMax: int := 0x7fff_ffff

  datatype Config = Config(
    orderedSearch: bool,
    outputFrequentTrees: bool,
    countUnique: bool,
    closedItemsetSearch: bool,
    closedSequenceSearch: bool,
    denseDataset: bool,
    undirectedGraph: bool,
    rootedTreeSearch: bool,
    sequenceSearch: bool,
    patternSearch: bool,
    absoluteSupport: int,
    absoluteMaxSupport: int,
    maximumGap: int,
    maxDepth: int,
    useOnlyTheseLabels: set<int>,
    excludeTheseLabels: set<int>,
    useOnlyThisRoot: int,
    /** number of reference-pattern graphs placed before the mined graphs */
    patternsCount: int,
    /** set by the input readers when some node carries more than one label */
    itemSetMining: bool)

  /** The values the globals hold before option parsing. */
  function Defaults(): (c: Config)
    ensures c.countUnique && !c.orderedSearch && !c.closedItemsetSearch && !c.closedSequenceSearch
    ensures c.absoluteSupport == 0 && c.absoluteMaxSupport == IntMax
    ensures c.maximumGap == -1 && c.maxDepth == -1 && c.useOnlyThisRoot == -1
    ensures c.patternsCount == 0 && !c.itemSetMining
    ensures !c.patternSearch && !c.rootedTreeSearch && !c.sequenceSearch && !c.outputFrequentTrees
    ensures !c.denseDataset && !c.undirectedGraph
    ensures c.useOnlyTheseLabels == {} && c.excludeTheseLabels == {}
  {
    Config(false, false, true, false, false, false, false, false, false, false,
           0, IntMax, -1, -1, {}, {}, -1, 0, false)
  }

  /** True iff closure bookkeeping keeps popped records (`-d`, `-e` or `-c`). */
  predicate KeepsRecords(c: Config) {
    c.closedItemsetSearch || c.closedSequenceSearch
  }
}
