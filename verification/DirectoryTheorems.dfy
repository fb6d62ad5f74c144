/** What a walk over the bytes of any image guarantees: the graph theorems, with the graph
    read from the image through certified resolution. */
module DirectoryTheorems {
  import opened Wrappers
  import opened Bytes
  import opened Layout
  import opened Minstore
  import opened Container
  import opened Resolution
  import opened Descent
  import opened DescentTheorems
  import opened Directory

  /** The node header that a page names runs past the page. */
  predicate HeaderPastPage(image: Buffer, off: nat)
    requires off + PAGE_SIZE <= |image|
  {
    var page := image[off..off + PAGE_SIZE];
    NODE_HEADER_OFFSET_FIELD + U32At(page, NODE_HEADER_OFFSET_FIELD) + NODE_HEADER_LEN > PAGE_SIZE
  }

  /** A block is unreadable for one of two reasons, each with its own error: it resolves to
      no page, or the node header of its page runs past the page. */
  lemma UnreadableReasons(image: Buffer, resolver: Resolver, block: U64)
    requires resolver.InRange()
    ensures var off := ResolveBlockOffset(image, resolver, block);
      && (off.Some? ==> off.value + PAGE_SIZE <= |image|)
      && (FetchBlock(image, resolver, block) == Unreadable(UnresolvedVirtualBlock(block)) <==> off.None?)
      && (FetchBlock(image, resolver, block) == Unreadable(Truncated(NodeHeader)) <==>
            off.Some? && HeaderPastPage(image, off.value))
      && (FetchBlock(image, resolver, block).Unreadable? <==>
            off.None? || HeaderPastPage(image, off.value))
  {
    hide ResolveBlockOffset;
    ResolvedIsCertified(image, resolver, block);
  }

  ghost function DefaultResolver(image: Buffer): (r: Resolver)
    ensures r.InRange()
  {
    ScannedInRange(image, DEFAULT_BAND_CLUSTERS);
    ScannedResolver(image, DEFAULT_BAND_CLUSTERS)
  }

  ghost function GraphOf(image: Buffer): Graph<DirEntry> {
    ImageGraph(image, DefaultResolver(image))
  }

  /** No page of the image answers `b` through the scanned resolver. */
  ghost predicate Unresolvable(image: Buffer, b: U64) {
    ResolveBlockOffset(image, DefaultResolver(image), b).None?
  }

  /** The page of `b` is found, but its node header runs past it. */
  ghost predicate HeaderRunsOut(image: Buffer, b: U64) {
    FetchBlock(image, DefaultResolver(image), b) == Unreadable(Truncated(NodeHeader))
  }

  /** `error` is what goes wrong at `b`. */
  ghost predicate Explains(image: Buffer, b: U64, error: RefsError) {
    || (error == UnresolvedVirtualBlock(b) && Unresolvable(image, b))
    || (error == Truncated(NodeHeader) && HeaderRunsOut(image, b))
  }

  lemma FailureAt(image: Buffer, b: U64)
    ensures GraphOf(image)(b).Unreadable? <==> Unresolvable(image, b) || HeaderRunsOut(image, b)
    ensures GraphOf(image)(b).Unreadable? ==> Explains(image, b, GraphOf(image)(b).error)
  {
    hide ResolveBlockOffset;
    UnreadableReasons(image, DefaultResolver(image), b);
  }

  lemma ReadableIsResident(image: Buffer)
    ensures forall b: U64 :: !GraphOf(image)(b).Unreadable? ==> b in ResidentBlocks(image)
  {
    hide FetchBlock, ResolveBlockOffset, ResidentBlocks;
    var r := DefaultResolver(image);
    ResolvableBlocks(image, r);
    forall b: U64 | !GraphOf(image)(b).Unreadable?
      ensures b in ResidentBlocks(image)
    {
      UnreadableReasons(image, r, b);
    }
  }

  /** The search of the image without caps stays below depth 64 and within 4096 pages. */
  ghost predicate CapsNotFelt(image: Buffer, root: U64) {
    ReadableIsResident(image);
    WithinCaps(GraphOf(image), ResidentBlocks(image), root)
  }

  /** A walk over bytes turns no unvisited block away if and only if the caps are not felt; it is
      then the search without caps, and an Ok listing is the entries of exactly the reachable
      leaves, each leaf once. */
  lemma CapsNotFeltExactly(image: Buffer, root: U64)
    ensures WalkOf(image, root).cuts == [] <==> CapsNotFelt(image, root)
    ensures var w, g := WalkOf(image, root), GraphOf(image);
      CapsNotFelt(image, root) && w.error.None? ==>
        && (forall b :: b in w.visited <==> Reachable(g, root, b)) && NoDuplicates(w.visited)
        && WalkResult(image, root) == Success(Harvest(g, w.visited))
  {
    hide Walked, Reachable, Harvest, NoDuplicates, FetchBlock, ResidentBlocks, WithinCaps;
    ReadableIsResident(image);
    WalkWithinCaps(GraphOf(image), ResidentBlocks(image), root);
  }

  /** When the search of the image without caps stays below depth 64, an Ok walk over bytes is complete
      if and only if that search visits at most 4096 blocks, and visits its first 4096 otherwise. */
  lemma PageCapOnBytes(image: Buffer, root: U64)
    ensures forall b: U64 :: !GraphOf(image)(b).Unreadable? ==> b in ResidentBlocks(image)
    ensures var w, g, blocks := WalkOf(image, root), GraphOf(image), ResidentBlocks(image);
      var u := Uncapped(g, blocks, root, Start());
      Deepest(g, blocks, root, 0, Start()) < MAX_DESCENT_DEPTH ==>
        && w.visited == (if |u.visited| <= MAX_VISITED_PAGES then u.visited else u.visited[..MAX_VISITED_PAGES])
        && (w.error.None? ==>
              ((forall b :: Reachable(g, root, b) ==> b in w.visited) <==> |u.visited| <= MAX_VISITED_PAGES))
  {
    hide Walked, Reachable, FetchBlock, ResidentBlocks, Uncapped, Deepest;
    ReadableIsResident(image);
    if Deepest(GraphOf(image), ResidentBlocks(image), root, 0, Start()) < MAX_DESCENT_DEPTH {
      PageCapExactly(GraphOf(image), ResidentBlocks(image), root);
    }
  }

  /** An Ok walk over bytes is complete if and only if every block a cap turned away was visited
      by another way. */
  lemma ListingCompleteIff(image: Buffer, root: U64)
    ensures var w, g := WalkOf(image, root), GraphOf(image);
      w.error.None? ==>
        ((forall b :: Reachable(g, root, b) ==> b in w.visited)
         <==> forall i :: 0 <= i < |w.cuts| ==> w.cuts[i].block in w.visited)
  {
    hide Walked, Reachable, FetchBlock;
    CompleteIffCutsRevisited(GraphOf(image), root);
  }

  /** Fail-loud accuracy on bytes. The error that a walk returns is explained by a block the walk's branch
      pages lead to: one that no page answers, which the error names, or one whose node header
      runs past its page. And when the caps are not felt, the walk fails exactly when such a block
      is reachable. */
  lemma WalkFailsLoud(image: Buffer, root: U64)
    ensures var r, g := WalkResult(image, root), GraphOf(image);
      && (r.Failure? ==> exists b :: Reachable(g, root, b) && Explains(image, b, r.error))
      && (CapsNotFelt(image, root) ==>
            (r.Failure? <==>
               exists b :: Reachable(g, root, b) && (Unresolvable(image, b) || HeaderRunsOut(image, b))))
  {
    hide FetchBlock, Walked, Reachable, Unresolvable, HeaderRunsOut, Explains, CapsNotFelt;
    var g := GraphOf(image);
    FailsExactlyOnUnreadable(g, root);
    CapsNotFeltExactly(image, root);
    forall b: U64
      ensures g(b).Unreadable? <==> Unresolvable(image, b) || HeaderRunsOut(image, b)
      ensures g(b).Unreadable? ==> Explains(image, b, g(b).error)
    {
      FailureAt(image, b);
    }
  }

  /** On a band-consistent image a block is unresolvable exactly when no resident page
      records it: the walk never misses a page that is there. */
  lemma UnresolvableMeansAbsent(image: Buffer, b: U64)
    requires BandConsistent(image, DEFAULT_BAND_CLUSTERS)
    ensures Unresolvable(image, b) <==> forall c: nat :: IsResident(image, c) ==> SelfBlock(image, c) != b
  {
    hide ResolveBlockOffset, IsResident;
    ExactResolution(image, DEFAULT_BAND_CLUSTERS, b);
  }

  /** `blocks` are at most 64 and hold every block reachable from the root. */
  ghost predicate FewReachable(g: Graph<DirEntry>, root: U64, blocks: set<U64>) {
    |blocks| <= MAX_DESCENT_DEPTH && forall b :: Reachable(g, root, b) ==> b in blocks
  }

  /** Pigeonhole on bytes. Blocks read sit at distinct page positions, so an Ok walk visits no
      more pages than the image has positions, one more on an error. With fewer than 4096
      positions the page cap never trips on an unvisited block; with fewer than 64, or when
      at most 64 blocks are reachable, nothing is ever turned away. */
  lemma PositionsBoundTheWalk(image: Buffer, root: U64)
    ensures (exists blocks: set<U64> :: FewReachable(GraphOf(image), root, blocks)) ==> WalkOf(image, root).cuts == []
    ensures var w := WalkOf(image, root);
      && |w.visited| <= Positions(image) + (if w.error.Some? then 1 else 0)
      && (Positions(image) < MAX_VISITED_PAGES ==>
            forall i :: 0 <= i < |w.cuts| ==> w.cuts[i].pages < MAX_VISITED_PAGES)
      && (Positions(image) < MAX_DESCENT_DEPTH ==> w.cuts == [])
  {
    hide FetchBlock, ResolveBlockOffset, Walked, ResidentBlocks;
    var g := GraphOf(image);
    ResolvableBlocks(image, DefaultResolver(image));
    ReadableIsResident(image);
    ReadableBlocksBoundTheWalk(g, root, ResidentBlocks(image));
    if blocks: set<U64> :| FewReachable(g, root, blocks) { SmallGraphIsNeverCut(g, root, blocks); }
  }

  /** A small image is listed exactly: with fewer than 64 page positions, an Ok walk lists the
      entries of every reachable leaf, each leaf once. */
  lemma SmallImageIsListedExactly(image: Buffer, root: U64)
    requires Positions(image) < MAX_DESCENT_DEPTH
    ensures var w := WalkOf(image, root);
      w.error.None? ==>
        && (forall b :: b in w.visited <==> Reachable(GraphOf(image), root, b))
        && NoDuplicates(w.visited)
        && WalkResult(image, root) == Success(Harvest(GraphOf(image), w.visited))
  {
    hide Walked, Reachable, Harvest, NoDuplicates;
    PositionsBoundTheWalk(image, root);
    UncutWalkIsComplete(GraphOf(image), root);
  }

  /** The walk is the search without its caps whenever it turned nothing away; the uncapped
      search ends because at most one block per page position can be read. */
  lemma CapsAreNotNeededToStop(image: Buffer, root: U64)
    ensures forall b: U64 :: !GraphOf(image)(b).Unreadable? ==> b in ResidentBlocks(image)
    ensures var w := WalkOf(image, root);
      w.cuts == [] ==> w == Uncapped(GraphOf(image), ResidentBlocks(image), root, Start())
  {
    hide FetchBlock, ResolveBlockOffset, ResidentBlocks;
    ReadableIsResident(image);
    UncutIsUncapped(GraphOf(image), ResidentBlocks(image), root, 0, Start());
  }

  lemma {:induction false} FewChildBlocks(rows: seq<Row>)
    ensures |ChildBlocks(rows)| <= |rows|
  {
    hide U64At;
    if rows != [] { FewChildBlocks(rows[1..]); }
  }

  /** A 16 KiB page has at most 4076 rows, so the descent is called at most once and then
      4076 times for each visited page. */
  lemma WalkWorkBound(image: Buffer, root: U64)
    ensures var w := WalkOf(image, root);
      w.calls <= 1 + 4076 * |w.visited|
  {
    hide Walked, ResolveBlockOffset;
    var g, r := GraphOf(image), DefaultResolver(image);
    forall b: U64 | g(b).Branch?
      ensures |g(b).children| <= 4076
    {
      FanOut(image, r, b);
    }
    WorkBound(g, root, 4076);
  }

  lemma FanOut(image: Buffer, resolver: Resolver, block: U64)
    requires resolver.InRange() && FetchBlock(image, resolver, block).Branch?
    ensures |FetchBlock(image, resolver, block).children| <= 4076
  {
    hide ResolveBlockOffset, ChildBlocks, Page.RowsFrom;
    var node := Parse(ReadPage(image, resolver, block).value).value;
    RowCountBound(node, 0);
    FewChildBlocks(node.Rows());
  }
}
