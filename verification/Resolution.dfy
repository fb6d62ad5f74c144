/** Certified translation of a directory-tree block to a byte offset
    (core/src/directory.rs:224-339). */
module Resolution {
  import opened Wrappers
  import opened Bytes
  import opened Layout
  import opened Container

  const DEFAULT_BAND_CLUSTERS: U64 := 16384
  const RESIDENT_VIRTUAL_BASE: U64 := 65536

  /** The page at `off` carries the signature and records `block` as its own number. The
      source adds the page size to `off` unchecked. */
  predicate PageAnswers(image: Buffer, off: nat, block: U64)
    requires off + PAGE_SIZE <= USIZE_MAX
  {
    && off + PAGE_SIZE <= |image|
    && var page := image[off..off + PAGE_SIZE];
    && page[..4] == MSB_SIGNATURE
    && U64At(page, SELF_BLOCK_OFFSET) == block
  }

  /** First candidate cluster whose page lies inside the image; an overflow gives up. */
  function FirstFitting(candidates: seq<U64>, imageLen: nat): Option<nat> {
    if candidates == [] then None else
    var off :- CheckedMul(candidates[0], CLUSTER_SIZE);
    var end :- CheckedAdd(off, PAGE_SIZE);
    if end <= imageLen then Some(off) else FirstFitting(candidates[1..], imageLen)
  }

  function ResidentBlockOffset(block: U64, imageLen: nat): Option<nat> {
    FirstFitting(if block >= RESIDENT_VIRTUAL_BASE then [block - RESIDENT_VIRTUAL_BASE, block] else [block], imageLen)
  }

  /** The high-band candidate decides alone: whenever `block` itself would fit, the
      smaller candidate fits first, so the fallback is never chosen. */
  lemma FallbackNeverChosen(block: U64, imageLen: nat)
    requires imageLen <= MAX_BUFFER
    ensures var cluster := if block >= 65536 then block - 65536 else block;
      ResidentBlockOffset(block, imageLen) ==
        if cluster * CLUSTER_SIZE + PAGE_SIZE <= imageLen then Some(cluster * CLUSTER_SIZE) else None
  {
    OneCandidate(block, imageLen);
    if block >= RESIDENT_VIRTUAL_BASE {
      assert [block - RESIDENT_VIRTUAL_BASE, block][1..] == [block];
    }
  }

  lemma OneCandidate(cluster: U64, imageLen: nat)
    requires imageLen <= MAX_BUFFER
    ensures FirstFitting([cluster], imageLen) ==
      if cluster * CLUSTER_SIZE + PAGE_SIZE <= imageLen then Some(cluster * CLUSTER_SIZE) else None
  {
    assert [cluster][1..] == [];
  }

  function ResolveBlockOffset(image: Buffer, resolver: Resolver, block: U64): (r: Option<nat>)
    requires resolver.InRange()
  {
    ResolvesWitnessed(resolver, block);
    FallbackNeverChosen(block, |image|);
    var virtual := resolver.ResolveVirtual(block);
    if virtual.Some? && PageAnswers(image, virtual.value, block) then virtual else
    var resident := ResidentBlockOffset(block, |image|);
    if resident.Some? && PageAnswers(image, resident.value, block) then resident else None
  }

  /** The whole page of `block`, or the error that names it. */
  function ReadPage(image: Buffer, resolver: Resolver, block: U64): Result<Buffer>
    requires resolver.InRange()
  {
    match ResolveBlockOffset(image, resolver, block)
    case None => Failure(UnresolvedVirtualBlock(block))
    case Some(off) =>
      if off + PAGE_SIZE <= |image| then Success(image[off..off + PAGE_SIZE])
      else Failure(Truncated(DirectoryPage))
  }

  /** Certification. On any image, with any base map however wrong: a resolved offset is
      the start of a resident page, at a cluster boundary, that answers the block. */
  lemma ResolvedIsCertified(image: Buffer, resolver: Resolver, block: U64)
    requires resolver.InRange()
    ensures var r := ResolveBlockOffset(image, resolver, block);
      r.Some? ==>
        && r.value % CLUSTER_SIZE == 0
        && IsResident(image, r.value / CLUSTER_SIZE)
        && SelfBlock(image, r.value / CLUSTER_SIZE) == block
  {
    hide PageAnswers, ResidentBlockOffset, Resolver.ResolveVirtual, U64At, Decompose;
    ResolvesWitnessed(resolver, block);
    FallbackNeverChosen(block, |image|);
    var r := ResolveBlockOffset(image, resolver, block);
    if r.Some? { AnswersIsCertified(image, r.value / CLUSTER_SIZE, block); }
  }

  lemma AnswersIsCertified(image: Buffer, c: nat, block: U64)
    requires c * CLUSTER_SIZE + PAGE_SIZE <= USIZE_MAX && PageAnswers(image, c * CLUSTER_SIZE, block)
    ensures IsResident(image, c) && SelfBlock(image, c) == block
  {
    hide U64At;
    var off := c * CLUSTER_SIZE;
    ReadInSlice(image, off, off + PAGE_SIZE, SELF_BLOCK_OFFSET);
    assert image[off..off + PAGE_SIZE][..4] == image[off..off + 4];
  }

  /** The resident page at cluster `c` records `block`. */
  ghost predicate Answers(image: Buffer, c: nat, block: U64) {
    IsResident(image, c) && SelfBlock(image, c) == block
  }

  /** Where the resident heuristic looks. */
  function HeuristicCluster(block: U64): nat {
    if block >= 65536 then block - 65536 else block
  }

  /** On any image and base map: the base map's candidate wins if the page there answers, the
      heuristic's otherwise if that page answers, and a block fails only if neither does. So a
      page at its heuristic cluster is found whatever the base map says. */
  lemma EveryCandidateIsTried(image: Buffer, resolver: Resolver, block: U64)
    requires resolver.InRange()
    ensures var v, h := resolver.ResolveVirtual(block), HeuristicCluster(block);
      var r := ResolveBlockOffset(image, resolver, block);
      && (v.Some? && Answers(image, v.value / CLUSTER_SIZE, block) ==> r == v)
      && (!(v.Some? && Answers(image, v.value / CLUSTER_SIZE, block)) && Answers(image, h, block) ==>
            r == Some(h * CLUSTER_SIZE))
      && (r.None? <==> !(v.Some? && Answers(image, v.value / CLUSTER_SIZE, block)) && !Answers(image, h, block))
  {
    hide PageAnswers, ResidentBlockOffset, Resolver.ResolveVirtual, U64At, Decompose, SelfBlock, IsResident;
    var v, h := resolver.ResolveVirtual(block), HeuristicCluster(block);
    ResolvesWitnessed(resolver, block);
    FallbackNeverChosen(block, |image|);
    if v.Some? { AnswersMeansResident(image, v.value / CLUSTER_SIZE, block); }
    if h * CLUSTER_SIZE + PAGE_SIZE <= |image| {
      AnswersMeansResident(image, h, block);
    } else {
      ResidentIsInside(image, h);
    }
  }

  lemma AnswersMeansResident(image: Buffer, c: nat, block: U64)
    requires c * CLUSTER_SIZE + PAGE_SIZE <= USIZE_MAX
    ensures PageAnswers(image, c * CLUSTER_SIZE, block) <==> Answers(image, c, block)
  {
    hide PageAnswers;
    if IsResident(image, c) && SelfBlock(image, c) == block { ResidentAnswers(image, c); }
    if PageAnswers(image, c * CLUSTER_SIZE, block) { AnswersIsCertified(image, c, block); }
  }

  lemma ResidentIsInside(image: Buffer, c: nat)
    ensures IsResident(image, c) ==> c * CLUSTER_SIZE + PAGE_SIZE <= |image|
  {
  }

  /** Two different blocks never resolve to one offset. */
  lemma ResolutionIsInjective(image: Buffer, resolver: Resolver, a: U64, b: U64)
    requires resolver.InRange()
    requires ResolveBlockOffset(image, resolver, a).Some?
    requires ResolveBlockOffset(image, resolver, a) == ResolveBlockOffset(image, resolver, b)
    ensures a == b
  {
    hide ResolveBlockOffset;
    ResolvedIsCertified(image, resolver, a);
    ResolvedIsCertified(image, resolver, b);
  }

  /** Reading a page fails exactly when its block does not resolve, and then names that
      block: the truncation branch after a successful resolution is never taken. */
  lemma ReadPageFailsOnlyUnresolved(image: Buffer, resolver: Resolver, block: U64)
    requires resolver.InRange()
    ensures var r := ReadPage(image, resolver, block);
      && (r.Failure? <==> ResolveBlockOffset(image, resolver, block).None?)
      && (r.Failure? ==> r.error == UnresolvedVirtualBlock(block))
      && (r.Success? ==> |r.value| == PAGE_SIZE && r.value[..4] == MSB_SIGNATURE
                         && U64At(r.value, SELF_BLOCK_OFFSET) == block
                         && Holds(image, ResolveBlockOffset(image, resolver, block).value, r.value))
  {
    ResolvesWitnessed(resolver, block);
    FallbackNeverChosen(block, |image|);
  }

  // ---- Completeness on band-consistent images -----------------------------------

  /** Every resident page lies at a cluster no smaller than its offset in its container,
      and all resident pages of a container imply the same base. */
  ghost predicate BandConsistent(image: Buffer, band: U64)
    requires band > 0
  {
    && (forall c: nat :: IsResident(image, c) ==> Decompose(SelfBlock(image, c), band).1 <= c)
    && forall c: nat, d: nat ::
      IsResident(image, c) && IsResident(image, d)
      && Decompose(SelfBlock(image, c), band).0 == Decompose(SelfBlock(image, d), band).0
      ==> ImpliedBase(image, band, c) == ImpliedBase(image, band, d)
  }

  /** The page of cluster `c` answers its own block there. */
  lemma ResidentAnswers(image: Buffer, c: nat)
    requires IsResident(image, c)
    ensures PageAnswers(image, c * CLUSTER_SIZE, SelfBlock(image, c))
  {
    var off := c * CLUSTER_SIZE;
    ReadInSlice(image, off, off + PAGE_SIZE, SELF_BLOCK_OFFSET);
    assert image[off..off + PAGE_SIZE][..4] == image[off..off + 4];
  }

  /** On a band-consistent image every resident page is found, at its own place. */
  lemma ConsistentResolves(image: Buffer, band: U64, c: nat)
    requires 0 < band <= 0x4_0000_0000_0000 && BandConsistent(image, band) && IsResident(image, c)
    ensures ScannedResolver(image, band).InRange()
    ensures ResolveBlockOffset(image, ScannedResolver(image, band), SelfBlock(image, c)) == Some(c * CLUSTER_SIZE)
  {
    hide Decompose, PageAnswers, SelfBlock, Scan, BaseOf, Resolver.ResolveVirtual;
    var r, block := ScannedResolver(image, band), SelfBlock(image, c);
    ScannedInRange(image, band);
    var (idx, off) := Decompose(block, band);
    var n := |image| / CLUSTER_SIZE;
    assert Witness(image, band, c, idx);
    ScanSpecification(image, band, n, idx);
    var w: nat :| FirstWitness(image, band, n, w, idx);
    assert ImpliedBase(image, band, w) == ImpliedBase(image, band, c);
    ResolvesWitnessed(r, block);
    ResidentAnswers(image, c);
  }

  /** Exact resolution: on a band-consistent image a block resolves to the one resident
      page that records it, and fails exactly when no resident page does. */
  lemma ExactResolution(image: Buffer, band: U64, block: U64)
    requires 0 < band <= 0x4_0000_0000_0000 && BandConsistent(image, band)
    ensures ScannedResolver(image, band).InRange()
    ensures var r := ResolveBlockOffset(image, ScannedResolver(image, band), block);
      && (forall c: nat :: r == Some(c * CLUSTER_SIZE) <==> IsResident(image, c) && SelfBlock(image, c) == block)
      && (r.None? <==> forall c: nat :: IsResident(image, c) ==> SelfBlock(image, c) != block)
  {
    hide ResolveBlockOffset, BandConsistent, SelfBlock, ScannedResolver;
    ScannedInRange(image, band);
    var r := ScannedResolver(image, band);
    ResolvedIsCertified(image, r, block);
    forall c: nat | IsResident(image, c) && SelfBlock(image, c) == block
      ensures ResolveBlockOffset(image, r, block) == Some(c * CLUSTER_SIZE)
    {
      ConsistentResolves(image, band, c);
    }
  }

  // ---- Pigeonhole ----------------------------------------------------------------

  /** How many clusters of the image can start a full page. */
  function Positions(image: Buffer): nat {
    SaturatingSub(|image| / CLUSTER_SIZE, 3)
  }

  /** The self blocks of all resident pages: the only blocks that can ever resolve. */
  ghost function ResidentBlocks(image: Buffer): set<U64> {
    set c: nat | c < Positions(image) && IsResident(image, c) :: SelfBlock(image, c)
  }

  lemma PositionsExact(image: Buffer, c: nat)
    ensures c < Positions(image) <==> c * CLUSTER_SIZE + PAGE_SIZE <= |image|
  {
  }

  ghost function SelfBlocksBelow(image: Buffer, n: nat): set<U64>
    requires n <= Positions(image)
  {
    set c: nat | c < n && IsResident(image, c) :: SelfBlock(image, c)
  }

  lemma {:induction false} FewSelfBlocks(image: Buffer, n: nat)
    requires n <= Positions(image)
    ensures |SelfBlocksBelow(image, n)| <= n
  {
    hide SelfBlock, IsResident;
    if n == 0 {
      assert SelfBlocksBelow(image, 0) == {};
    } else {
      FewSelfBlocks(image, n - 1);
      var a, b := SelfBlocksBelow(image, n - 1), SelfBlocksBelow(image, n);
      if IsResident(image, n - 1) {
        assert b == a + {SelfBlock(image, n - 1)};
      } else {
        assert b == a;
      }
    }
  }

  /** At most one block per page position resolves. */
  lemma ResolvableBlocks(image: Buffer, resolver: Resolver)
    requires resolver.InRange()
    ensures |ResidentBlocks(image)| <= Positions(image)
    ensures forall b: U64 :: ResolveBlockOffset(image, resolver, b).Some? ==> b in ResidentBlocks(image)
  {
    hide ResolveBlockOffset, SelfBlock;
    FewSelfBlocks(image, Positions(image));
    assert SelfBlocksBelow(image, Positions(image)) == ResidentBlocks(image);
    forall b: U64 | ResolveBlockOffset(image, resolver, b).Some?
      ensures b in ResidentBlocks(image)
    {
      ResolvedIsCertified(image, resolver, b);
      var c := ResolveBlockOffset(image, resolver, b).value / CLUSTER_SIZE;
      PositionsExact(image, c);
    }
  }
}
