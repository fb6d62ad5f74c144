/** The resident self-block sweep (forensic/src/lib.rs:417-451) and what a clean sweep says
    about address translation. */
module Sweep {
  import opened Wrappers
  import opened Bytes
  import opened Layout
  import opened Container

  datatype Anomaly = SelfBlockMismatch(recorded: U64, expected: nat, offset: nat)

  /** A full page with the Minstore signature starts at byte `off`. */
  predicate PageStarts(image: Buffer, off: nat) {
    off + PAGE_SIZE <= |image| && image[off..off + 4] == MSB_SIGNATURE
  }

  /** The page of cluster `c`, at byte `off`, claims to be another of the image's `clusters`. */
  predicate IsMismatch(image: Buffer, clusters: nat, c: nat, off: nat) {
    && PageStarts(image, off)
    && U64At(image, off + SELF_BLOCK_OFFSET) < clusters
    && U64At(image, off + SELF_BLOCK_OFFSET) != c
  }

  function Finding(image: Buffer, c: nat, off: nat): Anomaly
    requires PageStarts(image, off)
  {
    SelfBlockMismatch(U64At(image, off + SELF_BLOCK_OFFSET), c, off)
  }

  /** What the sweep finds at one cluster. */
  function FindingAt(image: Buffer, clusters: nat, c: nat, off: nat): seq<Anomaly> {
    if IsMismatch(image, clusters, c, off) then [Finding(image, c, off)] else []
  }

  /** The findings of clusters 0 up to `n`. */
  function Findings(image: Buffer, clusterSize: nat, n: nat): seq<Anomaly>
    requires clusterSize > 0 && n <= |image| / clusterSize
  {
    if n == 0 then []
    else Findings(image, clusterSize, n - 1) + FindingAt(image, |image| / clusterSize, n - 1, (n - 1) * clusterSize)
  }

  lemma Monotone(a: nat, b: nat, size: nat)
    requires a <= b
    ensures a * size <= b * size
  {
    var extra := b - a;
    assert (a + extra) * size == a * size + extra * size;
  }

  lemma OffsetBound(len: nat, size: nat, c: nat, d: nat)
    requires size > 0 && c <= d <= len / size
    ensures c * size <= d * size <= len
  {
    DivisionBounds(len, size);
    Monotone(c, d, size);
    Monotone(d, len / size, size);
  }

  /** Past the first cluster whose page does not fit, there is nothing to find. */
  lemma {:induction false} NothingAfterLastPage(image: Buffer, clusterSize: nat, n: nat, m: nat)
    requires clusterSize > 0 && n <= m <= |image| / clusterSize
    requires n * clusterSize + PAGE_SIZE > |image|
    ensures Findings(image, clusterSize, m) == Findings(image, clusterSize, n)
    decreases m - n
  {
    hide FindingAt;
    if n < m {
      OffsetBound(|image|, clusterSize, n, m - 1);
      NoPageNoFinding(image, |image| / clusterSize, m - 1, (m - 1) * clusterSize);
      NothingAfterLastPage(image, clusterSize, n, m - 1);
    }
  }

  lemma NoPageNoFinding(image: Buffer, clusters: nat, c: nat, off: nat)
    ensures off + PAGE_SIZE > |image| ==> FindingAt(image, clusters, c, off) == []
  {
  }

  /** The sweep appends to the findings it is given; a zero cluster size finds nothing. */
  method SweepResidentSelfBlocks(found: seq<Anomaly>, image: Buffer, clusterSize: nat) returns (out: seq<Anomaly>)
    ensures out == found + if clusterSize == 0 then [] else Findings(image, clusterSize, |image| / clusterSize)
  {
    hide Findings, BlockAt, U64At;
    out := found;
    if clusterSize == 0 {
      return;
    }
    var clusters := |image| / clusterSize;
    var residentCeiling := clusters;
    NoFindingsYet(image, clusterSize);
    for c := 0 to clusters
      invariant out == found + Findings(image, clusterSize, c)
    {
      var off := c * clusterSize;
      OffsetBound(|image|, clusterSize, c, clusters);
      OneMoreCluster(image, clusterSize, c);
      PageAtOffset(image, off);
      var page := BlockAt(image, off);
      if page.None? {
        NothingAfterLastPage(image, clusterSize, c, clusters);
        return;
      }
      if page.value[..4] != MSB_SIGNATURE {
        continue;
      }
      var selfBlock := U64At(page.value, SELF_BLOCK_OFFSET);
      if selfBlock < residentCeiling && selfBlock != c {
        out := out + [SelfBlockMismatch(selfBlock, c, off)];
      }
    }
  }

  lemma PageAtOffset(image: Buffer, off: nat)
    requires off <= |image|
    ensures var page := BlockAt(image, off);
      && (page.None? <==> off + PAGE_SIZE > |image|)
      && (page.Some? ==>
            && |page.value| == PAGE_SIZE && page.value[..4] == image[off..off + 4]
            && U64At(page.value, SELF_BLOCK_OFFSET) == U64At(image, off + SELF_BLOCK_OFFSET))
  {
    hide U64At;
    if off + PAGE_SIZE <= |image| {
      ReadInSlice(image, off, off + PAGE_SIZE, SELF_BLOCK_OFFSET);
      assert image[off..off + PAGE_SIZE][..4] == image[off..off + 4];
    }
  }

  lemma NoFindingsYet(image: Buffer, clusterSize: nat)
    requires clusterSize > 0
    ensures Findings(image, clusterSize, 0) == []
  {
  }

  lemma OneMoreCluster(image: Buffer, clusterSize: nat, c: nat)
    requires clusterSize > 0 && c < |image| / clusterSize
    ensures Findings(image, clusterSize, c + 1) ==
      Findings(image, clusterSize, c) + FindingAt(image, |image| / clusterSize, c, c * clusterSize)
  {
    hide FindingAt;
  }

  /** The findings are exactly those of the mismatched pages, one for each, in cluster order. */
  lemma {:induction false} FindingsExactly(image: Buffer, clusterSize: nat, n: nat)
    requires clusterSize > 0 && n <= |image| / clusterSize
    ensures forall a :: a in Findings(image, clusterSize, n) <==> IsFindingOf(image, clusterSize, n, a)
    ensures forall i, j :: 0 <= i < j < |Findings(image, clusterSize, n)| ==>
      Findings(image, clusterSize, n)[i].expected < Findings(image, clusterSize, n)[j].expected
  {
    hide FindingAt, Holds, Bytes8;
    if n > 0 {
      var c := n - 1;
      FindingsExactly(image, clusterSize, c);
      forall a
        ensures IsFindingOf(image, clusterSize, n, a) <==>
          IsFindingOf(image, clusterSize, c, a) || a in FindingAt(image, |image| / clusterSize, c, c * clusterSize)
      {
        FindingAtExactly(image, clusterSize, c, a);
      }
      FindingAtExactly(image, clusterSize, c, SelfBlockMismatch(0, 0, 0));
      forall a | a in FindingAt(image, |image| / clusterSize, c, c * clusterSize)
        ensures a.expected == c
      {
        FindingAtExactly(image, clusterSize, c, a);
      }
      forall i | 0 <= i < |Findings(image, clusterSize, c)|
        ensures Findings(image, clusterSize, c)[i].expected < c
      {
        assert IsFindingOf(image, clusterSize, c, Findings(image, clusterSize, c)[i]);
      }
    }
  }

  /** `a` reports a full page at one of the first `n` clusters that carries the signature and records
      as its own block another cluster of the image, below the image's cluster count. */
  ghost predicate IsFindingOf(image: Buffer, clusterSize: nat, n: nat, a: Anomaly)
    requires clusterSize > 0
  {
    && a.expected < n && a.offset == a.expected * clusterSize && a.offset + 16384 <= |image|
    && image[a.offset..a.offset + 4] == [0x4D, 0x53, 0x42, 0x2B]
    && Holds(image, a.offset + 0x20, Bytes8(a.recorded))
    && a.recorded < |image| / clusterSize && a.recorded != a.expected
  }

  lemma FindingAtExactly(image: Buffer, clusterSize: nat, c: nat, a: Anomaly)
    requires clusterSize > 0 && c < |image| / clusterSize
    ensures a in FindingAt(image, |image| / clusterSize, c, c * clusterSize) <==>
      IsFindingOf(image, clusterSize, c + 1, a) && a.expected == c
    ensures |FindingAt(image, |image| / clusterSize, c, c * clusterSize)| <= 1
  {
    hide Bytes8, U64At;
    if c * clusterSize + PAGE_SIZE <= |image| { Reads8(image, c * clusterSize + 0x20, a.recorded); }
  }

  /** A page whose block is no cluster of the image, as a virtual block, is never reported. */
  lemma VirtualBlocksAreNotReported(image: Buffer, clusterSize: nat, c: nat)
    requires clusterSize > 0 && c < |image| / clusterSize && c * clusterSize + PAGE_SIZE <= |image|
    requires U64At(image, c * clusterSize + SELF_BLOCK_OFFSET) >= |image| / clusterSize
    ensures forall a :: a in Findings(image, clusterSize, |image| / clusterSize) ==> a.expected != c
  {
    hide Findings, U64At, Bytes8;
    FindingsExactly(image, clusterSize, |image| / clusterSize);
    forall a | a in Findings(image, clusterSize, |image| / clusterSize)
      ensures a.expected != c
    {
      Reads8(image, a.offset + 0x20, a.recorded);
    }
  }

  /** The sweep meets, at cluster `c`, a page that does not fit. */
  predicate StopsAt(image: Buffer, clusterSize: nat, c: nat)
    requires clusterSize > 0
  {
    c < |image| / clusterSize && BlockAt(image, c * clusterSize).None?
  }

  /** The early stop is taken if and only if the image has a cluster and its last cluster, with
      the bytes after it, is shorter than a page: on every such image of 4096-byte clusters, on
      none whose clusters are at least a page long. */
  lemma EarlyStopExactly(image: Buffer, clusterSize: nat)
    requires clusterSize > 0
    ensures (exists c: nat :: StopsAt(image, clusterSize, c)) <==>
      |image| >= clusterSize && clusterSize + |image| % clusterSize < PAGE_SIZE
  {
    hide StopsAt;
    if |image| / clusterSize == 0 {
      NoCluster(image, clusterSize);
    } else {
      StopsAtLast(image, clusterSize, |image| / clusterSize - 1);
      forall c: nat | StopsAt(image, clusterSize, c)
        ensures clusterSize + |image| % clusterSize < PAGE_SIZE
      {
        StopsBeforeLast(image, clusterSize, c, |image| / clusterSize - 1);
      }
    }
  }

  lemma NoCluster(image: Buffer, clusterSize: nat)
    requires clusterSize > 0 && |image| / clusterSize == 0
    ensures |image| < clusterSize && forall c: nat :: !StopsAt(image, clusterSize, c)
  {
    DivisionBounds(|image|, clusterSize);
  }

  lemma StopsAtLast(image: Buffer, clusterSize: nat, last: nat)
    requires clusterSize > 0 && last + 1 == |image| / clusterSize
    ensures |image| >= clusterSize
    ensures StopsAt(image, clusterSize, last) <==> clusterSize + |image| % clusterSize < PAGE_SIZE
  {
    hide BlockAt;
    LastCluster(|image|, clusterSize, last);
    PageAtOffset(image, last * clusterSize);
  }

  lemma StopsBeforeLast(image: Buffer, clusterSize: nat, c: nat, last: nat)
    requires clusterSize > 0 && last + 1 == |image| / clusterSize && StopsAt(image, clusterSize, c)
    ensures clusterSize + |image| % clusterSize < PAGE_SIZE
  {
    hide BlockAt;
    LastCluster(|image|, clusterSize, last);
    Monotone(c, last, clusterSize);
    PageAtOffset(image, c * clusterSize);
    PageAtOffset(image, last * clusterSize);
  }

  lemma LastCluster(len: nat, size: nat, last: nat)
    requires size > 0 && last + 1 == len / size
    ensures last * size + size + len % size == len && len >= size
  {
    DivisionBounds(len, size);
    assert (last + 1) * size == last * size + size;
  }

  // ---- The link to translation -------------------------------------------------------------

  /** Every resident page claims some cluster of the image, and the sweep finds nothing. */
  ghost predicate CleanlyResident(image: Buffer) {
    && Findings(image, CLUSTER_SIZE, |image| / CLUSTER_SIZE) == []
    && forall d: nat :: IsResident(image, d) ==> SelfBlock(image, d) < |image| / CLUSTER_SIZE
  }

  lemma {:induction false} NoFindingNoMismatch(image: Buffer, clusterSize: nat, n: nat, c: nat)
    requires clusterSize > 0 && c < n <= |image| / clusterSize && Findings(image, clusterSize, n) == []
    ensures !IsMismatch(image, |image| / clusterSize, c, c * clusterSize)
  {
    hide IsMismatch, PageStarts;
    if c < n - 1 { NoFindingNoMismatch(image, clusterSize, n - 1, c); }
  }

  lemma CleanPageIsItsCluster(image: Buffer, d: nat)
    requires CleanlyResident(image) && IsResident(image, d)
    ensures SelfBlock(image, d) == d && d < |image| / CLUSTER_SIZE
  {
    hide U64At;
    ResidentBelowEnd(image, d);
    NoFindingNoMismatch(image, CLUSTER_SIZE, |image| / CLUSTER_SIZE, d);
  }

  lemma SameContainer(a: U64, b: U64, band: U64)
    requires band > 0 && Decompose(a, band).0 == Decompose(b, band).0
    ensures a - Decompose(a, band).1 + Decompose(b, band).1 == b
  {
    hide Decompose;
    DecomposeExactly(a, band);
    DecomposeExactly(b, band);
  }

  /** At 4096-byte clusters, on an image the sweep finds clean and whose pages all claim
      clusters of the image, translation is the identity on every container with a resident
      page: block b lies at byte 4096*b (None if that exceeds 64 bits). */
  lemma CleanSweepMeansIdentity(image: Buffer, band: U64, block: U64, c: nat)
    requires band > 0 && CleanlyResident(image)
    requires IsResident(image, c) && Decompose(SelfBlock(image, c), band).0 == Decompose(block, band).0
    ensures ScannedResolver(image, band).ResolveVirtual(block) == CheckedMul(block, CLUSTER_SIZE)
  {
    hide Scan, Decompose, BaseOf, IsResident, SelfBlock, CleanlyResident;
    var n, idx := |image| / CLUSTER_SIZE, Decompose(block, band).0;
    CleanPageIsItsCluster(image, c);
    ScanSpecification(image, band, n, idx);
    assert Witness(image, band, c, idx);
    var w: nat :| FirstWitness(image, band, n, w, idx);
    CleanPageIsItsCluster(image, w);
    SameContainer(w, block, band);
  }
}
