/** What the self-block sweep reports of a built image (forensic/src/lib.rs:422-451). */
module SweptImages {
  import opened Wrappers
  import opened Bytes
  import opened Layout
  import opened Images
  import opened Sweep

  /** The report of one slot: its block is a cluster of the image, and not its own. */
  function SlotFinding(slots: seq<SmallSlot>, k: nat): seq<Anomaly>
    requires k < |slots|
  {
    if slots[k].Built? && slots[k].block < 4 * |slots| && slots[k].block != 4 * k then
      [SelfBlockMismatch(slots[k].block, 4 * k, k * 16384)]
    else []
  }

  /** The reports of the first `n` slots, in order. */
  function SlotFindings(slots: seq<SmallSlot>, n: nat): seq<Anomaly>
    requires n <= |slots|
  {
    if n == 0 then [] else SlotFindings(slots, n - 1) + SlotFinding(slots, n - 1)
  }

  lemma ClusterCount(slots: seq<SmallSlot>)
    requires |slots| <= MAX_SLOTS
    ensures |Image(slots)| / CLUSTER_SIZE == 4 * |slots|
  {
  }

  lemma ClusterIsSwept(slots: seq<SmallSlot>, k: nat, r: nat)
    requires k < |slots| <= MAX_SLOTS && r < 4
    ensures FindingAt(Image(slots), 4 * |slots|, 4 * k + r, (4 * k + r) * CLUSTER_SIZE)
         == if r == 0 then SlotFinding(slots, k) else []
  {
    hide Image, U64At;
    ResidentSlots(slots, 4 * k + r);
  }

  lemma FourClustersSwept(image: Buffer, c: nat)
    requires c + 4 <= |image| / CLUSTER_SIZE
    requires NothingAt(image, c + 1) && NothingAt(image, c + 2) && NothingAt(image, c + 3)
    ensures Findings(image, CLUSTER_SIZE, c + 4)
         == Findings(image, CLUSTER_SIZE, c) + FindingAt(image, |image| / CLUSTER_SIZE, c, c * CLUSTER_SIZE)
  {
    hide FindingAt;
    OneMoreCluster(image, CLUSTER_SIZE, c);
    OneMoreCluster(image, CLUSTER_SIZE, c + 1);
    OneMoreCluster(image, CLUSTER_SIZE, c + 2);
    OneMoreCluster(image, CLUSTER_SIZE, c + 3);
  }

  ghost predicate NothingAt(image: Buffer, c: nat) {
    FindingAt(image, |image| / CLUSTER_SIZE, c, c * CLUSTER_SIZE) == []
  }

  /** The sweep of a built image reports, slot by slot, exactly the pages that record a cluster of the
      image that is not their own. */
  lemma {:induction false} SlotsAreSwept(slots: seq<SmallSlot>, n: nat)
    requires n <= |slots| <= MAX_SLOTS
    ensures 4 * n <= |Image(slots)| / CLUSTER_SIZE
    ensures Findings(Image(slots), CLUSTER_SIZE, 4 * n) == SlotFindings(slots, n)
  {
    hide Image, FindingAt, SlotFinding;
    var image := Image(slots);
    ClusterCount(slots);
    if n == 0 {
      NoFindingsYet(image, CLUSTER_SIZE);
    } else {
      SlotsAreSwept(slots, n - 1);
      ClusterIsSwept(slots, n - 1, 0);
      ClusterIsSwept(slots, n - 1, 1);
      ClusterIsSwept(slots, n - 1, 2);
      ClusterIsSwept(slots, n - 1, 3);
      FourClustersSwept(image, 4 * (n - 1));
    }
  }
}
