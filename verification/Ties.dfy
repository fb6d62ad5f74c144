/** What the carver scans on built images, and images on which its report depends on scan order
    (forensic/src/lib.rs:545-616). */
module Ties {
  import opened Wrappers
  import opened Bytes
  import opened Layout
  import opened Utf16
  import opened Minstore
  import opened PageWriter
  import opened PageCodec
  import opened Directory
  import opened EntryRows
  import opened Images
  import opened Carver
  import opened LiveNames

  /** What the carver should read off slot `k`. */
  function SlotVersion(k: nat, s: SmallSlot): Version
    requires s.Built?
  {
    Version(k * PAGE_SIZE, s.tableId, s.block, NamesOf(Entries(AsRows(s.rows))))
  }

  /** The versions of the built slots from the `k`-th on. */
  function SlotVersions(slots: seq<SmallSlot>, k: nat): seq<Version>
    requires k <= |slots|
    decreases |slots| - k
  {
    if k == |slots| then []
    else (if slots[k].Built? then [SlotVersion(k, slots[k])] else []) + SlotVersions(slots, k + 1)
  }

  lemma SlotIsCarved(slots: seq<SmallSlot>, k: nat)
    requires k < |slots| <= MAX_SLOTS && slots[k].Built?
    ensures IsResident(Image(slots), 4 * k) && PageOf(Image(slots), 4 * k) == SlotVersion(k, slots[k])
  {
    hide Image, SlotPage, U64At, SelfBlock, Parse, Page.Rows, Entries, NamesOf, AsRows;
    var image := Image(slots);
    BuiltIsResident(slots, k);
    SlotHeld(slots, k);
    SlotParses(slots[k]);
    SelfBlockOnPage(image, 4 * k);
    TableOnPage(image, 4 * k);
  }

  lemma ClusterCount(slots: seq<SmallSlot>)
    requires |slots| <= MAX_SLOTS
    ensures |Image(slots)| / CLUSTER_SIZE == 4 * |slots|
  {
  }

  /** The page scan of a built image yields its built slots, in order. */
  lemma {:induction false} SlotsAreScanned(slots: seq<SmallSlot>, k: nat)
    requires k <= |slots| <= MAX_SLOTS
    ensures 4 * k <= |Image(slots)| / CLUSTER_SIZE
    ensures PagesFrom(Image(slots), 4 * k) == SlotVersions(slots, k)
    decreases |slots| - k
  {
    hide Image, PageAtCluster, SlotVersion, PagesFrom, SlotVersions;
    ClusterCount(slots);
    if k < |slots| {
      SlotsAreScanned(slots, k + 1);
      SlotScanned(slots, k, 0);
      SlotScanned(slots, k, 1);
      SlotScanned(slots, k, 2);
      SlotScanned(slots, k, 3);
      FourClusters(Image(slots), 4 * k);
      OneMoreSlot(slots, k);
    } else {
      NoMoreSlots(slots);
      NoPagesAfter(Image(slots));
    }
  }

  lemma OneMoreSlot(slots: seq<SmallSlot>, k: nat)
    requires k < |slots|
    ensures SlotVersions(slots, k)
         == (if slots[k].Built? then [SlotVersion(k, slots[k])] else []) + SlotVersions(slots, k + 1)
  {
    hide SlotVersion;
  }

  lemma NoMoreSlots(slots: seq<SmallSlot>)
    ensures SlotVersions(slots, |slots|) == []
  {
  }

  lemma NoPagesAfter(image: Buffer)
    ensures PagesFrom(image, |image| / CLUSTER_SIZE) == []
  {
  }

  lemma SlotScanned(slots: seq<SmallSlot>, k: nat, r: nat)
    requires k < |slots| <= MAX_SLOTS && r < 4
    ensures PageAtCluster(Image(slots), 4 * k + r)
         == if r == 0 && slots[k].Built? then [SlotVersion(k, slots[k])] else []
  {
    hide Image, PageOf, PageAtCluster, IsResident, SlotVersion;
    PageAtClusterExactly(Image(slots), 4 * k + r);
    ResidentSlots(slots, 4 * k + r);
    if slots[k].Built? { SlotIsCarved(slots, k); }
  }

  lemma FourClusters(image: Buffer, c: nat)
    requires c + 4 <= |image| / CLUSTER_SIZE
    requires PageAtCluster(image, c + 1) == PageAtCluster(image, c + 2) == PageAtCluster(image, c + 3) == []
    ensures PagesFrom(image, c) == PageAtCluster(image, c) + PagesFrom(image, c + 4)
  {
    hide PageAtCluster;
    EmptyCluster(image, c + 3);
    EmptyCluster(image, c + 2);
    EmptyCluster(image, c + 1);
  }

  lemma EmptyCluster(image: Buffer, c: nat)
    requires c < |image| / CLUSTER_SIZE && PageAtCluster(image, c) == []
    ensures PagesFrom(image, c) == PagesFrom(image, c + 1)
  {
    hide PageAtCluster;
  }

  lemma ThreeVersions(a: SmallSlot, b: SmallSlot, c: SmallSlot)
    requires a.Built? && b.Built? && c.Built?
    ensures SlotVersions([a, b, c], 0) == [SlotVersion(0, a), SlotVersion(1, b), SlotVersion(2, c)]
  {
    hide SlotVersion;
    var slots := [a, b, c];
    assert SlotVersions(slots, 3) == [];
    assert SlotVersions(slots, 2) == [SlotVersion(2, c)];
    assert SlotVersions(slots, 1) == [SlotVersion(1, b)] + [SlotVersion(2, c)];
  }

  function RootLeaf(block: U64, items: seq<Item>): SmallSlot
    requires Small(ItemRecords(items))
  {
    Built(block, REFS_ROOT_DIRECTORY_ID, PLAIN, false, ItemRecords(items))
  }

  /** Two root leaves of one block number, and one of a lower. */
  function TiedSlots(block: U64, a: seq<Item>, b: seq<Item>, lower: U64, older: seq<Item>): seq<SmallSlot>
    requires Small(ItemRecords(a)) && Small(ItemRecords(b)) && Small(ItemRecords(older))
  {
    [RootLeaf(block, a), RootLeaf(block, b), RootLeaf(lower, older)]
  }

  /** What the carver reports of such an image, from its bytes, is the older leaf's names that the first
      of the tied leaves lacks; so with the tied pages exchanged it is those that the other lacks.
      Scanned in another order the same pages give the same report if and only if the two are the
      same names. */
  lemma TiedPagesDependOnOrder(block: U64, a: seq<Item>, b: seq<Item>, lower: U64, older: seq<Item>)
    requires Small(ItemRecords(a)) && Small(ItemRecords(b)) && Small(ItemRecords(older)) && lower < block
    ensures var pages := ResidentPages(Image(TiedSlots(block, a, b, lower, older)));
      var lackingA := Without(NamesOf(EntriesFor(older)), NamesOf(EntriesFor(a)));
      var lackingB := Without(NamesOf(EntriesFor(older)), NamesOf(EntriesFor(b)));
      && Residue(pages) == (if lackingA == [] then []
                            else [StalePage(lower, REFS_ROOT_DIRECTORY_ID, 2 * PAGE_SIZE, lackingA)])
      && (OrderIndependent(pages) <==> lackingA == lackingB)
  {
    hide Image, ItemRecords, EntriesFor, Entries, NamesOf, AsRows, Small, Without, PagesFrom, Residue, OrderIndependent;
    var slots := TiedSlots(block, a, b, lower, older);
    ItemsReadBack(a);
    ItemsReadBack(b);
    ItemsReadBack(older);
    SlotsAreScanned(slots, 0);
    var v := SlotVersion(0, slots[0]);
    var w := SlotVersion(1, slots[1]);
    var u := SlotVersion(2, slots[2]);
    ThreeVersions(slots[0], slots[1], slots[2]);
    TieOfTwo(v, w, u);
  }
}
