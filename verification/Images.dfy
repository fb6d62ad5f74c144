/** Whole images, built slot by slot: every file system of small pages is carried by some image,
    and so is the graph on which the walk loses a leaf. */
module Images {
  import opened Wrappers
  import opened Bytes
  import opened Layout
  import opened Minstore
  import opened PageWriter
  import opened PageCodec
  import opened NodeLayout
  import opened Container
  import opened Resolution
  import opened Descent
  import opened DescentTheorems
  import opened TreeWalk
  import opened Directory
  import opened DirectoryTheorems
  import opened EntryRows
  import opened Volume

  /** Rows whose records end inside the page's first cluster. */
  predicate Small(rows: seq<Record>) {
    AreaLen(rows) <= CLUSTER_SIZE - RECORDS
  }

  /** One page of an image: unused, or built from small rows. */
  datatype Slot = Blank | Built(block: U64, tableId: U64, marks: Marks, isBranch: bool, rows: seq<Record>)

  type SmallSlot = s: Slot | s.Built? ==> Small(s.rows) witness Blank

  const MAX_SLOTS: nat := 0x1_0000_0000_0000

  function SlotPage(s: SmallSlot): (page: Buffer)
    ensures |page| == PAGE_SIZE
  {
    match s
    case Blank => Zeros(PAGE_SIZE)
    case Built(block, tableId, marks, isBranch, rows) =>
      FlaggedPage(block, tableId, marks.level, isBranch, marks.bits, rows)
  }

  function SlotBytes(slots: seq<SmallSlot>): (image: seq<Byte>)
    requires |slots| <= MAX_SLOTS
    ensures |image| == PAGE_SIZE * |slots|
  {
    if slots == [] then []
    else SlotBytes(slots[..|slots| - 1]) + SlotPage(slots[|slots| - 1])
  }

  /** Slot `k` lies at cluster 4*k. */
  function Image(slots: seq<SmallSlot>): (image: Buffer)
    requires |slots| <= MAX_SLOTS
    ensures |image| == PAGE_SIZE * |slots|
  {
    SlotBytes(slots)
  }

  lemma {:induction false} SlotHeld(slots: seq<SmallSlot>, k: nat)
    requires k < |slots| <= MAX_SLOTS
    ensures Holds(Image(slots), k * PAGE_SIZE, SlotPage(slots[k]))
  {
    hide SlotPage, Holds;
    var n := |slots| - 1;
    var before, last := Image(slots[..n]), SlotPage(slots[n]);
    Appended(before, last);
    if k < n {
      SlotHeld(slots[..n], k);
      HoldsExtends(before, Image(slots), k * PAGE_SIZE, SlotPage(slots[k]));
    }
  }

  lemma Appended(a: seq<Byte>, b: seq<Byte>)
    ensures a <= a + b && Holds(a + b, |a|, b)
  {
  }

  /** A built page with small rows has zeros where its other clusters start. */
  lemma SmallPageIsZeroAtClusters(s: SmallSlot, r: nat)
    requires r < 4 && (r > 0 || s.Blank?)
    ensures SlotPage(s)[r * CLUSTER_SIZE] == 0
  {
    hide BuiltPage;
    if s.Built? { SmallBuiltIsZero(s.block, s.tableId, s.marks.level, s.isBranch, s.rows, r); }
  }

  lemma SmallBuiltIsZero(block: U64, tableId: U64, level: Byte, isBranch: bool, rows: seq<Record>, r: nat)
    requires Small(rows) && 0 < r < 4
    ensures BuiltPage(block, tableId, level, isBranch, rows)[r * CLUSTER_SIZE] == 0
  {
    hide PageHeader, NodeHeaderBytes, RecordArea, OffsetBytes;
  }

  /** The resident pages are exactly the built slots, each with the block and the table it was
      built with. */
  lemma ResidentSlots(slots: seq<SmallSlot>, c: nat)
    requires |slots| <= MAX_SLOTS
    ensures IsResident(Image(slots), c) <==> c % 4 == 0 && c / 4 < |slots| && slots[c / 4].Built?
    ensures IsResident(Image(slots), c) ==>
      && SelfBlock(Image(slots), c) == slots[c / 4].block
      && U64At(Image(slots), c * CLUSTER_SIZE + TABLE_ID_OFFSET) == slots[c / 4].tableId
  {
    hide SlotPage, SlotBytes, Image, U64At, SelfBlock;
    if c % 4 == 0 && c / 4 < |slots| && slots[c / 4].Built? {
      assert 4 * (c / 4) == c;
      BuiltIsResident(slots, c / 4);
    }
    if IsResident(Image(slots), c) { ResidentIsBuilt(slots, c); }
  }

  lemma ResidentIsBuilt(slots: seq<SmallSlot>, c: nat)
    requires |slots| <= MAX_SLOTS && IsResident(Image(slots), c)
    ensures c % 4 == 0 && c / 4 < |slots| && slots[c / 4].Built?
  {
    hide SlotPage, SlotBytes;
    var image, off, k := Image(slots), c * CLUSTER_SIZE, c / 4;
    assert image[off] == image[off..off + 4][0] == 0x4D;
    SlotHeld(slots, k);
    var r := c % 4;
    assert image[off] == image[k * PAGE_SIZE..k * PAGE_SIZE + PAGE_SIZE][r * CLUSTER_SIZE];
    if r > 0 || slots[k].Blank? { SmallPageIsZeroAtClusters(slots[k], r); }
  }

  /** A built slot's page has its header and is a laid node of its rows. */
  lemma SlotIsLaid(s: SmallSlot)
    requires s.Built?
    ensures IsPageOf(SlotPage(s), s.block, s.tableId)
    ensures NodeLaid(SlotPage(s), WrittenPlan(s.marks.level, s.isBranch, s.marks.bits, s.rows), AsRows(s.rows))
  {
    hide FlaggedPage, AsRows, WrittenPlan, NodeLaid, IsPageOf;
    FlaggedIsLaid(s.block, s.tableId, s.marks.level, s.isBranch, s.marks.bits, s.rows);
  }

  lemma BuiltIsResident(slots: seq<SmallSlot>, k: nat)
    requires k < |slots| <= MAX_SLOTS && slots[k].Built?
    ensures IsResident(Image(slots), 4 * k) && SelfBlock(Image(slots), 4 * k) == slots[k].block
    ensures U64At(Image(slots), 4 * k * CLUSTER_SIZE + TABLE_ID_OFFSET) == slots[k].tableId
  {
    hide Image, SlotPage, U64At, SelfBlock, IsPageOf, IsResident, NodeLaid, WrittenPlan, AsRows;
    SlotHeld(slots, k);
    SlotIsLaid(slots[k]);
    assert 4 * k * CLUSTER_SIZE == k * PAGE_SIZE;
    ResidentIsInside(Image(slots), 4 * k);
    PageOfIsResident(Image(slots), slots[k].block, slots[k].tableId, 4 * k);
  }

  /** Every page records the cluster it lies at as its own block. */
  ghost predicate OwnBlocks(slots: seq<SmallSlot>) {
    forall k :: 0 <= k < |slots| && slots[k].Built? ==> slots[k].block == 4 * k
  }

  /** Such an image is band-consistent, whatever else it holds. */
  lemma ImageIsConsistent(slots: seq<SmallSlot>)
    requires |slots| <= MAX_SLOTS && OwnBlocks(slots)
    ensures BandConsistent(Image(slots), DEFAULT_BAND_CLUSTERS)
  {
    hide SelfBlock, Image, BandConsistent;
    forall c: nat | IsResident(Image(slots), c)
      ensures SelfBlock(Image(slots), c) == c
    {
      ResidentSlots(slots, c);
      assert 4 * (c / 4) == c;
    }
    OwnClustersAreConsistent(Image(slots));
  }

  lemma OwnClustersAreConsistent(image: Buffer)
    requires forall c: nat :: IsResident(image, c) ==> SelfBlock(image, c) == c
    ensures BandConsistent(image, DEFAULT_BAND_CLUSTERS)
  {
    hide SelfBlock, Decompose;
    forall c: nat | IsResident(image, c)
      ensures ImpliedBase(image, DEFAULT_BAND_CLUSTERS, c)
        == Decompose(SelfBlock(image, c), DEFAULT_BAND_CLUSTERS).0 * DEFAULT_BAND_CLUSTERS
    {
      DecomposeExactly(SelfBlock(image, c), DEFAULT_BAND_CLUSTERS);
    }
  }

  /** The walk sees a slot's node, at the slot's block. */
  lemma SlotIsSeen(slots: seq<SmallSlot>, k: nat)
    requires k < |slots| <= MAX_SLOTS && slots[k].Built? && OwnBlocks(slots)
    ensures GraphOf(Image(slots))(4 * k) ==
      if slots[k].isBranch then Branch(ChildBlocks(AsRows(slots[k].rows))) else Leaf(Entries(AsRows(slots[k].rows)))
  {
    hide Image, SlotPage, ResolveBlockOffset, IsResident, SelfBlock, Parse, Page.Rows, AsRows, BandConsistent;
    var image := Image(slots);
    ImageIsConsistent(slots);
    BuiltIsResident(slots, k);
    ConsistentResolves(image, DEFAULT_BAND_CLUSTERS, 4 * k);
    SlotHeld(slots, k);
    SlotParses(slots[k]);
  }

  lemma SlotParses(s: SmallSlot)
    requires s.Built?
    ensures var node := Parse(SlotPage(s));
      node.Success? && node.value.Rows() == AsRows(s.rows) && node.value.IsBranch() == s.isBranch
  {
    hide FlaggedPage, Parse, Page.Rows, AsRows;
    ParseInvertsFlagged(s.block, s.tableId, s.marks.level, s.isBranch, s.marks.bits, s.rows, SlotPage(s));
  }

  // ---- File systems ----------------------------------------------------------------------------

  const TABLE_BLOCK: U64 := 56
  /** A leaf's level, and no node-type bit. */
  const PLAIN: Marks := Marks(0, 0)

  /** The nodes of a directory's tree, each with the id of the directory. */
  function NodesOf(id: U64, t: DirTree): seq<(U64, DirTree)>
    decreases t, 1
  {
    [(id, t)] + if t.BranchPage? then NodesOfAll(id, t.kids) else []
  }

  function NodesOfAll(id: U64, ts: seq<DirTree>): seq<(U64, DirTree)>
    decreases ts, 0
  {
    if ts == [] then [] else NodesOf(id, ts[0]) + NodesOfAll(id, ts[1..])
  }

  function FsNodes(dirs: seq<(U64, DirTree)>): seq<(U64, DirTree)> {
    if dirs == [] then [] else NodesOf(dirs[0].0, dirs[0].1) + FsNodes(dirs[1..])
  }

  function ObjectsOf(dirs: seq<(U64, DirTree)>): seq<(U64, U64)> {
    if dirs == [] then [] else [(dirs[0].0, dirs[0].1.block)] + ObjectsOf(dirs[1..])
  }

  lemma OneDirectory(id: U64, t: DirTree)
    ensures var dirs := [(id, t)];
      FsNodes(dirs) == NodesOf(id, t) && ObjectsOf(dirs) == [(id, t.block)] && FsOf(dirs) == map[id := t]
  {
    hide NodesOf;
    var dirs := [(id, t)];
    assert dirs[1..] == [];
    assert FsNodes([]) == [] && ObjectsOf([]) == [] && FsOf([]) == map[];
  }

  /** The tree listed first for an id is the one that counts. */
  function FsOf(dirs: seq<(U64, DirTree)>): FileSystem {
    if dirs == [] then map[] else FsOf(dirs[1..])[dirs[0].0 := dirs[0].1]
  }

  predicate SmallNode(t: DirTree) {
    Paired(t) && Small(NodeRecords(t))
  }

  function NodeSlot(id: U64, t: DirTree): SmallSlot
    requires SmallNode(t)
  {
    Built(t.block, id, t.marks, t.BranchPage?, NodeRecords(t))
  }

  function SlotFor(nodes: seq<(U64, DirTree)>, block: nat): SmallSlot
    requires forall i :: 0 <= i < |nodes| ==> SmallNode(nodes[i].1)
  {
    if nodes == [] then Blank
    else if nodes[0].1.block == block then NodeSlot(nodes[0].0, nodes[0].1)
    else SlotFor(nodes[1..], block)
  }

  /** Nodes that fit an image of `n` pages: small, on distinct slots, none of them the table's. */
  ghost predicate Placeable(nodes: seq<(U64, DirTree)>, n: nat) {
    && (forall i :: 0 <= i < |nodes| ==>
          && SmallNode(nodes[i].1) && nodes[i].1.block % 4 == 0 && nodes[i].1.block < 4 * n
          && nodes[i].1.block != TABLE_BLOCK)
    && forall i, j :: 0 <= i < j < |nodes| ==> nodes[i].1.block != nodes[j].1.block
  }

  ghost predicate Buildable(dirs: seq<(U64, DirTree)>, n: nat) {
    && 15 <= n <= MAX_SLOTS
    && Small(ObjectRecords(ObjectsOf(dirs)))
    && Placeable(FsNodes(dirs), n)
  }

  ghost function FsSlot(dirs: seq<(U64, DirTree)>, n: nat, k: nat): SmallSlot
    requires Buildable(dirs, n)
  {
    if 4 * k == TABLE_BLOCK then Built(TABLE_BLOCK, 2, PLAIN, false, ObjectRecords(ObjectsOf(dirs)))
    else SlotFor(FsNodes(dirs), 4 * k)
  }

  ghost function FsSlots(dirs: seq<(U64, DirTree)>, n: nat): (slots: seq<SmallSlot>)
    requires Buildable(dirs, n)
    ensures |slots| == n && forall k :: 0 <= k < n ==> slots[k] == FsSlot(dirs, n, k)
    ensures OwnBlocks(slots)
  {
    FsBlocks(dirs, n);
    seq(n, k requires 0 <= k < n => FsSlot(dirs, n, k))
  }

  lemma FsBlocks(dirs: seq<(U64, DirTree)>, n: nat)
    requires Buildable(dirs, n)
    ensures forall k: nat :: FsSlot(dirs, n, k).Built? ==> FsSlot(dirs, n, k).block == 4 * k
  {
    hide FsNodes, SmallNode, SlotFor;
    forall k: nat | FsSlot(dirs, n, k).Built? && 4 * k != TABLE_BLOCK
      ensures FsSlot(dirs, n, k).block == 4 * k
    {
      var i := SlotIsSomeNode(FsNodes(dirs), 4 * k);
    }
  }

  /** An image of the file system: the object table at cluster 56, each node's page at its block. */
  ghost function FsImage(dirs: seq<(U64, DirTree)>, n: nat): Buffer
    requires Buildable(dirs, n)
  {
    Image(FsSlots(dirs, n))
  }

  lemma {:induction false} SlotOfNode(nodes: seq<(U64, DirTree)>, n: nat, i: nat)
    requires Placeable(nodes, n) && i < |nodes|
    ensures SlotFor(nodes, nodes[i].1.block) == NodeSlot(nodes[i].0, nodes[i].1)
  {
    hide SmallNode, NodeSlot;
    if i > 0 {
      assert forall j :: 0 <= j < |nodes[1..]| ==> nodes[1..][j] == nodes[j + 1];
      SlotOfNode(nodes[1..], n, i - 1);
    }
  }

  lemma {:induction false} SlotIsSomeNode(nodes: seq<(U64, DirTree)>, block: nat) returns (i: nat)
    requires forall i :: 0 <= i < |nodes| ==> SmallNode(nodes[i].1)
    requires SlotFor(nodes, block).Built?
    ensures i < |nodes| && nodes[i].1.block == block && SlotFor(nodes, block) == NodeSlot(nodes[i].0, nodes[i].1)
  {
    hide SmallNode, NodeSlot;
    i := 0;
    if nodes[0].1.block != block {
      i := SlotIsSomeNode(nodes[1..], block);
      i := i + 1;
    }
  }

  /** A node of the file system has its page at the cluster of its own number. */
  lemma NodeIsPlaced(dirs: seq<(U64, DirTree)>, n: nat, id: U64, t: DirTree)
    requires Buildable(dirs, n) && (id, t) in FsNodes(dirs)
    ensures SmallNode(t) && PageAt(FsImage(dirs, n), id, t, t.block)
  {
    hide FsNodes, ObjectsOf, Image, NodeRecords, IsNodePage, SlotPage, SlotFor, NodeSlot;
    var nodes, slots := FsNodes(dirs), FsSlots(dirs, n);
    var i :| 0 <= i < |nodes| && nodes[i] == (id, t);
    var k := t.block / 4;
    assert 4 * k == t.block;
    SlotOfNode(nodes, n, i);
    SlotHeld(slots, k);
    NodeSlotPage(id, t);
  }

  lemma NodeSlotPage(id: U64, t: DirTree)
    requires SmallNode(t)
    ensures IsNodePage(SlotPage(NodeSlot(id, t)), id, t)
  {
    hide NodeRecords, SlotPage, IsPageOf, NodeLaid;
    SlotIsLaid(NodeSlot(id, t));
    WrittenPlanIs(t.marks.level, t.BranchPage?, t.marks.bits, NodeRecords(t));
    assert SameContent(AsRows(NodeRecords(t)), NodeRecords(t));
  }

  lemma {:induction false} TreeIsLaidOut(dirs: seq<(U64, DirTree)>, n: nat, id: U64, t: DirTree)
    requires Buildable(dirs, n) && forall m :: m in NodesOf(id, t) ==> m in FsNodes(dirs)
    ensures LaidOut(FsImage(dirs, n), id, t)
    decreases t, 1
  {
    hide FsImage, FsNodes, PageAt, NodeRecords, Buildable, AreaLen;
    assert NodesOf(id, t)[0] == (id, t);
    NodeIsPlaced(dirs, n, id, t);
    if t.BranchPage? {
      assert forall m :: m in NodesOfAll(id, t.kids) ==> m in NodesOf(id, t);
      TreesAreLaidOut(dirs, n, id, t.kids);
    }
  }

  lemma {:induction false} TreesAreLaidOut(dirs: seq<(U64, DirTree)>, n: nat, id: U64, ts: seq<DirTree>)
    requires Buildable(dirs, n) && forall m :: m in NodesOfAll(id, ts) ==> m in FsNodes(dirs)
    ensures LaidOutAll(FsImage(dirs, n), id, ts)
    decreases ts, 0
  {
    hide FsImage, FsNodes, LaidOut, Buildable, NodesOf;
    if ts != [] {
      assert forall m :: m in NodesOf(id, ts[0]) ==> m in NodesOfAll(id, ts);
      assert forall m :: m in NodesOfAll(id, ts[1..]) ==> m in NodesOfAll(id, ts);
      TreeIsLaidOut(dirs, n, id, ts[0]);
      TreesAreLaidOut(dirs, n, id, ts[1..]);
    }
  }

  lemma {:induction false} DirsNodes(dirs: seq<(U64, DirTree)>, i: nat)
    requires i < |dirs|
    ensures forall m :: m in NodesOf(dirs[i].0, dirs[i].1) ==> m in FsNodes(dirs)
  {
    hide NodesOf;
    if i > 0 { DirsNodes(dirs[1..], i - 1); }
  }

  /** The table names the directories of the file system, and no other. */
  lemma {:induction false} TableNamesDirs(dirs: seq<(U64, DirTree)>, id: U64)
    ensures RootOf(ObjectsOf(dirs), id) == if id in FsOf(dirs) then Some(FsOf(dirs)[id].block) else None
    ensures id in FsOf(dirs) ==> exists i :: 0 <= i < |dirs| && dirs[i] == (id, FsOf(dirs)[id])
  {
    if dirs != [] {
      var rest := dirs[1..];
      TableNamesDirs(rest, id);
      if id in FsOf(rest) {
        var i :| 0 <= i < |rest| && rest[i] == (id, FsOf(rest)[id]);
        assert dirs[i + 1] == rest[i];
      }
      if dirs[0].0 == id { assert dirs[0] == (id, FsOf(dirs)[id]); }
    }
  }

  lemma {:induction false} ObjectRecordsName(objects: seq<(U64, U64)>)
    ensures NameObjects(AsRows(ObjectRecords(objects)), objects)
  {
    hide ObjectKey, ObjectValue, NamesRoot;
    if objects != [] {
      ObjectRecordNames(objects[0].0, objects[0].1);
      ObjectRecordsName(objects[1..]);
      assert AsRows(ObjectRecords(objects))[1..] == AsRows(ObjectRecords(objects[1..]));
    }
  }

  lemma ObjectRecordNames(id: U64, root: U64)
    ensures NamesRoot(AsRow(Record(ObjectKey(id), ObjectValue(root))), id, root)
  {
    hide Bytes8, Zeros;
    assert ObjectKey(id)[8..16] == Bytes8(id);
    assert ObjectValue(root)[0x20..0x28] == Bytes8(root);
  }

  /** A slot built from object records is an object table at its cluster. */
  lemma SlotIsTable(slots: seq<SmallSlot>, objects: seq<(U64, U64)>)
    requires 14 < |slots| <= MAX_SLOTS && slots[14].Built? && slots[14].rows == ObjectRecords(objects)
    ensures TablePlaced(Image(slots), objects)
  {
    hide Image, SlotPage, ObjectRecords, NodeLaid, WrittenPlan, AsRows, NameObjects;
    var image, s := Image(slots), slots[14];
    SlotHeld(slots, 14);
    SlotIsLaid(s);
    var tail := image[56 * 4096..];
    assert tail[..PAGE_SIZE] == image[14 * PAGE_SIZE..15 * PAGE_SIZE];
    LaidLonger(SlotPage(s), tail, WrittenPlan(s.marks.level, s.isBranch, s.marks.bits, s.rows), AsRows(s.rows));
    ObjectRecordsName(objects);
  }

  lemma TableIsPlaced(dirs: seq<(U64, DirTree)>, n: nat)
    requires Buildable(dirs, n)
    ensures TablePlaced(FsImage(dirs, n), ObjectsOf(dirs))
  {
    hide FsNodes, ObjectsOf, Image, ObjectRecords, TablePlaced, Placeable;
    SlotIsTable(FsSlots(dirs, n), ObjectsOf(dirs));
  }

  function NodeBlocks(nodes: seq<(U64, DirTree)>): (blocks: seq<U64>)
    ensures |blocks| == |nodes| && forall i :: 0 <= i < |nodes| ==> blocks[i] == nodes[i].1.block
  {
    seq(|nodes|, i requires 0 <= i < |nodes| => nodes[i].1.block)
  }

  lemma {:induction false} PreorderIsNodes(id: U64, t: DirTree)
    ensures Preorder(Meaning(t)) == NodeBlocks(NodesOf(id, t))
    decreases t, 1
  {
    if t.BranchPage? { PreorderIsAllNodes(id, t.kids); }
  }

  lemma {:induction false} PreorderIsAllNodes(id: U64, ts: seq<DirTree>)
    ensures PreorderAll(MeaningAll(ts)) == NodeBlocks(NodesOfAll(id, ts))
    decreases ts, 0
  {
    hide Preorder, NodesOf;
    if ts != [] {
      PreorderIsNodes(id, ts[0]);
      PreorderIsAllNodes(id, ts[1..]);
      assert MeaningAll(ts)[1..] == MeaningAll(ts[1..]);
    }
  }

  /** A directory's nodes lie together among those of the file system. */
  lemma {:induction false} DirsNodesAt(dirs: seq<(U64, DirTree)>, i: nat) returns (at: nat)
    requires i < |dirs|
    ensures Together(FsNodes(dirs), at, NodesOf(dirs[i].0, dirs[i].1))
  {
    hide NodesOf;
    at := 0;
    if i > 0 {
      at := DirsNodesAt(dirs[1..], i - 1);
      at := at + |NodesOf(dirs[0].0, dirs[0].1)|;
    }
  }

  ghost predicate Together(nodes: seq<(U64, DirTree)>, at: nat, part: seq<(U64, DirTree)>) {
    at + |part| <= |nodes| && forall k :: 0 <= k < |part| ==> part[k] == nodes[at + k]
  }

  lemma BlocksAreDistinct(dirs: seq<(U64, DirTree)>, n: nat, i: nat)
    requires Placeable(FsNodes(dirs), n) && i < |dirs|
    ensures NoDuplicates(Preorder(Meaning(dirs[i].1)))
  {
    hide FsNodes, NodesOf, Preorder, Meaning, SmallNode;
    var at := DirsNodesAt(dirs, i);
    PreorderIsNodes(dirs[i].0, dirs[i].1);
  }

  /** On the image every tree of the file system is stored, whatever its height and size. */
  lemma ImageStoresTree(dirs: seq<(U64, DirTree)>, n: nat, id: U64)
    requires Buildable(dirs, n) && id in FsOf(dirs)
    ensures Stored(FsImage(dirs, n), id, FsOf(dirs)[id])
    ensures NoDuplicates(Preorder(Meaning(FsOf(dirs)[id])))
  {
    hide FsNodes, ObjectsOf, Image, Stored, LaidOut, NoDuplicates, Preorder, BandConsistent, FsOf, Placeable, OwnBlocks;
    var image, t := FsImage(dirs, n), FsOf(dirs)[id];
    ImageIsConsistent(FsSlots(dirs, n));
    TableNamesDirs(dirs, id);
    var i :| 0 <= i < |dirs| && dirs[i] == (id, t);
    DirsNodes(dirs, i);
    TreeIsLaidOut(dirs, n, id, t);
    ConsistentLayoutIsStored(image, id, t);
    BlocksAreDistinct(dirs, n, i);
  }

  /** Every file system of small pages on distinct slots, its trees within the walk's caps, has an
      image that carries it: the conditions of the end-to-end theorems are met together, by trees
      of any shape, and every listing and every path lookup in such an image is exact. */
  lemma ImageCarriesFileSystem(dirs: seq<(U64, DirTree)>, n: nat)
    requires Buildable(dirs, n) && forall id :: id in FsOf(dirs) ==> WellShaped(FsOf(dirs)[id])
    ensures Carries(FsImage(dirs, n), ObjectsOf(dirs), FsOf(dirs))
  {
    hide FsImage, FsNodes, ObjectsOf, TablePlaced, Stored, WellShaped, NoDuplicates, Preorder, RootOf, FsOf, Buildable;
    TableIsPlaced(dirs, n);
    forall id: U64
      ensures RootOf(ObjectsOf(dirs), id) == if id in FsOf(dirs) then Some(FsOf(dirs)[id].block) else None
      ensures id in FsOf(dirs) ==> Stored(FsImage(dirs, n), id, FsOf(dirs)[id])
    {
      TableNamesDirs(dirs, id);
      if id in FsOf(dirs) { ImageStoresTree(dirs, n, id); }
    }
  }

  /** And beyond the caps: list_dir of any directory of such an image returns Ok with exactly the
      entries of the leaves among the first 4096 preorder nodes of the tree's first 64 levels. */
  lemma BuiltDirectoryIsListed(dirs: seq<(U64, DirTree)>, n: nat, id: U64)
    requires Buildable(dirs, n) && id in FsOf(dirs)
    ensures var image, t := FsImage(dirs, n), Meaning(FsOf(dirs)[id]);
      && Represents(GraphOf(image), t) && NoDuplicates(Preorder(t))
      && Listing(image, id)
         == Success(Harvest(GraphOf(image), Take(Top(t, MAX_DESCENT_DEPTH), MAX_VISITED_PAGES)))
  {
    hide FsImage, FsNodes, ObjectsOf, TablePlaced, Stored, NoDuplicates, Preorder, RootOf, FsOf, Buildable, GraphOf,
      WalkOf, WalkResult, Harvest, Take, Top, ObjectTable, Lookup, Represents, Levels, Contents;
    var image, t := FsImage(dirs, n), FsOf(dirs)[id];
    TableIsPlaced(dirs, n);
    TableNamesDirs(dirs, id);
    PlacedTableLooksUp(image, ObjectsOf(dirs), id);
    ImageStoresTree(dirs, n, id);
    StoredIsRepresented(image, id, t);
    StoredTreeWalk(image, id, t);
  }

  /** The resident pages of such an image are its table and its nodes, each at its own block and
      under the id of its directory. */
  lemma ResidentNode(dirs: seq<(U64, DirTree)>, n: nat, c: nat) returns (i: nat)
    requires Buildable(dirs, n) && IsResident(FsImage(dirs, n), c) && c != TABLE_BLOCK
    ensures i < |FsNodes(dirs)| && FsNodes(dirs)[i].1.block == c
    ensures SelfBlock(FsImage(dirs, n), c) == c
    ensures U64At(FsImage(dirs, n), c * CLUSTER_SIZE + TABLE_ID_OFFSET) == FsNodes(dirs)[i].0
  {
    hide FsNodes, ObjectsOf, Image, Small, NodeRecords, U64At, SelfBlock, SlotFor;
    var slots, k := FsSlots(dirs, n), c / 4;
    ResidentSlots(slots, c);
    assert 4 * k == c;
    assert slots[k] == SlotFor(FsNodes(dirs), c);
    i := SlotIsSomeNode(FsNodes(dirs), c);
  }

  lemma TableVersion(dirs: seq<(U64, DirTree)>, n: nat)
    requires Buildable(dirs, n)
    ensures IsResident(FsImage(dirs, n), TABLE_BLOCK)
    ensures U64At(FsImage(dirs, n), TABLE_BLOCK * CLUSTER_SIZE + TABLE_ID_OFFSET) == 2
  {
    hide FsNodes, ObjectsOf, Image, Small, U64At, Placeable;
    BuiltIsResident(FsSlots(dirs, n), 14);
  }

  // ---- A branch and two leaves -----------------------------------------------------------------------

  /** One directory of two leaves under a branch, the smallest tree with siblings. */
  function TwoLeaves(id: U64, root: U64, marks: Marks, refs: seq<Reference>, a: DirTree, b: DirTree)
    : seq<(U64, DirTree)>
  {
    [(id, BranchPage(root, marks, refs, [a, b]))]
  }

  /** The leaves and the branch rows are small, and the blocks lie on distinct slots. */
  ghost predicate TwoLeavesFit(root: U64, refs: seq<Reference>, a: DirTree, b: DirTree, n: nat) {
    && a.LeafPage? && b.LeafPage? && |refs| == 2 && 15 <= n <= MAX_SLOTS
    && Small(ItemRecords(a.items)) && Small(ItemRecords(b.items))
    && Small(ReferenceRecords(refs, [a.block, b.block]))
    && root % 4 == 0 && a.block % 4 == 0 && b.block % 4 == 0
    && root < 4 * n && a.block < 4 * n && b.block < 4 * n
    && root != a.block && root != b.block && a.block != b.block
    && root != TABLE_BLOCK && a.block != TABLE_BLOCK && b.block != TABLE_BLOCK
  }

  lemma TwoLeavesNodes(id: U64, root: U64, marks: Marks, refs: seq<Reference>, a: DirTree, b: DirTree)
    requires a.LeafPage? && b.LeafPage?
    ensures FsNodes(TwoLeaves(id, root, marks, refs, a, b))
      == [(id, BranchPage(root, marks, refs, [a, b])), (id, a), (id, b)]
  {
    var dirs, kids := TwoLeaves(id, root, marks, refs, a, b), [a, b];
    assert dirs[1..] == [] && kids[1..] == [b] && [b][1..] == [];
    assert NodesOfAll(id, [b]) == [(id, b)] && NodesOfAll(id, kids) == [(id, a), (id, b)];
  }

  lemma TwoLeavesMeaning(root: U64, marks: Marks, refs: seq<Reference>, a: DirTree, b: DirTree)
    requires a.LeafPage? && b.LeafPage?
    ensures var t := Meaning(BranchPage(root, marks, refs, [a, b]));
      && Preorder(t) == [root, a.block, b.block] && Levels(t) == 2
      && Contents(t) == EntriesFor(a.items) + EntriesFor(b.items)
  {
    hide EntriesFor;
    var kids, trees := [a, b], [Meaning(a), Meaning(b)];
    assert kids[1..] == [b] && [b][1..] == [] && trees[1..] == [Meaning(b)] && [Meaning(b)][1..] == [];
    assert MeaningAll([b]) == [Meaning(b)] && MeaningAll(kids) == trees;
    assert PreorderAll([Meaning(b)]) == [b.block] && PreorderAll(trees) == [a.block, b.block];
    assert ContentsAll([Meaning(b)]) == EntriesFor(b.items);
    assert ContentsAll(trees) == EntriesFor(a.items) + EntriesFor(b.items);
    assert Levels(Meaning(a)) == 1 && Levels(Meaning(b)) == 1;
    assert LevelsAll([Meaning(b)]) == 1;
    assert trees[0] == Meaning(a) && LevelsAll(trees) == 1;
  }

  lemma TwoLeavesAreBuildable(id: U64, root: U64, marks: Marks, refs: seq<Reference>, a: DirTree, b: DirTree, n: nat)
    requires TwoLeavesFit(root, refs, a, b, n)
    ensures Buildable(TwoLeaves(id, root, marks, refs, a, b), n)
  {
    hide Small, ItemRecords, ReferenceRecords, ObjectRecords, FsNodes;
    var t := BranchPage(root, marks, refs, [a, b]);
    TwoLeavesNodes(id, root, marks, refs, a, b);
    assert BlocksOf([a, b]) == [a.block, b.block];
    assert SmallNode(t) && SmallNode(a) && SmallNode(b);
    OneDirectory(id, t);
    OneObjectIsSmall(id, root);
  }

  lemma OneObjectIsSmall(objectId: U64, root: U64)
    ensures Small(ObjectRecords([(objectId, root)]))
  {
    var objects := [(objectId, root)];
    assert objects[1..] == [];
    assert ObjectRecords(objects)[..0] == [];
  }

  /** Such an image lists both leaves, left to right. */
  lemma TwoLeavesAreListed(id: U64, root: U64, marks: Marks, refs: seq<Reference>, a: DirTree, b: DirTree, n: nat)
    requires TwoLeavesFit(root, refs, a, b, n)
    ensures var dirs := TwoLeaves(id, root, marks, refs, a, b);
      && Buildable(dirs, n)
      && Stored(FsImage(dirs, n), id, dirs[0].1) && WellShaped(dirs[0].1)
      && Listing(FsImage(dirs, n), id) == Success(EntriesFor(a.items) + EntriesFor(b.items))
  {
    hide Small, Buildable, FsImage, Stored, Preorder, Levels, Contents, TablePlaced, Listing, EntriesFor, RootOf,
      ObjectsOf;
    var dirs := TwoLeaves(id, root, marks, refs, a, b);
    TwoLeavesAreBuildable(id, root, marks, refs, a, b, n);
    TwoLeavesMeaning(root, marks, refs, a, b);
    assert WellShaped(dirs[0].1) by { assert NoDuplicates([root, a.block, b.block]); }
    OneDirectory(id, dirs[0].1);
    assert id in FsOf(dirs);
    ImageCarriesFileSystem(dirs, n);
    ListDirReturnsWhatWasWritten(FsImage(dirs, n), ObjectsOf(dirs), id, id, dirs[0].1);
  }

  // ---- A truncated listing ------------------------------------------------------------------------

  /** Blocks 60, 64, ..., 316, of slots 15 to 79. */
  function ChainBlock(k: nat): U64
    requires k <= 64
  {
    60 + 4 * k
  }

  function Chain(): (chain: seq<U64>)
    ensures |chain| == 65 && forall k :: 0 <= k <= 64 ==> chain[k] == ChainBlock(k)
  {
    seq(65, k requires 0 <= k <= 64 => ChainBlock(k))
  }

  predicate ShortReference(ref: Reference) {
    |ref.separator| + |ref.tail| <= 1000
  }

  /** One leaf and a chain of 64 branch pages to it, the first of which also names the last. */
  function ShortCutSlot(objectId: U64, ref: Reference, items: seq<Item>, k: nat): SmallSlot
    requires ShortReference(ref) && Small(ItemRecords(items)) && k < 80
  {
    ReferencesAreSmall(ref, ChainBlock(1), ChainBlock(63));
    ReferencesAreSmall(ref, if 15 < k < 79 then ChainBlock(k - 14) else 0, 0);
    OneObjectIsSmall(objectId, ChainBlock(0));
    if k < 14 then Blank
    else if k == 14 then Built(TABLE_BLOCK, 2, PLAIN, false, ObjectRecords([(objectId, ChainBlock(0))]))
    else if k == 15 then Built(60, objectId, PLAIN, true, ReferenceRecords([ref, ref], [ChainBlock(1), ChainBlock(63)]))
    else if k < 79 then Built(4 * k, objectId, PLAIN, true, ReferenceRecords([ref], [ChainBlock(k - 14)]))
    else Built(316, objectId, PLAIN, false, ItemRecords(items))
  }

  lemma ReferencesAreSmall(ref: Reference, a: U64, b: U64)
    requires ShortReference(ref)
    ensures Small(ReferenceRecords([ref], [a])) && Small(ReferenceRecords([ref, ref], [a, b]))
  {
    var one, two := ReferenceRecords([ref], [a]), ReferenceRecords([ref, ref], [a, b]);
    assert [ref][1..] == [] && [ref, ref][1..] == [ref] && [a, b][1..] == [b];
    assert ReferenceRecords([ref], [b]) == [ReferenceRecord(ref, b)];
    assert one[..0] == [] && two == [ReferenceRecord(ref, a), ReferenceRecord(ref, b)] && two[..1] == one;
  }

  function ShortCutImage(objectId: U64, ref: Reference, items: seq<Item>): Buffer
    requires ShortReference(ref) && Small(ItemRecords(items))
  {
    Image(ShortCutSlots(objectId, ref, items))
  }

  function ShortCutSlots(objectId: U64, ref: Reference, items: seq<Item>): (slots: seq<SmallSlot>)
    requires ShortReference(ref) && Small(ItemRecords(items))
    ensures |slots| == 80 && forall k :: 0 <= k < 80 ==> slots[k] == ShortCutSlot(objectId, ref, items, k)
  {
    seq(80, k requires 0 <= k < 80 => ShortCutSlot(objectId, ref, items, k))
  }

  lemma ShortCutIsSeen(objectId: U64, ref: Reference, items: seq<Item>)
    requires ShortReference(ref) && Small(ItemRecords(items))
    ensures IsShortCut(GraphOf(ShortCutImage(objectId, ref, items)), Chain(), EntriesFor(items))
  {
    hide Image, GraphOf, ReferenceRecords, ItemRecords, ObjectRecords, Small, EntriesFor, Entries, ChildBlocks, AsRows;
    var slots := ShortCutSlots(objectId, ref, items);
    SlotIsSeen(slots, 15);
    ReferencesReadBack([ref, ref], [ChainBlock(1), ChainBlock(63)]);
    forall k | 1 <= k <= 63
      ensures GraphOf(Image(slots))(ChainBlock(k)) == Branch([ChainBlock(k + 1)])
    {
      SlotIsSeen(slots, 15 + k);
      ReferencesReadBack([ref], [ChainBlock(k + 1)]);
    }
    SlotIsSeen(slots, 79);
    ItemsReadBack(items);
  }

  /** An Ok listing can be truncated. Whatever entries the leaf holds, and whatever the branch
      rows keep beside their blocks, list_dir of this image returns Ok without any of them,
      although two child references lead from the directory's root to the leaf. */
  lemma ListingCanBeTruncated(objectId: U64, ref: Reference, items: seq<Item>)
    requires ShortReference(ref) && Small(ItemRecords(items))
    ensures var image := ShortCutImage(objectId, ref, items);
      && ObjectTable(image).Success? && Lookup(ObjectTable(image).value, objectId) == Some(ChainBlock(0))
      && Listing(image, objectId) == Success([])
      && GraphOf(image)(ChainBlock(64)) == Leaf(EntriesFor(items))
      && IsPath(GraphOf(image), [ChainBlock(0), ChainBlock(63), ChainBlock(64)])
  {
    hide Image, GraphOf, ItemRecords, ObjectRecords, Small, EntriesFor, Walked, ObjectTable, Lookup,
      TablePlaced, IsPath;
    var image, objects := ShortCutImage(objectId, ref, items), [(objectId, ChainBlock(0))];
    ShortCutIsSeen(objectId, ref, items);
    ShortPathsCanBeLost(GraphOf(image), Chain(), EntriesFor(items));
    GraphIsScanned(image, ChainBlock(0));
    ShortCutTable(objectId, ref, items);
    PlacedTableLooksUp(image, objects, objectId);
  }

  lemma ShortCutTable(objectId: U64, ref: Reference, items: seq<Item>)
    requires ShortReference(ref) && Small(ItemRecords(items))
    ensures TablePlaced(ShortCutImage(objectId, ref, items), [(objectId, ChainBlock(0))])
  {
    hide Image, ItemRecords, ObjectRecords, TablePlaced, ReferenceRecords;
    OneObjectIsSmall(objectId, ChainBlock(0));
    SlotIsTable(ShortCutSlots(objectId, ref, items), [(objectId, ChainBlock(0))]);
  }
}
