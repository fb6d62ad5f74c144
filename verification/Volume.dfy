/** End to end: a directory tree laid out on pages where its blocks resolve, each page in any layout
    of the format and under any flags, is listed back exactly, through the object table
    (core/src/directory.rs). */
module Volume {
  import opened Wrappers
  import opened Bytes
  import opened Layout
  import opened Utf16
  import opened Minstore
  import opened PageWriter
  import opened PageCodec
  import opened NodeLayout
  import opened Container
  import opened Resolution
  import opened Descent
  import opened DescentTheorems
  import opened TreeWalk
  import opened Directory
  import opened DirectoryTheorems
  import opened EntryRows
  import Paths

  // ---- Stored trees -----------------------------------------------------------------------------

  /** The level a page claims and its node-type bits beside the branch bit (root, stream). The reader
      consults neither. */
  datatype Marks = Marks(level: Byte, bits: Bits)

  /** A directory tree: one page a node. A branch names each child by block, under a separator key and
      with any redundancy bytes after the block. */
  datatype DirTree =
    | LeafPage(block: U64, marks: Marks, items: seq<Item>)
    | BranchPage(block: U64, marks: Marks, refs: seq<Reference>, kids: seq<DirTree>)

  function BlocksOf(ts: seq<DirTree>): (blocks: seq<U64>)
    ensures |blocks| == |ts|
  {
    seq(|ts|, i requires 0 <= i < |ts| => ts[i].block)
  }

  predicate Paired(t: DirTree) {
    t.BranchPage? ==> |t.refs| == |t.kids|
  }

  function NodeRecords(t: DirTree): seq<Record>
    requires Paired(t)
  {
    match t
    case LeafPage(_, _, items) => ItemRecords(items)
    case BranchPage(_, _, refs, kids) => ReferenceRecords(refs, BlocksOf(kids))
  }

  /** The rows have the keys and the values of the records, under any record flags. */
  ghost predicate SameContent(rows: seq<Row>, records: seq<Record>) {
    && |rows| == |records|
    && forall i :: 0 <= i < |rows| ==> rows[i].key == records[i].key && rows[i].value == records[i].value
  }

  /** A page of the node, in any layout. */
  ghost predicate IsNodePage(page: seq<Byte>, tableId: U64, t: DirTree)
    requires Paired(t)
  {
    && IsPageOf(page, t.block, tableId)
    && exists l: Plan, rows: seq<Row> :: NodeLaid(page, l, rows) && l.isBranch == t.BranchPage?
         && Marks(l.level, l.bits) == t.marks && SameContent(rows, NodeRecords(t))
  }

  /** The node's page lies at cluster `c` of the image. */
  ghost predicate PageAt(image: Buffer, tableId: U64, t: DirTree, c: nat)
    requires Paired(t)
  {
    && c * CLUSTER_SIZE + PAGE_SIZE <= |image|
    && IsNodePage(image[c * CLUSTER_SIZE..c * CLUSTER_SIZE + PAGE_SIZE], tableId, t)
  }

  /** The node's page lies where its block resolves. */
  ghost predicate PageFound(image: Buffer, tableId: U64, t: DirTree)
    requires Paired(t)
  {
    exists c: nat :: PageAt(image, tableId, t, c)
      && ResolveBlockOffset(image, DefaultResolver(image), t.block) == Some(c * CLUSTER_SIZE)
  }

  /** Every node's page lies where its block resolves. */
  ghost predicate Stored(image: Buffer, tableId: U64, t: DirTree)
    decreases t, 1
  {
    && Paired(t) && PageFound(image, tableId, t)
    && (t.BranchPage? ==> StoredAll(image, tableId, t.kids))
  }

  ghost predicate StoredAll(image: Buffer, tableId: U64, ts: seq<DirTree>)
    decreases ts, 0
  {
    ts != [] ==> Stored(image, tableId, ts[0]) && StoredAll(image, tableId, ts[1..])
  }

  /** Every node's page lies at some cluster, whichever. */
  ghost predicate LaidOut(image: Buffer, tableId: U64, t: DirTree)
    decreases t, 1
  {
    && Paired(t) && (exists c: nat :: PageAt(image, tableId, t, c))
    && (t.BranchPage? ==> LaidOutAll(image, tableId, t.kids))
  }

  ghost predicate LaidOutAll(image: Buffer, tableId: U64, ts: seq<DirTree>)
    decreases ts, 0
  {
    ts != [] ==> LaidOut(image, tableId, ts[0]) && LaidOutAll(image, tableId, ts[1..])
  }

  /** The abstract tree that a stored tree stands for. */
  function Meaning(t: DirTree): Tree<DirEntry>
    decreases t, 1
  {
    match t
    case LeafPage(b, _, items) => LeafNode(b, EntriesFor(items))
    case BranchPage(b, _, _, kids) => BranchNode(b, MeaningAll(kids))
  }

  function MeaningAll(ts: seq<DirTree>): seq<Tree<DirEntry>>
    decreases ts, 0
  {
    if ts == [] then [] else [Meaning(ts[0])] + MeaningAll(ts[1..])
  }

  lemma {:induction false} RootsAreBlocks(ts: seq<DirTree>)
    ensures Roots(MeaningAll(ts)) == BlocksOf(ts)
  {
    if ts != [] {
      RootsAreBlocks(ts[1..]);
      assert BlocksOf(ts)[1..] == BlocksOf(ts[1..]);
      assert MeaningAll(ts)[1..] == MeaningAll(ts[1..]);
    }
  }

  lemma {:induction false} SameEntries(rows: seq<Row>, records: seq<Record>)
    requires SameContent(rows, records)
    ensures Entries(rows) == Entries(AsRows(records))
  {
    hide U16At, U64At, Decode, ParseMetadata;
    if rows != [] {
      SameEntries(rows[1..], records[1..]);
      assert AsRows(records)[1..] == AsRows(records[1..]);
    }
  }

  lemma {:induction false} SameChildren(rows: seq<Row>, records: seq<Record>)
    requires SameContent(rows, records)
    ensures ChildBlocks(rows) == ChildBlocks(AsRows(records))
  {
    hide U64At;
    if rows != [] {
      SameChildren(rows[1..], records[1..]);
      assert AsRows(records)[1..] == AsRows(records[1..]);
    }
  }

  /** A page of a node parses to the node it is a page of. */
  lemma NodePageParses(page: Buffer, tableId: U64, t: DirTree)
    requires Paired(t) && IsNodePage(page, tableId, t)
    ensures Parse(page).Success?
    ensures Entries(Parse(page).value.Rows()) == Entries(AsRows(NodeRecords(t)))
    ensures NodeFetch(Parse(page).value) == match t
      case LeafPage(_, _, items) => Leaf(EntriesFor(items))
      case BranchPage(_, _, _, kids) => Branch(Roots(MeaningAll(kids)))
  {
    hide Parse, Page.Rows, Entries, ChildBlocks, NodeRecords, NodeLaid, SameContent, AsRows;
    var l: Plan, rows: seq<Row> :| NodeLaid(page, l, rows) && l.isBranch == t.BranchPage?
      && Marks(l.level, l.bits) == t.marks && SameContent(rows, NodeRecords(t));
    LaidNodeParses(page, l, rows);
    SameEntries(rows, NodeRecords(t));
    SameChildren(rows, NodeRecords(t));
    NodeReadsBack(t);
  }

  lemma PageOfIsResident(image: Buffer, selfBlock: U64, tableId: U64, c: nat)
    requires c * CLUSTER_SIZE + PAGE_SIZE <= |image|
    requires IsPageOf(image[c * CLUSTER_SIZE..c * CLUSTER_SIZE + PAGE_SIZE], selfBlock, tableId)
    ensures IsResident(image, c) && SelfBlock(image, c) == selfBlock
    ensures U64At(image, c * CLUSTER_SIZE + TABLE_ID_OFFSET) == tableId
  {
    hide U64At, Bytes8;
    var off := c * CLUSTER_SIZE;
    var page := image[off..off + PAGE_SIZE];
    assert image[off..off + 4] == page[..4];
    ReadHeld8(page, 0x20, selfBlock);
    ReadHeld8(page, 72, tableId);
    ReadInSlice(image, off, off + PAGE_SIZE, 0x20);
    ReadInSlice(image, off, off + PAGE_SIZE, 72);
  }

  /** A page placed on the image is resident at its cluster, under its own block number. */
  lemma PlacedIsResident(image: Buffer, tableId: U64, t: DirTree, c: nat)
    requires Paired(t) && PageAt(image, tableId, t, c)
    ensures IsResident(image, c) && SelfBlock(image, c) == t.block
    ensures U64At(image, c * CLUSTER_SIZE + TABLE_ID_OFFSET) == tableId
  {
    hide IsPageOf, SelfBlock, U64At, NodeLaid, SameContent, NodeRecords;
    PageOfIsResident(image, t.block, tableId, c);
  }

  lemma NodeReadsBack(t: DirTree)
    requires Paired(t)
    ensures t.LeafPage? ==> Entries(AsRows(NodeRecords(t))) == EntriesFor(t.items)
    ensures t.BranchPage? ==> ChildBlocks(AsRows(NodeRecords(t))) == Roots(MeaningAll(t.kids))
  {
    hide Entries, ChildBlocks;
    match t
    case LeafPage(_, _, items) => ItemsReadBack(items);
    case BranchPage(_, _, refs, kids) =>
      ReferencesReadBack(refs, BlocksOf(kids));
      RootsAreBlocks(kids);
  }

  /** The walk sees each stored node as the node it stands for. */
  lemma StoredNodeIsSeen(image: Buffer, tableId: U64, t: DirTree)
    requires Paired(t) && PageFound(image, tableId, t)
    ensures GraphOf(image)(t.block) == match t
      case LeafPage(_, _, items) => Leaf(EntriesFor(items))
      case BranchPage(_, _, _, kids) => Branch(Roots(MeaningAll(kids)))
  {
    hide ResolveBlockOffset, IsNodePage, NodeFetch, Parse, DefaultResolver, ReadPage;
    var c: nat :| PageAt(image, tableId, t, c)
      && ResolveBlockOffset(image, DefaultResolver(image), t.block) == Some(c * CLUSTER_SIZE);
    NodePageParses(image[c * CLUSTER_SIZE..c * CLUSTER_SIZE + PAGE_SIZE], tableId, t);
    ReadWhereResolved(image, DefaultResolver(image), t.block, c);
  }

  lemma ReadWhereResolved(image: Buffer, resolver: Resolver, block: U64, c: nat)
    requires resolver.InRange() && c * CLUSTER_SIZE + PAGE_SIZE <= |image|
    requires ResolveBlockOffset(image, resolver, block) == Some(c * CLUSTER_SIZE)
    ensures ReadPage(image, resolver, block) == Success(image[c * CLUSTER_SIZE..c * CLUSTER_SIZE + PAGE_SIZE])
  {
    hide ResolveBlockOffset;
  }

  /** On a band-consistent image, with bands of 16384 clusters, it does not matter where the pages
      lie. */
  lemma {:induction false} ConsistentLayoutIsStored(image: Buffer, tableId: U64, t: DirTree)
    requires BandConsistent(image, 16384) && LaidOut(image, tableId, t)
    ensures Stored(image, tableId, t)
    decreases t, 1
  {
    hide BandConsistent, PageAt, ResolveBlockOffset, NodeRecords, IsResident, SelfBlock;
    var c: nat :| PageAt(image, tableId, t, c);
    PlacedIsResident(image, tableId, t, c);
    ConsistentResolves(image, 16384, c);
    if t.BranchPage? { ConsistentLayoutsAreStored(image, tableId, t.kids); }
  }

  lemma {:induction false} ConsistentLayoutsAreStored(image: Buffer, tableId: U64, ts: seq<DirTree>)
    requires BandConsistent(image, 16384) && LaidOutAll(image, tableId, ts)
    ensures StoredAll(image, tableId, ts)
    decreases ts, 0
  {
    hide BandConsistent, LaidOut, Stored;
    if ts != [] {
      ConsistentLayoutIsStored(image, tableId, ts[0]);
      ConsistentLayoutsAreStored(image, tableId, ts[1..]);
    }
  }

  lemma {:induction false} StoredIsRepresented(image: Buffer, tableId: U64, t: DirTree)
    requires Stored(image, tableId, t)
    ensures Represents(GraphOf(image), Meaning(t))
    decreases t, 1
  {
    hide GraphOf, PageFound;
    StoredNodeIsSeen(image, tableId, t);
    if t.BranchPage? { AllStoredRepresented(image, tableId, t.kids); }
  }

  lemma {:induction false} AllStoredRepresented(image: Buffer, tableId: U64, ts: seq<DirTree>)
    requires StoredAll(image, tableId, ts)
    ensures RepresentsAll(GraphOf(image), MeaningAll(ts))
    decreases ts, 0
  {
    hide GraphOf, Stored, Represents;
    if ts != [] {
      StoredIsRepresented(image, tableId, ts[0]);
      AllStoredRepresented(image, tableId, ts[1..]);
      assert MeaningAll(ts)[1..] == MeaningAll(ts[1..]);
    }
  }

  /** What the walk lists of any stored tree of distinct blocks, of any height and size: the items
      of the leaves among the first 4096 preorder nodes of the first 64 levels, and no error. */
  lemma StoredTreeWalk(image: Buffer, tableId: U64, t: DirTree)
    requires Stored(image, tableId, t) && NoDuplicates(Preorder(Meaning(t)))
    ensures WalkOf(image, t.block).visited == Take(Top(Meaning(t), MAX_DESCENT_DEPTH), MAX_VISITED_PAGES)
    ensures WalkResult(image, t.block) == Success(Harvest(GraphOf(image), WalkOf(image, t.block).visited))
    ensures WalkOf(image, t.block).visited == Preorder(Meaning(t)) <==>
      Levels(Meaning(t)) <= MAX_DESCENT_DEPTH && |Preorder(Meaning(t))| <= MAX_VISITED_PAGES
    ensures WalkOf(image, t.block).visited == Preorder(Meaning(t)) ==>
      WalkResult(image, t.block) == Success(Contents(Meaning(t)))
  {
    hide GraphOf, Stored, Represents, NoDuplicates, Preorder, Levels, Contents, Walked, Top, Take, Harvest;
    StoredIsRepresented(image, tableId, t);
    assert Meaning(t).block == t.block;
    WalkListsTree(GraphOf(image), Meaning(t));
    GraphIsScanned(image, t.block);
  }

  /** A stored tree in which every leaf has an entry and every branch a child is listed in full if and
      only if it has at most 64 levels and 4096 pages. The listing of a larger one is Ok, with
      entries missing. */
  lemma StoredTreeListedInFullIff(image: Buffer, tableId: U64, t: DirTree)
    requires Stored(image, tableId, t) && NoDuplicates(Preorder(Meaning(t))) && Fruitful(Meaning(t))
    ensures var r := WalkResult(image, t.block);
      && r.Success?
      && (r.value == Contents(Meaning(t)) <==>
            Levels(Meaning(t)) <= MAX_DESCENT_DEPTH && |Preorder(Meaning(t))| <= MAX_VISITED_PAGES)
      && (r.value != Contents(Meaning(t)) ==> |r.value| < |Contents(Meaning(t))|)
  {
    hide GraphOf, Stored, Represents, NoDuplicates, Preorder, Levels, Contents, Walked, Fruitful;
    StoredIsRepresented(image, tableId, t);
    assert Meaning(t).block == t.block;
    ListedInFullIff(GraphOf(image), Meaning(t));
    GraphIsScanned(image, t.block);
  }

  /** A stored directory tree of distinct blocks, at most 64 levels and 4096 pages, is listed back
      exactly: every item of every leaf, left to right. */
  lemma StoredTreeIsListed(image: Buffer, tableId: U64, t: DirTree)
    requires Stored(image, tableId, t) && WellShaped(t)
    ensures WalkResult(image, t.block) == Success(Contents(Meaning(t)))
  {
    hide Stored, WalkOf, WalkResult, NoDuplicates, Preorder, Levels, Contents, Top, Take;
    StoredTreeWalk(image, tableId, t);
  }

  /** Distinct blocks, at most 64 levels and 4096 pages. */
  ghost predicate WellShaped(t: DirTree) {
    && NoDuplicates(Preorder(Meaning(t)))
    && Levels(Meaning(t)) <= MAX_DESCENT_DEPTH && |Preorder(Meaning(t))| <= MAX_VISITED_PAGES
  }

  lemma GraphIsScanned(image: Buffer, root: U64)
    ensures WalkOf(image, root) == Walked(GraphOf(image), root)
  {
    hide Walked, FetchBlock;
  }

  // ---- The object table ---------------------------------------------------------------------------

  /** Each row is the record of an object and names its root, whatever else its key and value hold. */
  ghost predicate NameObjects(rows: seq<Row>, objects: seq<(U64, U64)>) {
    |rows| == |objects| && forall i :: 0 <= i < |rows| ==> NamesRoot(rows[i], objects[i].0, objects[i].1)
  }

  /** The object table lies at cluster 56, in any layout; what follows it on the image is read as part
      of the same node, and changes nothing. */
  ghost predicate TablePlaced(image: Buffer, objects: seq<(U64, U64)>) {
    && 56 * 4096 <= |image|
    && exists l: Plan, rows: seq<Row> :: NodeLaid(image[56 * 4096..], l, rows) && NameObjects(rows, objects)
  }

  lemma {:induction false} ObjectsLookUp(rows: seq<Row>, objects: seq<(U64, U64)>, objectId: U64)
    requires NameObjects(rows, objects)
    ensures Lookup(rows, objectId) == RootOf(objects, objectId)
  {
    hide Lookup, U64At, Bytes8, NamesRoot;
    if rows == [] {
      NothingToLookUp(objectId);
    } else {
      var (id, root) := objects[0];
      assert rows == [rows[0]] + rows[1..];
      LookupRow(rows[0], rows[1..], objectId, root);
      if objectId != id { OneId(rows[0], id, root, objectId); }
      ObjectsLookUp(rows[1..], objects[1..], objectId);
    }
  }

  lemma NothingToLookUp(objectId: U64)
    ensures Lookup([], objectId).None?
  {
  }

  /** A key holds one id. */
  lemma OneId(row: Row, id: U64, root: U64, objectId: U64)
    requires NamesRoot(row, id, root) && objectId != id
    ensures !Holds(row.key, 8, Bytes8(objectId))
  {
    hide U64At;
    assert U64At(Bytes8(id), 0) == id && U64At(Bytes8(objectId), 0) == objectId;
  }

  lemma PlacedTableLooksUp(image: Buffer, objects: seq<(U64, U64)>, objectId: U64)
    requires TablePlaced(image, objects)
    ensures ObjectTable(image).Success? && Lookup(ObjectTable(image).value, objectId) == RootOf(objects, objectId)
  {
    hide NodeLaid, NameObjects, Parse, Page.Rows, Lookup;
    var l: Plan, rows: seq<Row> :| NodeLaid(image[56 * 4096..], l, rows) && NameObjects(rows, objects);
    LaidNodeParses(image[56 * 4096..], l, rows);
    ObjectsLookUp(rows, objects, objectId);
  }

  /** The headline of the repository, on every image it holds for: list_dir of an object id,
      through an object table laid at cluster 56, descends the stored tree of that object and
      returns exactly its items. */
  lemma ListDirReturnsWhatWasWritten(image: Buffer, objects: seq<(U64, U64)>, objectId: U64, tableId: U64, t: DirTree)
    requires TablePlaced(image, objects)
    requires Stored(image, tableId, t) && WellShaped(t)
    requires RootOf(objects, objectId) == Some(t.block)
    ensures Listing(image, objectId) == Success(Contents(Meaning(t)))
  {
    hide TablePlaced, Stored, WellShaped, Contents, ObjectTable, Lookup, WalkResult;
    PlacedTableLooksUp(image, objects, objectId);
    StoredTreeIsListed(image, tableId, t);
  }

  // ---- Paths on a stored file system --------------------------------------------------------------------

  /** All items of a tree's leaves, left to right. */
  function ItemsOf(t: DirTree): seq<Item>
    decreases t, 1
  {
    match t
    case LeafPage(_, _, items) => items
    case BranchPage(_, _, _, kids) => ItemsOfAll(kids)
  }

  function ItemsOfAll(ts: seq<DirTree>): seq<Item>
    decreases ts, 0
  {
    if ts == [] then [] else ItemsOf(ts[0]) + ItemsOfAll(ts[1..])
  }

  lemma {:induction false} EntriesForConcat(a: seq<Item>, b: seq<Item>)
    ensures EntriesFor(a + b) == EntriesFor(a) + EntriesFor(b)
  {
    hide EntryFor;
    if a == [] {
      assert a + b == b;
    } else {
      assert (a + b)[1..] == a[1..] + b;
      EntriesForConcat(a[1..], b);
    }
  }

  lemma {:induction false} ContentsAreItems(t: DirTree)
    ensures Contents(Meaning(t)) == EntriesFor(ItemsOf(t))
    decreases t, 1
  {
    hide EntriesFor;
    if t.BranchPage? { AllContentsAreItems(t.kids); }
  }

  lemma {:induction false} AllContentsAreItems(ts: seq<DirTree>)
    ensures ContentsAll(MeaningAll(ts)) == EntriesFor(ItemsOfAll(ts))
    decreases ts, 0
  {
    hide Contents;
    if ts != [] {
      ContentsAreItems(ts[0]);
      AllContentsAreItems(ts[1..]);
      EntriesForConcat(ItemsOf(ts[0]), ItemsOfAll(ts[1..]));
      assert MeaningAll(ts)[1..] == MeaningAll(ts[1..]);
    }
  }

  function FindItem(items: seq<Item>, name: Name): (r: Option<Item>)
    ensures r.Some? ==> !r.value.Skipped?
  {
    if items == [] then None
    else if !items[0].Skipped? && items[0].name == name then Some(items[0])
    else FindItem(items[1..], name)
  }

  lemma {:induction false} FoundItemIsFoundEntry(items: seq<Item>, name: Name)
    ensures Paths.FirstNamed(EntriesFor(items), name) ==
      match FindItem(items, name) case Some(item) => Some(EntryFor(item)) case None => None
  {
    hide MetadataFor;
    if items != [] {
      FoundItemIsFoundEntry(items[1..], name);
      if !items[0].Skipped? {
        assert EntriesFor(items)[1..] == EntriesFor(items[1..]);
      } else {
        assert EntriesFor(items) == EntriesFor(items[1..]);
      }
    }
  }

  /** A file system: the tree of each directory, by object id. */
  type FileSystem = map<U64, DirTree>

  /** Looking a path up in the file system itself: the directory that holds the last name, and
      the metadata of the item there; entries that are neither file nor directory have none. */
  function Locate(fs: FileSystem, dir: U64, components: seq<Name>): Option<(U64, FileMetadata)>
    decreases |components|
  {
    if components == [] || dir !in fs then None else
    var item :- FindItem(ItemsOf(fs[dir]), components[0]);
    if |components| > 1 then
      if item.Dir? then Locate(fs, item.objectId, components[1..]) else None
    else
      var md :- MetadataFor(item);
      Some((dir, md))
  }

  /** The image carries the file system: the table names the root of each directory and of no
      other, and each directory's tree is stored. */
  ghost predicate Carries(image: Buffer, objects: seq<(U64, U64)>, fs: FileSystem) {
    && TablePlaced(image, objects)
    && (forall id: U64 :: RootOf(objects, id) == if id in fs then Some(fs[id].block) else None)
    && forall id :: id in fs ==> Stored(image, id, fs[id]) && WellShaped(fs[id])
  }

  lemma StepsAgree(image: Buffer, objects: seq<(U64, U64)>, fs: FileSystem,
                   dir: U64, name: Name)
    requires Carries(image, objects, fs)
    ensures Paths.Step(Paths.ListerOf(image), dir, name) ==
      if dir !in fs then None else
      match FindItem(ItemsOf(fs[dir]), name) case Some(item) => Some(EntryFor(item)) case None => None
  {
    hide TablePlaced, Stored, WellShaped, Contents, Listing, EntriesFor, FindItem, ItemsOf;
    if dir in fs {
      ListDirReturnsWhatWasWritten(image, objects, dir, dir, fs[dir]);
      ContentsAreItems(fs[dir]);
      FoundItemIsFoundEntry(ItemsOf(fs[dir]), name);
    } else {
      MissingIdIsReported(image, objects, dir);
    }
  }

  lemma MissingIdIsReported(image: Buffer, objects: seq<(U64, U64)>, objectId: U64)
    requires TablePlaced(image, objects) && RootOf(objects, objectId).None?
    ensures Listing(image, objectId) == Failure(ObjectIdNotFound(objectId))
  {
    hide TablePlaced, ObjectTable, Lookup;
    PlacedTableLooksUp(image, objects, objectId);
  }

  /** Path lookup over the image of a file system is path lookup in the file system: the same
      containing directory and metadata, or nothing for both. */
  lemma {:induction false} PathsFindWhatWasWritten(image: Buffer, objects: seq<(U64, U64)>, fs: FileSystem,
                                                   dir: U64, components: seq<Name>)
    requires Carries(image, objects, fs)
    ensures Paths.Follow(Paths.ListerOf(image), dir, components) == Locate(fs, dir, components)
    decreases |components|
  {
    hide Carries, Paths.Step, FindItem, ItemsOf, MetadataFor;
    if components != [] {
      StepsAgree(image, objects, fs, dir, components[0]);
      if dir in fs {
        var item := FindItem(ItemsOf(fs[dir]), components[0]);
        if item.Some? && item.value.Dir? && |components| > 1 {
          PathsFindWhatWasWritten(image, objects, fs, item.value.objectId, components[1..]);
        }
      }
    }
  }
}
