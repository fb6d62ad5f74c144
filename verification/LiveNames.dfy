/** What the carver's report says about a live directory: when a recovered name is one that the
    walk still lists (forensic/src/lib.rs:519-601 against core/src/directory.rs:466-472). */
module LiveNames {
  import opened Wrappers
  import opened Bytes
  import opened Layout
  import opened Utf16
  import opened Minstore
  import opened PageWriter
  import opened PageCodec
  import opened NodeLayout
  import opened Resolution
  import opened Descent
  import opened DescentTheorems
  import opened TreeWalk
  import opened Directory
  import opened DirectoryTheorems
  import opened EntryRows
  import opened Volume
  import opened Images
  import opened Carver

  /** Some record of the carver's report holds the name. */
  ghost predicate Recovered(image: Buffer, name: Name) {
    exists r :: r in Residue(ResidentPages(image)) && name in r.entries
  }

  /** The walk from `root` succeeds and lists an entry of that name. */
  ghost predicate Live(image: Buffer, root: U64, name: Name) {
    WalkResult(image, root).Success? && name in NamesOf(WalkResult(image, root).value)
  }

  /** A root page older than the one at cluster `c` holds the name. */
  ghost predicate OlderHolds(image: Buffer, c: nat, name: Name)
    requires IsResident(image, c)
  {
    exists d: nat :: IsResident(image, d) && PageOf(image, d).IsRoot()
      && PageOf(image, d).selfBlock < PageOf(image, c).selfBlock && name in PageOf(image, d).names
  }

  /** A name is recovered if and only if an older root page holds it and the current one does not. */
  lemma RecoveredExactly(image: Buffer, c: nat, name: Name)
    requires IsCurrentCluster(image, c)
    ensures Recovered(image, name) <==> name !in PageOf(image, c).names && OlderHolds(image, c, name)
  {
    hide PageOf, Residue, ResidentPages, Version.IsRoot, Without;
    RecoveryAgainst(image, c);
    var cur := PageOf(image, c);
    if r :| r in Residue(ResidentPages(image)) && name in r.entries {
      var d: nat :| IsResident(image, d) && IsStale(PageOf(image, d), cur) && r == RecordOf(PageOf(image, d), cur);
      InWithout(PageOf(image, d).names, cur.names, name);
    }
    if d: nat :| name !in cur.names && IsResident(image, d) && PageOf(image, d).IsRoot()
                 && PageOf(image, d).selfBlock < cur.selfBlock && name in PageOf(image, d).names {
      InWithout(PageOf(image, d).names, cur.names, name);
      assert IsStale(PageOf(image, d), cur);
      assert name in RecordOf(PageOf(image, d), cur).entries;
    }
  }

  lemma {:induction false} InWithout(a: seq<Name>, b: seq<Name>, name: Name)
    ensures name in Without(a, b) <==> name in a && name !in b
  {
    if a != [] { InWithout(a[1..], b, name); }
  }

  // ---- Any image -------------------------------------------------------------------------------

  /** The block resolves to a page of the given table. */
  ghost predicate TableAt(image: Buffer, b: U64, tableId: U64) {
    exists c: nat :: ResolveBlockOffset(image, DefaultResolver(image), b) == Some(c * CLUSTER_SIZE)
      && IsResident(image, c) && PageOf(image, c).tableId == tableId
  }

  /** The leaves that the walk visits are pages of the root directory. */
  ghost predicate LeavesAreRootPages(image: Buffer, root: U64) {
    forall b :: b in WalkOf(image, root).visited && GraphOf(image)(b).Leaf? ==>
      TableAt(image, b, REFS_ROOT_DIRECTORY_ID)
  }

  /** The page at cluster `c` alone has the greatest self block of the root pages. */
  ghost predicate IsOnlyCurrent(image: Buffer, c: nat) {
    && IsResident(image, c) && PageOf(image, c).IsRoot()
    && forall d: nat :: IsResident(image, d) && PageOf(image, d).IsRoot() && d != c ==>
      PageOf(image, d).selfBlock < PageOf(image, c).selfBlock
  }

  /** On a band-consistent image no two pages tie. */
  lemma ConsistentIsOnly(image: Buffer, c: nat)
    requires BandConsistent(image, DEFAULT_BAND_CLUSTERS) && IsCurrentCluster(image, c)
    ensures IsOnlyCurrent(image, c)
  {
    hide U64At, CarveDirectoryEntries, BandConsistent, ResolveBlockOffset, SelfBlock;
    forall d: nat | IsResident(image, d) && PageOf(image, d).IsRoot() && d != c
      ensures PageOf(image, d).selfBlock < PageOf(image, c).selfBlock
    {
      SelfBlockOnPage(image, c);
      SelfBlockOnPage(image, d);
      ConsistentResolves(image, DEFAULT_BAND_CLUSTERS, c);
      ConsistentResolves(image, DEFAULT_BAND_CLUSTERS, d);
    }
  }

  /** The carver reads off a leaf's page the names the walk lists from it. */
  lemma LeafNames(image: Buffer, b: U64, c: nat)
    requires GraphOf(image)(b).Leaf?
    requires ResolveBlockOffset(image, DefaultResolver(image), b) == Some(c * CLUSTER_SIZE) && IsResident(image, c)
    ensures PageOf(image, c).names == NamesOf(GraphOf(image)(b).entries) && PageOf(image, c).selfBlock == b
  {
    hide ResolveBlockOffset, Parse, Page.Rows, Entries, NamesOf, U64At;
    ResolvedIsCertified(image, DefaultResolver(image), b);
    SelfBlockOnPage(image, c);
  }

  lemma {:induction false} NamesOfConcat(a: seq<DirEntry>, b: seq<DirEntry>)
    ensures NamesOf(a + b) == NamesOf(a) + NamesOf(b)
  {
    if a == [] {
      assert a + b == b;
    } else {
      assert (a + b)[1..] == a[1..] + b;
      NamesOfConcat(a[1..], b);
    }
  }

  /** A listed name comes from a visited leaf. */
  lemma {:induction false} LeafOfName(g: Graph<DirEntry>, blocks: seq<U64>, name: Name) returns (b: U64)
    requires name in NamesOf(Harvest(g, blocks))
    ensures b in blocks && g(b).Leaf? && name in NamesOf(g(b).entries)
  {
    var n := |blocks| - 1;
    b := blocks[n];
    NamesOfConcat(Harvest(g, blocks[..n]), EntriesOf(g(b)));
    if !(g(b).Leaf? && name in NamesOf(g(b).entries)) {
      b := LeafOfName(g, blocks[..n], name);
    }
  }

  /** Where a live name is recovered, on any image whose root directory has one newest page: a
      name the walk lists is also reported as dropped if and only if that page does not hold it.
      The other pages of the live tree are taken for older versions. */
  lemma LiveNameIsRecoveredIff(image: Buffer, root: U64, c: nat, name: Name)
    requires IsOnlyCurrent(image, c) && LeavesAreRootPages(image, root) && Live(image, root, name)
    ensures Recovered(image, name) <==> name !in PageOf(image, c).names
  {
    hide PageOf, NamesOf, GraphOf, Walked, IsResident, ResolveBlockOffset, Harvest, Version.IsRoot, Recovered;
    assert IsCurrentCluster(image, c);
    RecoveredExactly(image, c, name);
    var g, w := GraphOf(image), WalkOf(image, root);
    GraphIsScanned(image, root);
    WalkedSound(g, root);
    var b := LeafOfName(g, w.visited, name);
    assert TableAt(image, b, REFS_ROOT_DIRECTORY_ID);
    PageOfLiveLeaf(image, b, name);
  }

  lemma PageOfLiveLeaf(image: Buffer, b: U64, name: Name)
    requires GraphOf(image)(b).Leaf? && name in NamesOf(GraphOf(image)(b).entries)
    requires TableAt(image, b, REFS_ROOT_DIRECTORY_ID)
    ensures exists d: nat :: IsResident(image, d) && PageOf(image, d).IsRoot() && name in PageOf(image, d).names
  {
    hide PageOf, NamesOf, GraphOf, IsResident, ResolveBlockOffset;
    var d: nat :| ResolveBlockOffset(image, DefaultResolver(image), b) == Some(d * CLUSTER_SIZE)
      && IsResident(image, d) && PageOf(image, d).tableId == REFS_ROOT_DIRECTORY_ID;
    LeafNames(image, b, d);
  }

  /** So the report is free of live names if and only if the newest page holds every live name. */
  lemma NoLiveNameIsRecoveredIff(image: Buffer, root: U64, c: nat)
    requires IsOnlyCurrent(image, c) && LeavesAreRootPages(image, root)
    ensures (forall name :: Live(image, root, name) ==> !Recovered(image, name))
       <==> (forall name :: Live(image, root, name) ==> name in PageOf(image, c).names)
  {
    hide Live, Recovered, PageOf, LeavesAreRootPages;
    forall name | Live(image, root, name)
      ensures Recovered(image, name) <==> name !in PageOf(image, c).names
    {
      LiveNameIsRecoveredIff(image, root, c, name);
    }
  }

  // ---- Stored directories ------------------------------------------------------------------------

  /** The carver reads the names off any page that holds a laid node, leaf or branch. */
  lemma LaidPageIsCarved(page: Buffer, l: Plan, rows: seq<Row>)
    requires NodeLaid(page, l, rows)
    ensures CarveDirectoryEntries(page) == NamesOf(Entries(rows))
  {
    hide NodeLaid, Parse, Page.Rows, Entries, NamesOf;
    LaidNodeParses(page, l, rows);
  }

  /** The carver reads a stored leaf's version off its page, in any layout and under any flags: where
      it is, its table, its block and its items' names. */
  lemma StoredVersion(image: Buffer, tableId: U64, t: DirTree, c: nat)
    requires t.LeafPage? && PageAt(image, tableId, t, c)
    ensures IsResident(image, c)
    ensures PageOf(image, c) == Version(c * CLUSTER_SIZE, tableId, t.block, NamesOf(EntriesFor(t.items)))
  {
    hide U64At, ItemRecords, Entries, Parse, Page.Rows, AsRows, NamesOf, EntriesFor, IsNodePage, SelfBlock, NodeFetch;
    PlacedIsResident(image, tableId, t, c);
    SelfBlockOnPage(image, c);
    TableOnPage(image, c);
    NodePageParses(image[c * CLUSTER_SIZE..c * CLUSTER_SIZE + PAGE_SIZE], tableId, t);
    ItemsReadBack(t.items);
  }

  /** A root page of the image holds the name of each item of a stored root directory. */
  lemma {:induction false} ItemsOnRootPages(image: Buffer, t: DirTree, name: Name) returns (d: nat)
    requires Stored(image, REFS_ROOT_DIRECTORY_ID, t) && name in NamesOf(EntriesFor(ItemsOf(t)))
    ensures IsResident(image, d) && PageOf(image, d).IsRoot() && name in PageOf(image, d).names
    decreases t, 1
  {
    hide ResolveBlockOffset, PageAt, NamesOf, EntriesFor, PageOf, IsResident, ItemRecords, ReferenceRecords;
    match t
    case LeafPage(block, _, _) =>
      d :| PageAt(image, REFS_ROOT_DIRECTORY_ID, t, d)
        && ResolveBlockOffset(image, DefaultResolver(image), block) == Some(d * CLUSTER_SIZE);
      StoredVersion(image, REFS_ROOT_DIRECTORY_ID, t, d);
    case BranchPage(_, _, _, kids) =>
      d := AllItemsOnRootPages(image, kids, name);
  }

  lemma {:induction false} AllItemsOnRootPages(image: Buffer, ts: seq<DirTree>, name: Name) returns (d: nat)
    requires StoredAll(image, REFS_ROOT_DIRECTORY_ID, ts) && name in NamesOf(EntriesFor(ItemsOfAll(ts)))
    ensures IsResident(image, d) && PageOf(image, d).IsRoot() && name in PageOf(image, d).names
    decreases ts, 0
  {
    hide Stored, EntriesFor, PageOf, IsResident, ItemsOf;
    if ts == [] {
      assert EntriesFor([]) == [] by { NoItems(); }
      assert false;
    } else {
      EntriesForConcat(ItemsOf(ts[0]), ItemsOfAll(ts[1..]));
      NamesOfConcat(EntriesFor(ItemsOf(ts[0])), EntriesFor(ItemsOfAll(ts[1..])));
      if name in NamesOf(EntriesFor(ItemsOf(ts[0]))) {
        d := ItemsOnRootPages(image, ts[0], name);
      } else {
        d := AllItemsOnRootPages(image, ts[1..], name);
      }
    }
  }

  lemma NoItems()
    ensures EntriesFor([]) == []
  {
  }

  lemma StoredTable(image: Buffer, tableId: U64, t: DirTree)
    requires Paired(t) && PageFound(image, tableId, t)
    ensures TableAt(image, t.block, tableId)
  {
    hide U64At, ResolveBlockOffset, CarveDirectoryEntries, IsNodePage, SelfBlock;
    var c: nat :| PageAt(image, tableId, t, c)
      && ResolveBlockOffset(image, DefaultResolver(image), t.block) == Some(c * CLUSTER_SIZE);
    PlacedIsResident(image, tableId, t, c);
    TableOnPage(image, c);
  }

  lemma {:induction false} StoredTables(image: Buffer, tableId: U64, t: DirTree)
    requires Stored(image, tableId, t)
    ensures forall b :: b in Preorder(Meaning(t)) ==> TableAt(image, b, tableId)
    decreases t, 1
  {
    hide TableAt, PageFound, NodeRecords;
    StoredTable(image, tableId, t);
    if t.BranchPage? { AllStoredTables(image, tableId, t.kids); }
  }

  lemma {:induction false} AllStoredTables(image: Buffer, tableId: U64, ts: seq<DirTree>)
    requires StoredAll(image, tableId, ts)
    ensures forall b :: b in PreorderAll(MeaningAll(ts)) ==> TableAt(image, b, tableId)
    decreases ts, 0
  {
    hide TableAt, Stored;
    if ts != [] {
      StoredTables(image, tableId, ts[0]);
      AllStoredTables(image, tableId, ts[1..]);
      assert MeaningAll(ts)[1..] == MeaningAll(ts[1..]);
    }
  }

  /** The walk of a stored root directory visits pages of that directory only. */
  lemma StoredLeavesAreRootPages(image: Buffer, t: DirTree)
    requires Stored(image, REFS_ROOT_DIRECTORY_ID, t) && NoDuplicates(Preorder(Meaning(t)))
    ensures LeavesAreRootPages(image, t.block)
  {
    hide Stored, TableAt, WalkOf, WalkResult, GraphOf, NoDuplicates, Preorder, Top, Levels, Contents;
    StoredTreeWalk(image, REFS_ROOT_DIRECTORY_ID, t);
    StoredTables(image, REFS_ROOT_DIRECTORY_ID, t);
    TopWithin(Meaning(t), MAX_DESCENT_DEPTH);
  }

  /** In a stored root directory of any height and size, a name of any item is recovered if and
      only if the newest root page, the leaf `newest`, has no item of that name. A live name of
      another leaf is reported as dropped. */
  lemma StoredNameIsRecoveredIff(image: Buffer, t: DirTree, newest: DirTree, c: nat, name: Name)
    requires Stored(image, REFS_ROOT_DIRECTORY_ID, t)
    requires newest.LeafPage? && PageAt(image, REFS_ROOT_DIRECTORY_ID, newest, c)
    requires IsOnlyCurrent(image, c)
    requires name in NamesOf(Contents(Meaning(t)))
    ensures Recovered(image, name) <==> name !in NamesOf(EntriesFor(newest.items))
  {
    hide Stored, PageAt, PageOf, Recovered, NamesOf, Contents, EntriesFor, ItemRecords, IsResident, Version.IsRoot,
      ItemsOf;
    StoredVersion(image, REFS_ROOT_DIRECTORY_ID, newest, c);
    assert IsCurrentCluster(image, c);
    RecoveredExactly(image, c, name);
    ContentsAreItems(t);
    var d := ItemsOnRootPages(image, t, name);
  }

  /** A root directory of one page that is the current one: no recovered name is in its listing. */
  lemma OnePageRecoversNoLiveName(image: Buffer, objects: seq<(U64, U64)>, t: DirTree, c: nat, name: Name)
    requires TablePlaced(image, objects) && RootOf(objects, REFS_ROOT_DIRECTORY_ID) == Some(t.block)
    requires t.LeafPage? && Stored(image, REFS_ROOT_DIRECTORY_ID, t)
    requires PageAt(image, REFS_ROOT_DIRECTORY_ID, t, c) && IsCurrentCluster(image, c)
    requires Recovered(image, name)
    ensures Listing(image, REFS_ROOT_DIRECTORY_ID) == Success(EntriesFor(t.items))
    ensures name !in NamesOf(EntriesFor(t.items))
  {
    hide TablePlaced, PageFound, PageAt, PageOf, IsCurrentCluster, Recovered, NamesOf, EntriesFor, Listing, ItemRecords,
      IsResident, RootOf;
    assert WellShaped(t);
    ListDirReturnsWhatWasWritten(image, objects, REFS_ROOT_DIRECTORY_ID, REFS_ROOT_DIRECTORY_ID, t);
    StoredVersion(image, REFS_ROOT_DIRECTORY_ID, t, c);
    RecoveredExactly(image, c, name);
  }

  /** A leaf page of the root directory older than the current page, whether superseded or not, is
      reported if and only if it holds a name the current page lacks, and then with those names. */
  lemma OlderLeafIsReported(image: Buffer, t: DirTree, d: nat, c: nat)
    requires t.LeafPage? && PageAt(image, REFS_ROOT_DIRECTORY_ID, t, d)
    requires IsCurrentCluster(image, c) && t.block < PageOf(image, c).selfBlock
    ensures var out := Residue(ResidentPages(image));
      var lacking := Without(NamesOf(EntriesFor(t.items)), PageOf(image, c).names);
      && ((exists r :: r in out && r.offset == d * CLUSTER_SIZE) <==> lacking != [])
      && (forall r :: r in out && r.offset == d * CLUSTER_SIZE ==>
            r == StalePage(t.block, REFS_ROOT_DIRECTORY_ID, d * CLUSTER_SIZE, lacking))
  {
    hide PageAt, ItemRecords, EntriesFor, IsResident, Residue, ResidentPages, NamesOf, Without;
    StoredVersion(image, REFS_ROOT_DIRECTORY_ID, t, d);
    RecoveryAgainst(image, c);
    var older, cur := PageOf(image, d), PageOf(image, c);
    forall r | r in Residue(ResidentPages(image)) && r.offset == d * CLUSTER_SIZE
      ensures r == RecordOf(older, cur) && IsStale(older, cur)
    {
      var e: nat :| IsResident(image, e) && IsStale(PageOf(image, e), cur) && r == RecordOf(PageOf(image, e), cur);
      assert PageOf(image, e).offset == e * CLUSTER_SIZE;
      assert e == d;
    }
    if IsStale(older, cur) { assert RecordOf(older, cur) in Residue(ResidentPages(image)); }
  }

  // ---- Built images ----------------------------------------------------------------------------------

  /** `newest` is a leaf of the root directory, and its block the greatest of that directory. */
  ghost predicate IsNewestLeaf(dirs: seq<(U64, DirTree)>, newest: DirTree) {
    && newest.LeafPage? && (REFS_ROOT_DIRECTORY_ID, newest) in FsNodes(dirs)
    && forall i :: 0 <= i < |FsNodes(dirs)| && FsNodes(dirs)[i].0 == REFS_ROOT_DIRECTORY_ID ==>
      FsNodes(dirs)[i].1.block <= newest.block
  }

  lemma NewestIsOnlyCurrent(dirs: seq<(U64, DirTree)>, n: nat, newest: DirTree)
    requires Buildable(dirs, n) && IsNewestLeaf(dirs, newest)
    ensures PageAt(FsImage(dirs, n), REFS_ROOT_DIRECTORY_ID, newest, newest.block)
    ensures IsOnlyCurrent(FsImage(dirs, n), newest.block)
  {
    hide Buildable, FsImage, FsNodes, PageAt, PageOf, SelfBlock, ItemRecords, U64At, NamesOf;
    var image := FsImage(dirs, n);
    NodeIsPlaced(dirs, n, REFS_ROOT_DIRECTORY_ID, newest);
    StoredVersion(image, REFS_ROOT_DIRECTORY_ID, newest, newest.block);
    forall d: nat | IsResident(image, d) && PageOf(image, d).IsRoot() && d != newest.block
      ensures PageOf(image, d).selfBlock < PageOf(image, newest.block).selfBlock
    {
      TableOnPage(image, d);
      TableVersion(dirs, n);
      SelfBlockOnPage(image, d);
      var i := ResidentNode(dirs, n, d);
    }
  }

  /** Every file system built as an image, with a root directory of any shape whose greatest block
      is a leaf: within the walk's caps the directory is listed in full, and the name of any of its
      items is recovered if and only if that leaf lacks it. */
  lemma BuiltNameIsRecoveredIff(dirs: seq<(U64, DirTree)>, n: nat, newest: DirTree, name: Name)
    requires Buildable(dirs, n) && IsNewestLeaf(dirs, newest) && REFS_ROOT_DIRECTORY_ID in FsOf(dirs)
    ensures var image, listed := FsImage(dirs, n), EntriesFor(ItemsOf(FsOf(dirs)[REFS_ROOT_DIRECTORY_ID]));
      && (WellShaped(FsOf(dirs)[REFS_ROOT_DIRECTORY_ID]) ==> Listing(image, REFS_ROOT_DIRECTORY_ID) == Success(listed))
      && (name in NamesOf(listed) ==> (Recovered(image, name) <==> name !in NamesOf(EntriesFor(newest.items))))
  {
    hide Buildable, FsImage, FsNodes, PageAt, IsOnlyCurrent, Recovered, NamesOf, EntriesFor, ItemsOf,
      FsOf, ObjectsOf, TablePlaced, Stored, WellShaped, Listing, Contents, ItemRecords, RootOf;
    var image, t := FsImage(dirs, n), FsOf(dirs)[REFS_ROOT_DIRECTORY_ID];
    ImageStoresTree(dirs, n, REFS_ROOT_DIRECTORY_ID);
    if WellShaped(t) {
      TableIsPlaced(dirs, n);
      TableNamesDirs(dirs, REFS_ROOT_DIRECTORY_ID);
      ListDirReturnsWhatWasWritten(image, ObjectsOf(dirs), REFS_ROOT_DIRECTORY_ID, REFS_ROOT_DIRECTORY_ID, t);
    }
    ContentsAreItems(t);
    NewestIsOnlyCurrent(dirs, n, newest);
    if name in NamesOf(Contents(Meaning(t))) {
      StoredNameIsRecoveredIff(image, t, newest, newest.block, name);
    }
  }

  /** A recovered name need not have been dropped. In a root directory of two leaves under a branch,
      a name that only the lower leaf holds is listed, and is reported as dropped as well. */
  lemma LiveNamesAreRecovered(root: U64, marks: Marks, refs: seq<Reference>, a: DirTree, b: DirTree, n: nat, name: Name)
    requires TwoLeavesFit(root, refs, a, b, n) && root < b.block && a.block < b.block
    requires name in NamesOf(EntriesFor(a.items)) && name !in NamesOf(EntriesFor(b.items))
    ensures var dirs := TwoLeaves(REFS_ROOT_DIRECTORY_ID, root, marks, refs, a, b);
      && Buildable(dirs, n)
      && Recovered(FsImage(dirs, n), name)
      && Listing(FsImage(dirs, n), REFS_ROOT_DIRECTORY_ID) == Success(EntriesFor(a.items) + EntriesFor(b.items))
      && name in NamesOf(EntriesFor(a.items) + EntriesFor(b.items))
  {
    hide Small, Buildable, FsImage, FsNodes, Recovered, NamesOf, EntriesFor, Stored, WellShaped, Listing, Contents,
      PageAt, IsOnlyCurrent;
    var dirs := TwoLeaves(REFS_ROOT_DIRECTORY_ID, root, marks, refs, a, b);
    TwoLeavesAreListed(REFS_ROOT_DIRECTORY_ID, root, marks, refs, a, b, n);
    TwoLeavesNodes(REFS_ROOT_DIRECTORY_ID, root, marks, refs, a, b);
    assert (REFS_ROOT_DIRECTORY_ID, b) == FsNodes(dirs)[2];
    assert IsNewestLeaf(dirs, b);
    NewestIsOnlyCurrent(dirs, n, b);
    TwoLeavesMeaning(root, marks, refs, a, b);
    NamesOfConcat(EntriesFor(a.items), EntriesFor(b.items));
    StoredNameIsRecoveredIff(FsImage(dirs, n), dirs[0].1, b, b.block, name);
  }
}
