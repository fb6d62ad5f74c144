/** Directory entries, the walk over image bytes and listing by object id
    (core/src/directory.rs). */
module Directory {
  import opened Wrappers
  import opened Bytes
  import opened Layout
  import opened Utf16
  import opened Minstore
  import opened Container
  import opened Resolution
  import Descent
  import DescentTheorems

  const RECORD_TYPE_ENTRY: U16 := 0x0030
  const ENTRY_TYPE_FILE: U16 := 1
  const ENTRY_TYPE_DIRECTORY: U16 := 2
  const OBJECT_TABLE_CLUSTER: nat := 56

  datatype FileMetadata = FileMetadata(
    size: U64, allocatedSize: U64, created: U64, modified: U64, changed: U64, accessed: U64,
    attributes: U32, isDirectory: bool)

  datatype DirEntry = DirEntry(name: Name, isDirectory: bool, objectId: Option<U64>, metadata: Option<FileMetadata>)

  function ParseMetadata(value: seq<Byte>, isDirectory: bool): FileMetadata {
    if isDirectory then
      FileMetadata(0, 0, U64At(value, 16), U64At(value, 24), U64At(value, 32), U64At(value, 40), U32At(value, 64), true)
    else
      FileMetadata(U64At(value, 64), U64At(value, 72), U64At(value, 0), U64At(value, 8), U64At(value, 16),
                   U64At(value, 24), U32At(value, 32), false)
  }

  predicate IsEntry(row: Row) {
    U16At(row.key, 0) == RECORD_TYPE_ENTRY
  }

  function EntryOf(row: Row): DirEntry {
    var entryType := U16At(row.key, 2);
    var name := Decode(if |row.key| >= 4 then row.key[4..] else []);
    if entryType == ENTRY_TYPE_DIRECTORY then
      DirEntry(name, true, Some(U64At(row.value, 0)), Some(ParseMetadata(row.value, true)))
    else if entryType == ENTRY_TYPE_FILE then
      DirEntry(name, false, None, Some(ParseMetadata(row.value, false)))
    else
      DirEntry(name, false, None, None)
  }

  /** The entries a leaf's rows hold; base and name records are passed over. */
  function Entries(rows: seq<Row>): seq<DirEntry> {
    if rows == [] then []
    else (if IsEntry(rows[0]) then [EntryOf(rows[0])] else []) + Entries(rows[1..])
  }

  /** The child blocks a branch's rows name; a value too short for a block number is skipped. */
  function ChildBlocks(rows: seq<Row>): seq<U64> {
    if rows == [] then []
    else (if |rows[0].value| >= 8 then [U64At(rows[0].value[0..8], 0)] else []) + ChildBlocks(rows[1..])
  }

  lemma NoChildBlocks(rows: seq<Row>)
    ensures ChildBlocks(rows[|rows|..]) == []
  {
  }

  lemma ChildBlocksStep(rows: seq<Row>, i: nat)
    requires i < |rows|
    ensures |rows[i].value| < 8 ==> ChildBlocks(rows[i..]) == ChildBlocks(rows[i + 1..])
    ensures |rows[i].value| >= 8 ==>
      && ChildBlocks(rows[i..]) != []
      && ChildBlocks(rows[i..])[0] == U64At(rows[i].value[0..8], 0)
      && ChildBlocks(rows[i..])[1..] == ChildBlocks(rows[i + 1..])
  {
    hide U64At;
    assert rows[i..][0] == rows[i] && rows[i..][1..] == rows[i + 1..];
  }

  function ParseDirectory(page: Buffer): Result<seq<DirEntry>> {
    var node :- Parse(page);
    Success(Entries(node.Rows()))
  }

  /** What a parsed node is to the search. */
  function NodeFetch(node: Page): Descent.Fetch<DirEntry>
    requires node.Parsed()
  {
    if node.IsBranch() then Descent.Branch(ChildBlocks(node.Rows()))
    else Descent.Leaf(Entries(node.Rows()))
  }

  /** What the search sees at a block: resolve it, read its page, parse its node. */
  function FetchBlock(image: Buffer, resolver: Resolver, block: U64): Descent.Fetch<DirEntry>
    requires resolver.InRange()
  {
    match ReadPage(image, resolver, block)
    case Failure(e) => Descent.Unreadable(e)
    case Success(page) =>
      match Parse(page)
      case Failure(e) => Descent.Unreadable(e)
      case Success(node) => NodeFetch(node)
  }

  ghost function ImageGraph(image: Buffer, resolver: Resolver): (g: Descent.Graph<DirEntry>)
    requires resolver.InRange()
    ensures forall b: U64 :: g(b) == FetchBlock(image, resolver, b)
  {
    (block: U64) => FetchBlock(image, resolver, block)
  }

  // ---- The walk ----------------------------------------------------------------------

  /** The visited list and the listing a descent grows in place. The ghost fields log the
      blocks its caps turn away and its calls. */
  class DirectoryWalk {
    var visited: seq<U64>
    var out: seq<DirEntry>
    ghost var cuts: seq<Descent.Cut>
    ghost var calls: nat

    constructor ()
      ensures State(None) == Descent.Start()
    {
      visited, out, cuts, calls := [], [], [], 0;
    }

    ghost function State(error: Option<RefsError>): Descent.Walk<DirEntry>
      reads this
    {
      Descent.Walk(visited, out, error, cuts, calls)
    }

    method CollectEntries(rows: seq<Row>)
      modifies `out
      ensures out == old(out) + Entries(rows)
    {
      hide EntryOf, Decode;
      for i := 0 to |rows|
        invariant out + Entries(rows[i..]) == old(out) + Entries(rows)
      {
        assert rows[i..][0] == rows[i] && rows[i..][1..] == rows[i + 1..];
        if U16At(rows[i].key, 0) != RECORD_TYPE_ENTRY {
          continue;
        }
        out := out + [EntryOf(rows[i])];
      }
    }

    /** One call of the descent; its effect on the lists and its error are the search's. */
    method Descend(image: Buffer, resolver: Resolver, block: U64, depth: nat) returns (error: Option<RefsError>)
      requires resolver.InRange()
      modifies this
      ensures State(error) == Descent.Descend(ImageGraph(image, resolver), block, depth, old(State(None)))
      decreases Descent.DepthLeft(depth)
    {
      hide ReadPage, Parse, Page.Rows, Entries, ChildBlocks, U64At;
      ghost var g := ImageGraph(image, resolver);
      calls := calls + 1;
      if depth >= Descent.MAX_DESCENT_DEPTH || |visited| >= Descent.MAX_VISITED_PAGES {
        if block !in visited { cuts := cuts + [Descent.Cut(block, depth, |visited|)]; }
        return None;
      }
      if block in visited {
        return None;
      }
      visited := visited + [block];

      var page := ReadPage(image, resolver, block);
      if page.Failure? {
        return Some(page.error);
      }
      var node := Parse(page.value);
      if node.Failure? {
        return Some(node.error);
      }
      var rows := node.value.Rows();
      if node.value.IsBranch() {
        ghost var pushed := State(None);
        assert rows[0..] == rows;
        NoChildBlocks(rows);
        for i := 0 to |rows|
          invariant Descent.DescendAll(g, ChildBlocks(rows[i..]), depth + 1, State(None))
                 == Descent.DescendAll(g, ChildBlocks(rows), depth + 1, pushed)
        {
          ChildBlocksStep(rows, i);
          if |rows[i].value| < 8 {
            continue;
          }
          var child := U64At(rows[i].value[0..8], 0);
          error := Descend(image, resolver, child, depth + 1);
          if error.Some? {
            return;
          }
        }
      } else {
        CollectEntries(rows);
      }
      return None;
    }
  }

  /** The walk of the tree rooted at `rootBlock`, with the resolver scanned from the image. */
  ghost function WalkOf(image: Buffer, rootBlock: U64): Descent.Walk<DirEntry> {
    ScannedInRange(image, DEFAULT_BAND_CLUSTERS);
    DescentTheorems.Walked(ImageGraph(image, ScannedResolver(image, DEFAULT_BAND_CLUSTERS)), rootBlock)
  }

  ghost function WalkResult(image: Buffer, rootBlock: U64): Result<seq<DirEntry>> {
    var w := WalkOf(image, rootBlock);
    if w.error.Some? then Failure(w.error.value) else Success(w.out)
  }

  method WalkDirectory(image: Buffer, rootBlock: U64) returns (r: Result<seq<DirEntry>>)
    ensures r == WalkResult(image, rootBlock)
  {
    var resolver := FromResidentImage(image, DEFAULT_BAND_CLUSTERS);
    ScannedInRange(image, DEFAULT_BAND_CLUSTERS);
    var walk := new DirectoryWalk();
    var error := walk.Descend(image, resolver, rootBlock, 0);
    return if error.Some? then Failure(error.value) else Success(walk.out);
  }

  /** The object table is parsed from everything after its cluster, not from one page. */
  function ObjectTable(image: Buffer): Result<seq<Row>> {
    var off := OBJECT_TABLE_CLUSTER * CLUSTER_SIZE;
    if off > |image| then Failure(Truncated(ObjectTablePage)) else
    var node :- Parse(image[off..]);
    Success(node.Rows())
  }

  ghost function Listing(image: Buffer, objectId: U64): Result<seq<DirEntry>> {
    var table :- ObjectTable(image);
    match Lookup(table, objectId)
    case None => Failure(ObjectIdNotFound(objectId))
    case Some(root) => WalkResult(image, root)
  }

  method ListDir(image: Buffer, objectId: U64) returns (r: Result<seq<DirEntry>>)
    ensures r == Listing(image, objectId)
  {
    var table := ObjectTable(image);
    if table.Failure? {
      return Failure(table.error);
    }
    var root := Lookup(table.value, objectId);
    if root.None? {
      return Failure(ObjectIdNotFound(objectId));
    }
    r := WalkDirectory(image, root.value);
  }
}
