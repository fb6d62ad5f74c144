/** The object table is read from everything after its cluster (core/src/directory.rs:252-267). When
    that is what its page alone holds, and what it is when it is not. */
module TablePage {
  import opened Wrappers
  import opened Bytes
  import opened Layout
  import opened Minstore
  import opened PageWriter
  import opened PageCodec
  import opened NodeLayout
  import opened Directory
  import opened EntryRows

  const TABLE_OFFSET: nat := OBJECT_TABLE_CLUSTER * CLUSTER_SIZE

  /** The object table as documented: the rows of the one page at its cluster. */
  function TableOfPage(image: Buffer): Result<seq<Row>> {
    match BlockAt(image, TABLE_OFFSET)
    case None => Failure(Truncated(ObjectTablePage))
    case Some(page) =>
      var node :- Parse(page);
      Success(node.Rows())
  }

  /** The node header that the header offset field names lies inside the buffer. */
  predicate HeaderFits(d: Buffer)
    requires |d| >= PAGE_SIZE
  {
    NODE_HEADER_OFFSET_FIELD + U32At(d, NODE_HEADER_OFFSET_FIELD) + NODE_HEADER_LEN <= |d|
  }

  /** Nothing past the table's page bears on it: the image ends before it, or holds the whole page
      and no node header or record that fits the image alone. */
  ghost predicate PageSuffices(image: Buffer) {
    if TABLE_OFFSET + PAGE_SIZE > |image| then TABLE_OFFSET > |image| else
    var page, tail := image[TABLE_OFFSET..TABLE_OFFSET + PAGE_SIZE], image[TABLE_OFFSET..];
    if HeaderFits(page) then
      HeaderFits(tail) && NoRecordBeyond(Parse(page).value, Parse(tail).value, 0)
    else !HeaderFits(tail)
  }

  /** On any image, the table read is that of its page, or the same error, if and only if the page
      suffices. */
  lemma TableIsItsPageIff(image: Buffer)
    ensures ObjectTable(image) == TableOfPage(image) <==> PageSuffices(image)
  {
    hide Parse, Page.Rows, NoRecordBeyond, U32At;
    if TABLE_OFFSET + PAGE_SIZE <= |image| {
      var page, tail := image[TABLE_OFFSET..TABLE_OFFSET + PAGE_SIZE], image[TABLE_OFFSET..];
      assert tail[..PAGE_SIZE] == page;
      ParsesIff(page);
      ParsesIff(tail);
      if HeaderFits(page) { ExtensionAddsNothingIff(page, tail); }
    } else if TABLE_OFFSET <= |image| {
      NoTableError(image[TABLE_OFFSET..]);
    }
  }

  lemma ParsesIff(d: Buffer)
    requires |d| >= PAGE_SIZE
    ensures Parse(d) == Failure(Truncated(NodeHeader)) <==> !HeaderFits(d)
    ensures Parse(d).Success? <==> HeaderFits(d)
  {
  }

  lemma NoTableError(d: Buffer)
    ensures Parse(d) != Failure(Truncated(ObjectTablePage))
  {
  }

  /** Where the page alone holds a laid node, in any layout, it suffices, whatever follows it. */
  lemma LaidTableSuffices(image: Buffer, l: Plan, rows: seq<Row>)
    requires TABLE_OFFSET + PAGE_SIZE <= |image|
    requires NodeLaid(image[TABLE_OFFSET..TABLE_OFFSET + PAGE_SIZE], l, rows)
    ensures PageSuffices(image) && TableOfPage(image) == Success(rows)
  {
    hide Parse, Page.Rows, PageSuffices, NodeLaid;
    var page, tail := image[TABLE_OFFSET..TABLE_OFFSET + PAGE_SIZE], image[TABLE_OFFSET..];
    assert tail[..PAGE_SIZE] == page;
    LaidLonger(page, tail, l, rows);
    LaidNodeParses(page, l, rows);
    LaidNodeParses(tail, l, rows);
    TableIsItsPageIff(image);
  }

  lemma {:induction false} NoObjectRow(rows: seq<Row>, objectId: U64)
    requires forall i :: 0 <= i < |rows| ==> !IsObjectRow(rows[i], objectId)
    ensures Lookup(rows, objectId).None?
  {
    hide IsObjectRow, RowAnswer;
    if rows != [] {
      RowAnswerExactly(rows[0], objectId, 0);
      NoObjectRow(rows[1..], objectId);
    }
  }

  /** How list_dir fails before any page is walked: the image ends before the table, or inside its
      header field, or its node header does not fit, or no row is a record of the object. */
  lemma ListingFailsEarly(image: Buffer, objectId: U64)
    ensures |image| < 56 * 4096 ==> Listing(image, objectId) == Failure(Truncated(ObjectTablePage))
    ensures 56 * 4096 <= |image| < 56 * 4096 + 84 ==>
      Listing(image, objectId) == Failure(Truncated(NodeHeaderOffsetField))
    ensures |image| >= 56 * 4096 + 84 && 0x50 + U32At(image[56 * 4096..], 0x50) + 32 > |image| - 56 * 4096 ==>
      Listing(image, objectId) == Failure(Truncated(NodeHeader))
    ensures |image| >= 56 * 4096 && Parse(image[56 * 4096..]).Success?
            && (forall i :: 0 <= i < |Parse(image[56 * 4096..]).value.Rows()| ==>
                  !IsObjectRow(Parse(image[56 * 4096..]).value.Rows()[i], objectId)) ==>
      Listing(image, objectId) == Failure(ObjectIdNotFound(objectId))
  {
    hide Page.Rows, IsObjectRow, U32At, Lookup, WalkResult, IsNodeOf;
    if |image| >= 56 * 4096 {
      var node := Parse(image[56 * 4096..]);
      if node.Success? && forall i :: 0 <= i < |node.value.Rows()| ==> !IsObjectRow(node.value.Rows()[i], objectId) {
        NoObjectRow(node.value.Rows(), objectId);
      }
    }
  }

  // ---- A record past the page --------------------------------------------------------------------

  /** A built page whose first offset word points at the page's end. */
  function SpilledPage(rows: seq<Record>): (page: Buffer)
    requires Fits(rows)
    ensures |page| == PAGE_SIZE
  {
    Overwrite(BuiltPage(OBJECT_TABLE_CLUSTER, 2, 0, false, rows), OFFSET_ARRAY,
              Bytes4(OffsetWord(PAGE_SIZE - NODE_HEADER)))
  }

  /** Everything but its first record is where the parser looks for it. */
  lemma SpilledStretches(rows: seq<Record>)
    requires Fits(rows) && rows != []
    ensures var page := SpilledPage(rows);
      && Holds(page, 0, PageHeader(OBJECT_TABLE_CLUSTER, 2))
      && Holds(page, NODE_HEADER, NodeHeaderBytes(0, false, rows))
      && Holds(page, RECORDS, RecordArea(rows))
      && OffsetsFrom(page, rows, 1)
      && Holds(page, OFFSET_ARRAY, Bytes4(OffsetWord(PAGE_SIZE - NODE_HEADER)))
  {
    hide PageHeader, NodeHeaderBytes, RecordArea, OffsetBytes, BuiltPage, Bytes4, OffsetWord, StartOf, Overwrite,
      AreaLen;
    var built, word := BuiltPage(OBJECT_TABLE_CLUSTER, 2, 0, false, rows), Bytes4(OffsetWord(PAGE_SIZE - NODE_HEADER));
    BuiltStretches(OBJECT_TABLE_CLUSTER, 2, 0, false, rows);
    OverwriteKeeps(built, OFFSET_ARRAY, word, 0, PageHeader(OBJECT_TABLE_CLUSTER, 2));
    OverwriteKeeps(built, OFFSET_ARRAY, word, NODE_HEADER, NodeHeaderBytes(0, false, rows));
    OverwriteKeeps(built, OFFSET_ARRAY, word, RECORDS, RecordArea(rows));
    AllOffsets(built, rows);
    forall j | 1 <= j < |rows|
      ensures Holds(SpilledPage(rows), OFFSET_ARRAY + 4 * j, Bytes4(OffsetWord(StartOf(rows, j))))
    {
      OverwriteKeeps(built, OFFSET_ARRAY, word, OFFSET_ARRAY + 4 * j, Bytes4(OffsetWord(StartOf(rows, j))));
    }
  }

  /** The page, with any bytes after it, parses to its rows but the first, which lies past it. */
  lemma SpilledParses(rows: seq<Record>, d: Buffer)
    requires Fits(rows) && rows != [] && SpilledPage(rows) <= d
    ensures Parse(d).Success?
    ensures var p := Parse(d).value;
      && p.recordCount == |rows| && p.RecordStart(0) == PAGE_SIZE
      && p.Rows() == Listed(p.RowAt(0)) + AsRows(rows)[1..]
  {
    hide PageHeader, NodeHeaderBytes, RecordArea, SpilledPage, U32At, AsRows, Bytes4, OffsetWord, StartOf, Page.RowAt,
      RowsLaid, WrittenPlan;
    var page := SpilledPage(rows);
    SpilledStretches(rows);
    HoldsExtends(page, d, 0, PageHeader(OBJECT_TABLE_CLUSTER, 2));
    HoldsExtends(page, d, NODE_HEADER, NodeHeaderBytes(0, false, rows));
    HoldsExtends(page, d, RECORDS, RecordArea(rows));
    HoldsExtends(page, d, OFFSET_ARRAY, Bytes4(OffsetWord(PAGE_SIZE - NODE_HEADER)));
    forall j | 1 <= j < |rows|
      ensures Holds(d, OFFSET_ARRAY + 4 * j, Bytes4(OffsetWord(StartOf(rows, j))))
    {
      HoldsExtends(page, d, OFFSET_ARRAY + 4 * j, Bytes4(OffsetWord(StartOf(rows, j))));
    }
    HeaderFields(d, OBJECT_TABLE_CLUSTER, 2);
    NodeFields(d, 0, false, rows);
    var p := Parse(d).value;
    assert p.recordCount == |rows|;
    var l := WrittenPlan(0, false, 0, rows);
    WrittenPlanIs(0, false, 0, rows);
    WrittenRowsLaid(d, l, rows, 1);
    LaidRowsRead(p, l, AsRows(rows), 1);
    ReadHeld4(d, OFFSET_ARRAY, OffsetWord(PAGE_SIZE - NODE_HEADER));
    OffsetWordMasks(PAGE_SIZE - NODE_HEADER);
  }

  lemma SpilledAlone(rows: seq<Record>)
    requires Fits(rows) && rows != []
    ensures Parse(SpilledPage(rows)).Success? && Parse(SpilledPage(rows)).value.Rows() == AsRows(rows[1..])
  {
    hide SpilledPage, Parse, Page.RecordStart, Page.Rows, ReadRecord;
    SpilledParses(rows, SpilledPage(rows));
    assert Parse(SpilledPage(rows)).value.RowAt(0).None?;
    assert AsRows(rows)[1..] == AsRows(rows[1..]);
  }

  lemma SpilledWith(rows: seq<Record>, past: Record, d: Buffer)
    requires Fits(rows) && rows != [] && RecordLen(past) <= PAGE_SIZE
    requires SpilledPage(rows) <= d && Holds(d, PAGE_SIZE, RecordBytes(past))
    ensures Parse(d).Success? && Parse(d).value.Rows() == AsRows([past] + rows[1..])
  {
    hide SpilledPage, Parse, Page.RecordStart, Page.Rows, ReadRecord, RecordBytes;
    SpilledParses(rows, d);
    ReadWrittenRecord(d, PAGE_SIZE, past);
    assert Parse(d).value.RowAt(0) == Some(AsRow(past));
    assert [AsRow(past)] + AsRows(rows)[1..] == AsRows([past] + rows[1..]);
  }

  function ObjectRecord(objectId: U64, root: U64): (r: Record)
    ensures RecordLen(r) == 112
  {
    Record(ObjectKey(objectId), ObjectValue(root))
  }

  /** An object table whose page names the directories of `objects` but the first, with the record of
      `objectId` lying past the page. */
  ghost predicate TableSpills(image: Buffer, objects: seq<(U64, U64)>, objectId: U64, past: U64) {
    && objects != [] && Fits(ObjectRecords(objects))
    && Holds(image, TABLE_OFFSET, SpilledPage(ObjectRecords(objects)) + RecordBytes(ObjectRecord(objectId, past)))
  }

  /** The object table can be answered from bytes past its page. Whatever its page says of an
      id, or does not, there are images on which list_dir follows the record after it instead. */
  lemma TableReadsPastItsPage(image: Buffer, objects: seq<(U64, U64)>, objectId: U64, past: U64)
    requires TableSpills(image, objects, objectId, past)
    ensures TableOfPage(image).Success? && Lookup(TableOfPage(image).value, objectId) == RootOf(objects[1..], objectId)
    ensures ObjectTable(image).Success? && Lookup(ObjectTable(image).value, objectId) == Some(past)
    ensures Listing(image, objectId) == WalkResult(image, past)
  {
    hide SpilledPage, Parse, Page.Rows, ObjectRecord, RecordBytes, WalkResult, Lookup, ObjectRecords, AsRows;
    var rows, r := ObjectRecords(objects), ObjectRecord(objectId, past);
    var page, tail := image[TABLE_OFFSET..TABLE_OFFSET + PAGE_SIZE], image[TABLE_OFFSET..];
    assert ObjectRecords(objects)[1..] == ObjectRecords(objects[1..]) && rows != [] by { FirstObject(objects); }
    HoldsConcat(image, TABLE_OFFSET, SpilledPage(rows), RecordBytes(r));
    SpilledAlone(rows);
    ObjectsReadBack(objects[1..], objectId);
    assert tail[..PAGE_SIZE] == page;
    SliceOfSlice(image, TABLE_OFFSET, |image|, PAGE_SIZE, PAGE_SIZE + |RecordBytes(r)|);
    SpilledWith(rows, r, tail);
    assert [r] + rows[1..] == ObjectRecords([(objectId, past)] + objects[1..]) by {
      OneMoreObject(objectId, past, objects[1..]);
    }
    ObjectsReadBack([(objectId, past)] + objects[1..], objectId);
  }

  lemma FirstObject(objects: seq<(U64, U64)>)
    requires objects != []
    ensures ObjectRecords(objects) == [ObjectRecord(objects[0].0, objects[0].1)] + ObjectRecords(objects[1..])
  {
  }

  lemma OneMoreObject(objectId: U64, root: U64, rest: seq<(U64, U64)>)
    ensures ObjectRecords([(objectId, root)] + rest) == [ObjectRecord(objectId, root)] + ObjectRecords(rest)
  {
    assert ([(objectId, root)] + rest)[1..] == rest;
  }

  /** Such images exist, and their pages do not suffice. */
  lemma SpilledImage(objects: seq<(U64, U64)>, objectId: U64, past: U64) returns (image: Buffer)
    requires objects != [] && Fits(ObjectRecords(objects))
    ensures TableSpills(image, objects, objectId, past)
    ensures RootOf(objects[1..], objectId) != Some(past) ==> !PageSuffices(image)
  {
    hide SpilledPage, ObjectRecords, RecordBytes, ObjectRecord, Zeros, PageSuffices, ObjectTable, TableOfPage, Lookup;
    var table := SpilledPage(ObjectRecords(objects)) + RecordBytes(ObjectRecord(objectId, past));
    image := Zeros(TABLE_OFFSET) + table;
    assert image[TABLE_OFFSET..TABLE_OFFSET + |table|] == table;
    TableReadsPastItsPage(image, objects, objectId, past);
    TableIsItsPageIff(image);
  }
}
