/** The parser inverts the builder: parsing a built page, alone or followed by any
    bytes, gives back exactly its rows. */
module PageCodec {
  import opened Wrappers
  import opened Bytes
  import opened Layout
  import opened Minstore
  import opened PageWriter
  import opened NodeLayout

  lemma HoldsExtends(d: seq<Byte>, e: seq<Byte>, at: nat, b: seq<Byte>)
    requires Holds(d, at, b) && d <= e
    ensures Holds(e, at, b)
  {
    assert e[at..at + |b|] == d[at..at + |b|];
  }

  /** The four stretches of a built page are where the parser looks for them; records
      reach the offset array only when they do not fit. */
  lemma BuiltStretches(selfBlock: U64, tableId: U64, level: Byte, isBranch: bool, rows: seq<Record>)
    requires Fits(rows)
    ensures var page := BuiltPage(selfBlock, tableId, level, isBranch, rows);
      && Holds(page, 0, PageHeader(selfBlock, tableId))
      && Holds(page, NODE_HEADER, NodeHeaderBytes(level, isBranch, rows))
      && Holds(page, RECORDS, RecordArea(rows))
      && Holds(page, OFFSET_ARRAY, OffsetBytes(rows))
  {
    hide PageHeader, NodeHeaderBytes, RecordArea, OffsetBytes, AreaLen, Zeros, Overwrite;
    var h, n, a := PageHeader(selfBlock, tableId), NodeHeaderBytes(level, isBranch, rows), RecordArea(rows);
    var body := h + n + a + Zeros(PAGE_SIZE - RECORDS - |a|);
    var page := BuiltPage(selfBlock, tableId, level, isBranch, rows);
    assert page[..OFFSET_ARRAY] == body[..OFFSET_ARRAY];
    assert page[..RECORDS + |a|] == (h + n) + a by {
      assert page[..RECORDS + |a|] == page[..OFFSET_ARRAY][..RECORDS + |a|] == body[..RECORDS + |a|];
    }
    var front := page[..RECORDS + |a|];
    assert Holds(front, 0, h + n + a) && front <= page;
    HoldsConcat(front, 0, h + n, a);
    HoldsConcat(front, 0, h, n);
    HoldsExtends(front, page, 0, h);
    HoldsExtends(front, page, NODE_HEADER, n);
    HoldsExtends(front, page, RECORDS, a);
  }

  /** The signature, self block, table id and node-header offset of a block header. */
  lemma HeaderFields(d: seq<Byte>, selfBlock: U64, tableId: U64)
    requires Holds(d, 0, PageHeader(selfBlock, tableId))
    ensures d[..4] == MSB_SIGNATURE
    ensures U64At(d, 0x20) == selfBlock && U64At(d, 72) == tableId
    ensures U32At(d, NODE_HEADER_OFFSET_FIELD) == NODE_HEADER - NODE_HEADER_OFFSET_FIELD
  {
    hide Bytes4, Bytes8, Zeros, U64At, U32At;
    var b := PageHeader(selfBlock, tableId);
    HoldsPart(d, 0, b, 0, 4);
    HoldsPart(d, 0, b, 0x20, 0x28);
    assert b[0x20..0x28] == Bytes8(selfBlock);
    HoldsPart(d, 0, b, 72, 80);
    assert b[72..80] == Bytes8(tableId);
    HoldsPart(d, 0, b, 0x50, 0x54);
    assert b[0x50..0x54] == Bytes4(0xB0);
    ReadHeld8(d, 0x20, selfBlock);
    ReadHeld8(d, 72, tableId);
    ReadHeld4(d, 0x50, 0xB0);
  }

  lemma HeaderHeld(d: seq<Byte>, selfBlock: U64, tableId: U64)
    requires Holds(d, 0, PageHeader(selfBlock, tableId))
    ensures IsPageOf(d, selfBlock, tableId) && Holds(d, 0x50, Bytes4(NODE_HEADER - 0x50))
  {
    hide Bytes4, Bytes8, Zeros;
    var b := PageHeader(selfBlock, tableId);
    HoldsPart(d, 0, b, 0, 4);
    HoldsPart(d, 0, b, 0x20, 0x28);
    assert b[0x20..0x28] == Bytes8(selfBlock);
    HoldsPart(d, 0, b, 72, 80);
    assert b[72..80] == Bytes8(tableId);
    HoldsPart(d, 0, b, 0x50, 0x54);
    assert b[0x50..0x54] == Bytes4(0xB0);
  }

  lemma NodeFields(d: seq<Byte>, level: Byte, isBranch: bool, rows: seq<Record>)
    requires Writable(rows) && Holds(d, NODE_HEADER, NodeHeaderBytes(level, isBranch, rows))
    ensures d[NODE_HEADER + 12] == level && d[NODE_HEADER + 13] == if isBranch then 1 else 0
    ensures U32At(d, NODE_HEADER + 16) == OFFSET_ARRAY - NODE_HEADER
    ensures U32At(d, NODE_HEADER + 20) == |rows|
  {
    hide Bytes4, Zeros, U32At, AreaLen;
    var b := NodeHeaderBytes(level, isBranch, rows);
    HoldsPart(d, NODE_HEADER, b, 12, 14);
    assert b[12..14] == [level, if isBranch then 1 else 0];
    assert d[NODE_HEADER + 12] == d[NODE_HEADER + 12..NODE_HEADER + 14][0];
    assert d[NODE_HEADER + 13] == d[NODE_HEADER + 12..NODE_HEADER + 14][1];
    HoldsPart(d, NODE_HEADER, b, 16, 20);
    assert b[16..20] == Bytes4(OFFSET_ARRAY - NODE_HEADER);
    HoldsPart(d, NODE_HEADER, b, 20, 24);
    assert b[20..24] == Bytes4(|rows|);
    ReadHeld4(d, NODE_HEADER + 16, OFFSET_ARRAY - NODE_HEADER);
    ReadHeld4(d, NODE_HEADER + 20, |rows|);
  }

  lemma {:induction false} RecordWhere(d: seq<Byte>, rows: seq<Record>, i: nat)
    requires Writable(rows) && i < |rows|
    requires Holds(d, RECORDS, RecordArea(rows))
    ensures StartOf(rows, i) + RecordLen(rows[i]) <= NODE_HEADER_LEN + AreaLen(rows)
    ensures Holds(d, NODE_HEADER + StartOf(rows, i), RecordBytes(rows[i]))
  {
    hide RecordBytes;
    var n := |rows| - 1;
    AreaLenPrefix(rows, i);
    HoldsConcat(d, RECORDS, RecordArea(rows[..n]), RecordBytes(rows[n]));
    if i < n {
      RecordWhere(d, rows[..n], i);
      StartOfPrefix(rows, n, i);
    }
  }

  lemma {:induction false} OffsetWhere(d: seq<Byte>, rows: seq<Record>, i: nat)
    requires i < |rows|
    requires Holds(d, OFFSET_ARRAY, OffsetBytes(rows))
    ensures Holds(d, OFFSET_ARRAY + 4 * i, Bytes4(OffsetWord(StartOf(rows, i))))
  {
    hide Bytes4, OffsetWord, StartOf;
    var n := |rows| - 1;
    HoldsConcat(d, OFFSET_ARRAY, OffsetBytes(rows[..n]), Bytes4(OffsetWord(StartOf(rows, n))));
    if i < n {
      OffsetWhere(d, rows[..n], i);
      StartOfPrefix(rows, n, i);
    }
  }

  function WrittenPlace(rows: seq<Record>, i: nat): Place
    requires Fits(rows) && i < |rows|
    ensures WrittenPlace(rows, i).start == StartOf(rows, i)
  {
    AreaLenPrefix(rows, i);
    Place(StartOf(rows, i), 16, 16 + |rows[i].key|)
  }

  /** A written record is laid where it was written. */
  lemma WrittenRecordLaid(d: seq<Byte>, rec: nat, r: Record, place: Place)
    requires RecordLen(r) <= PAGE_SIZE && Holds(d, rec, RecordBytes(r))
    requires place.keyAt == 16 && place.valueAt == 16 + |r.key|
    ensures rec + 14 <= |d| && RecordLaid(d, rec, place, AsRow(r))
  {
    hide Bytes4, Bytes2, Zeros;
    var h := RecordHead(r);
    HoldsConcat(d, rec, h + r.key, r.value);
    HoldsConcat(d, rec, h, r.key);
    RecordHeadParts(h, r);
    HoldsPart(d, rec, h, 4, 6);
    HoldsPart(d, rec, h, 6, 8);
    HoldsPart(d, rec, h, 8, 10);
    HoldsPart(d, rec, h, 10, 12);
    HoldsPart(d, rec, h, 12, 14);
  }

  /** The record parser inverts the record writer. */
  lemma ReadWrittenRecord(d: Buffer, rec: nat, r: Record)
    requires RecordLen(r) <= PAGE_SIZE && Holds(d, rec, RecordBytes(r))
    ensures rec + 14 <= |d| && ReadRecord(d, rec) == Some(Row(r.key, r.value, 0))
  {
    hide RecordBytes, RecordLaid, ReadRecord;
    var place := Place(0, 16, 16 + |r.key|);
    WrittenRecordLaid(d, rec, r, place);
    LaidRecordReads(d, rec, place, AsRow(r));
  }

  lemma RecordHeadParts(h: seq<Byte>, r: Record)
    requires RecordLen(r) <= PAGE_SIZE && h == RecordHead(r)
    ensures h[4..6] == Bytes2(16) && h[6..8] == Bytes2(|r.key|) && h[8..10] == Bytes2(0)
    ensures h[10..12] == Bytes2(16 + |r.key|) && h[12..14] == Bytes2(|r.value|)
  {
    hide Bytes4, Bytes2, Zeros;
  }

  /** What the parser must return for a record: its key and value, flags zero. */
  function AsRow(r: Record): Row { Row(r.key, r.value, 0) }

  function AsRows(rows: seq<Record>): (out: seq<Row>)
    ensures |out| == |rows|
    ensures forall i :: 0 <= i < |rows| ==> out[i] == AsRow(rows[i])
  {
    seq(|rows|, i requires 0 <= i < |rows| => AsRow(rows[i]))
  }

  /** The 16-bit mask loses nothing of a start below 65536. */
  lemma OffsetWordMasks(start: nat)
    requires start < 0x1_0000
    ensures OffsetWord(start) % 0x1_0000 == start
  {
  }

  /** The offset words of the records from `i` on are in place. */
  ghost predicate OffsetsFrom(d: seq<Byte>, rows: seq<Record>, i: nat) {
    forall j :: i <= j < |rows| ==> Holds(d, OFFSET_ARRAY + 4 * j, Bytes4(OffsetWord(StartOf(rows, j))))
  }

  lemma AllOffsets(d: seq<Byte>, rows: seq<Record>)
    requires Holds(d, OFFSET_ARRAY, OffsetBytes(rows))
    ensures OffsetsFrom(d, rows, 0)
  {
    hide Bytes4, OffsetWord, StartOf, OffsetBytes;
    forall j | 0 <= j < |rows|
      ensures Holds(d, OFFSET_ARRAY + 4 * j, Bytes4(OffsetWord(StartOf(rows, j))))
    {
      OffsetWhere(d, rows, j);
    }
  }

  /** How the builder lays its rows out, under any flags. */
  function WrittenPlan(level: Byte, isBranch: bool, bits: Bits, rows: seq<Record>): (l: Plan)
    requires Fits(rows)
    ensures |l.places| == |rows| && forall i :: 0 <= i < |rows| ==> l.places[i] == WrittenPlace(rows, i)
  {
    Plan(NODE_HEADER, level, isBranch, bits, OFFSET_ARRAY,
         seq(|rows|, i requires 0 <= i < |rows| => WrittenPlace(rows, i)))
  }

  lemma WrittenRowsLaid(d: seq<Byte>, l: Plan, rows: seq<Record>, from: nat)
    requires Fits(rows) && l == WrittenPlan(l.level, l.isBranch, l.bits, rows)
    requires Holds(d, RECORDS, RecordArea(rows)) && OffsetsFrom(d, rows, from)
    ensures RowsLaid(d, l, AsRows(rows), from)
  {
    hide RecordArea, RecordBytes, StartOf, RecordLaid, Holds, Bytes2, OffsetWord, Bytes4, Fits;
    forall k | from <= k < |rows|
      ensures Holds(d, l.offsets + 4 * k, Bytes2(l.places[k].start))
      ensures RecordLaid(d, l.header + l.places[k].start, l.places[k], AsRow(rows[k]))
    {
      WrittenRowLaid(d, rows, k);
    }
  }

  lemma WrittenRowLaid(d: seq<Byte>, rows: seq<Record>, k: nat)
    requires Fits(rows) && k < |rows| && Holds(d, RECORDS, RecordArea(rows))
    requires Holds(d, OFFSET_ARRAY + 4 * k, Bytes4(OffsetWord(StartOf(rows, k))))
    ensures Holds(d, OFFSET_ARRAY + 4 * k, Bytes2(WrittenPlace(rows, k).start))
    ensures RecordLaid(d, NODE_HEADER + WrittenPlace(rows, k).start, WrittenPlace(rows, k), AsRow(rows[k]))
  {
    hide RecordArea, RecordBytes, StartOf, RecordLaid, Bytes4, Bytes2, AreaLen;
    RecordWhere(d, rows, k);
    WrittenRecordLaid(d, NODE_HEADER + StartOf(rows, k), rows[k], WrittenPlace(rows, k));
    LowBytes(StartOf(rows, k));
    HoldsPart(d, OFFSET_ARRAY + 4 * k, Bytes4(OffsetWord(StartOf(rows, k))), 0, 2);
  }

  lemma LowBytes(start: U16)
    ensures Bytes4(OffsetWord(start))[0..2] == Bytes2(start)
  {
    hide Bytes2;
    OffsetWordMasks(start);
  }

  /** The built page with any node-type flags in its header. */
  function FlaggedPage(selfBlock: U64, tableId: U64, level: Byte, isBranch: bool, bits: Bits, rows: seq<Record>)
    : (page: Buffer)
    requires Writable(rows)
    ensures |page| == PAGE_SIZE
  {
    Overwrite(BuiltPage(selfBlock, tableId, level, isBranch, rows), NODE_HEADER + 13, [FlagsByte(isBranch, bits)])
  }

  /** The page header that the resolver and the carver read. */
  ghost predicate IsPageOf(page: seq<Byte>, selfBlock: U64, tableId: U64) {
    && |page| >= 80 && page[..4] == [0x4D, 0x53, 0x42, 0x2B]
    && Holds(page, 0x20, Bytes8(selfBlock)) && Holds(page, 72, Bytes8(tableId))
  }

  lemma OverwriteKeeps(s: seq<Byte>, at: nat, b: seq<Byte>, lo: nat, kept: seq<Byte>)
    requires at + |b| <= |s| && Holds(s, lo, kept) && (lo + |kept| <= at || at + |b| <= lo)
    ensures Holds(Overwrite(s, at, b), lo, kept)
  {
    var t := Overwrite(s, at, b);
    if lo + |kept| <= at {
      assert t[lo..lo + |kept|] == t[..at][lo..lo + |kept|] == s[..at][lo..lo + |kept|];
    } else {
      var n := at + |b|;
      SliceOfSlice(s, n, |s|, lo - n, lo - n + |kept|);
      SliceOfSlice(t, n, |t|, lo - n, lo - n + |kept|);
    }
  }

  /** Every built page, under any flags, is a laid node of its rows. */
  lemma FlaggedIsLaid(selfBlock: U64, tableId: U64, level: Byte, isBranch: bool, bits: Bits, rows: seq<Record>)
    requires Fits(rows)
    ensures var page := FlaggedPage(selfBlock, tableId, level, isBranch, bits, rows);
      NodeLaid(page, WrittenPlan(level, isBranch, bits, rows), AsRows(rows)) && IsPageOf(page, selfBlock, tableId)
  {
    hide PageHeader, NodeHeaderBytes, RecordArea, OffsetBytes, BuiltPage, Overwrite, AsRows, AreaLen, RowsLaid,
      WrittenPlan, FlagsByte, HeaderLaid, IsPageOf, FlaggedPage;
    var built, flags := BuiltPage(selfBlock, tableId, level, isBranch, rows), [FlagsByte(isBranch, bits)];
    var page, l := Overwrite(built, NODE_HEADER + 13, flags), WrittenPlan(level, isBranch, bits, rows);
    FlaggedIs(selfBlock, tableId, level, isBranch, bits, rows);
    BuiltStretches(selfBlock, tableId, level, isBranch, rows);
    OverwriteKeeps(built, NODE_HEADER + 13, flags, RECORDS, RecordArea(rows));
    OverwriteKeeps(built, NODE_HEADER + 13, flags, OFFSET_ARRAY, OffsetBytes(rows));
    AllOffsets(page, rows);
    WrittenPlanIs(level, isBranch, bits, rows);
    WrittenRowsLaid(page, l, rows, 0);
    HeaderHeld(built, selfBlock, tableId);
    FlaggedHeaderLaid(built, level, isBranch, bits, rows);
    OverwriteKeeps(built, NODE_HEADER + 13, flags, 0, PageHeader(selfBlock, tableId));
    HeaderHeld(page, selfBlock, tableId);
  }

  lemma FlaggedIs(selfBlock: U64, tableId: U64, level: Byte, isBranch: bool, bits: Bits, rows: seq<Record>)
    requires Writable(rows)
    ensures FlaggedPage(selfBlock, tableId, level, isBranch, bits, rows)
      == Overwrite(BuiltPage(selfBlock, tableId, level, isBranch, rows), NODE_HEADER + 13, [FlagsByte(isBranch, bits)])
  {
  }

  lemma WrittenPlanIs(level: Byte, isBranch: bool, bits: Bits, rows: seq<Record>)
    requires Fits(rows)
    ensures var l := WrittenPlan(level, isBranch, bits, rows);
      && l.header == NODE_HEADER && l.level == level && l.isBranch == isBranch && l.bits == bits
      && l.offsets == OFFSET_ARRAY && |l.places| == |rows|
  {
  }

  /** The node header with its flags byte overwritten. */
  lemma FlaggedHeaderLaid(built: seq<Byte>, level: Byte, isBranch: bool, bits: Bits, rows: seq<Record>)
    requires Fits(rows) && |built| == PAGE_SIZE
    requires Holds(built, NODE_HEADER, NodeHeaderBytes(level, isBranch, rows))
    requires Holds(built, 0x50, Bytes4(NODE_HEADER - 0x50))
    ensures HeaderLaid(Overwrite(built, NODE_HEADER + 13, [FlagsByte(isBranch, bits)]),
                       WrittenPlan(level, isBranch, bits, rows))
  {
    hide Bytes4, Zeros, Overwrite, FlagsByte, NodeHeaderBytes;
    var flags := [FlagsByte(isBranch, bits)];
    var page := Overwrite(built, NODE_HEADER + 13, flags);
    WrittenPlanIs(level, isBranch, bits, rows);
    NodeHeaderParts(built, level, isBranch, rows);
    OverwriteKeeps(built, NODE_HEADER + 13, flags, 0x50, Bytes4(NODE_HEADER - 0x50));
    OverwriteKeeps(built, NODE_HEADER + 13, flags, NODE_HEADER + 12, [level]);
    OverwriteKeeps(built, NODE_HEADER + 13, flags, NODE_HEADER + 16, Bytes4(OFFSET_ARRAY - NODE_HEADER));
    OverwriteKeeps(built, NODE_HEADER + 13, flags, NODE_HEADER + 20, Bytes4(|rows|));
    assert page[NODE_HEADER + 12] == page[NODE_HEADER + 12..NODE_HEADER + 13][0];
    assert page[NODE_HEADER + 13] == page[NODE_HEADER + 13..NODE_HEADER + 14][0];
  }

  lemma NodeHeaderParts(d: seq<Byte>, level: Byte, isBranch: bool, rows: seq<Record>)
    requires Writable(rows) && Holds(d, NODE_HEADER, NodeHeaderBytes(level, isBranch, rows))
    ensures Holds(d, NODE_HEADER + 12, [level]) && Holds(d, NODE_HEADER + 13, [if isBranch then 1 else 0])
    ensures Holds(d, NODE_HEADER + 16, Bytes4(OFFSET_ARRAY - NODE_HEADER))
    ensures Holds(d, NODE_HEADER + 20, Bytes4(|rows|))
  {
    hide Bytes4, NodeHeaderBytes, Holds;
    var b, flag := NodeHeaderBytes(level, isBranch, rows), if isBranch then 1 else 0;
    NodeHeaderSlices(level, isBranch, rows);
    HoldsPart(d, NODE_HEADER, b, 12, 16);
    var marks := [level, flag, 0, 0];
    HoldsPart(d, NODE_HEADER + 12, marks, 0, 1);
    HoldsPart(d, NODE_HEADER + 12, marks, 1, 2);
    assert marks[0..1] == [level] && marks[1..2] == [flag];
    HoldsPart(d, NODE_HEADER, b, 16, 20);
    HoldsPart(d, NODE_HEADER, b, 20, 24);
  }

  lemma NodeHeaderSlices(level: Byte, isBranch: bool, rows: seq<Record>)
    requires Writable(rows)
    ensures var b := NodeHeaderBytes(level, isBranch, rows);
      && b[12..16] == [level, if isBranch then 1 else 0, 0, 0]
      && b[16..20] == Bytes4(OFFSET_ARRAY - NODE_HEADER) && b[20..24] == Bytes4(|rows|)
  {
    hide Bytes4, Zeros, AreaLen;
    var flag := if isBranch then 1 else 0;
    var front := Bytes4(32) + Bytes4(NODE_HEADER_LEN + AreaLen(rows)) + Bytes4(0);
    var marks, offsets, count := [level, flag, 0, 0], Bytes4(OFFSET_ARRAY - NODE_HEADER), Bytes4(|rows|);
    var rest := Bytes4(OFFSET_ARRAY - NODE_HEADER + 4 * |rows|) + Zeros(4);
    FourPieces(front, marks, offsets, count, rest);
    assert NodeHeaderBytes(level, isBranch, rows) == front + marks + offsets + count + rest;
  }

  lemma FourPieces(front: seq<Byte>, a: seq<Byte>, b: seq<Byte>, c: seq<Byte>, rest: seq<Byte>)
    requires |front| == 12 && |a| == |b| == |c| == 4
    ensures var s := front + a + b + c + rest;
      s[12..16] == a && s[16..20] == b && s[20..24] == c
  {
  }

  /** Page codec round trip, for every flags byte. Parsing the built page with the flags byte
      replaced, followed by any further bytes, returns exactly its rows in order, with its level; it
      is a branch if and only if bit 0 of the flags is set. */
  lemma ParseInvertsFlagged(selfBlock: U64, tableId: U64, level: Byte, isBranch: bool, bits: Bits, rows: seq<Record>,
                            d: Buffer)
    requires Fits(rows)
    requires FlaggedPage(selfBlock, tableId, level, isBranch, bits, rows) <= d
    ensures Parse(d).Success?
    ensures var p := Parse(d).value;
      && p.Rows() == AsRows(rows) && p.level == level && p.flags == FlagsByte(isBranch, bits)
      && p.IsBranch() == isBranch
    ensures IsPageOf(d, selfBlock, tableId)
  {
    hide FlaggedPage, AsRows, NodeLaid, WrittenPlan, FlagsByte, Parse, Page.Rows;
    var page := FlaggedPage(selfBlock, tableId, level, isBranch, bits, rows);
    FlaggedIsLaid(selfBlock, tableId, level, isBranch, bits, rows);
    WrittenPlanIs(level, isBranch, bits, rows);
    LaidLonger(page, d, WrittenPlan(level, isBranch, bits, rows), AsRows(rows));
    LaidNodeParses(d, WrittenPlan(level, isBranch, bits, rows), AsRows(rows));
    HoldsExtends(page, d, 0x20, Bytes8(selfBlock));
    HoldsExtends(page, d, 72, Bytes8(tableId));
  }

  /** The builder writes the flags 0 and 1 only. */
  lemma BuiltIsFlagged(selfBlock: U64, tableId: U64, level: Byte, isBranch: bool, rows: seq<Record>)
    requires Fits(rows)
    ensures FlaggedPage(selfBlock, tableId, level, isBranch, 0, rows)
      == BuiltPage(selfBlock, tableId, level, isBranch, rows)
  {
    hide PageHeader, NodeHeaderBytes, RecordArea, OffsetBytes, BuiltPage, AreaLen;
    var built := BuiltPage(selfBlock, tableId, level, isBranch, rows);
    BuiltStretches(selfBlock, tableId, level, isBranch, rows);
    NodeHeaderParts(built, level, isBranch, rows);
    assert built == built[..NODE_HEADER + 13] + built[NODE_HEADER + 13..NODE_HEADER + 14] + built[NODE_HEADER + 14..];
  }

  /** Page codec round trip. For every row list that fits, parsing the built page followed
      by any further bytes returns exactly those rows in order, with the level, the branch
      flag, the self block and the table id that were written. */
  lemma ParseInvertsBuild(selfBlock: U64, tableId: U64, level: Byte, isBranch: bool, rows: seq<Record>, d: Buffer)
    requires Fits(rows)
    requires BuiltPage(selfBlock, tableId, level, isBranch, rows) <= d
    ensures Parse(d).Success?
    ensures var p := Parse(d).value;
      && p.Rows() == AsRows(rows)
      && p.level == level
      && p.IsBranch() == isBranch
    ensures d[..4] == MSB_SIGNATURE && U64At(d, 0x20) == selfBlock && U64At(d, 72) == tableId
  {
    hide BuiltPage, FlaggedPage, AsRows, Parse, Page.Rows, U64At, Bytes8;
    BuiltIsFlagged(selfBlock, tableId, level, isBranch, rows);
    ParseInvertsFlagged(selfBlock, tableId, level, isBranch, 0, rows, d);
    ReadHeld8(d, 0x20, selfBlock);
    ReadHeld8(d, 72, tableId);
  }

  // ---- The bound is tight ---------------------------------------------------------------

  /** A record's key and value as they lie together in its page. */
  function Payload(r: Record): seq<Byte> { r.key + r.value }

  /** Header and node header are in place however long the records are. */
  lemma BuiltFront(selfBlock: U64, tableId: U64, level: Byte, isBranch: bool, rows: seq<Record>)
    requires Writable(rows)
    ensures var page := BuiltPage(selfBlock, tableId, level, isBranch, rows);
      && Holds(page, 0, PageHeader(selfBlock, tableId))
      && Holds(page, NODE_HEADER, NodeHeaderBytes(level, isBranch, rows))
      && Holds(page, OFFSET_ARRAY, OffsetBytes(rows))
      && page[RECORDS..OFFSET_ARRAY]
         == (RecordArea(rows) + Zeros(PAGE_SIZE - RECORDS - AreaLen(rows)))[..OFFSET_ARRAY - RECORDS]
  {
    hide PageHeader, NodeHeaderBytes, RecordArea, OffsetBytes, AreaLen, Zeros, Overwrite;
    var h, n := PageHeader(selfBlock, tableId), NodeHeaderBytes(level, isBranch, rows);
    var tail := RecordArea(rows) + Zeros(PAGE_SIZE - RECORDS - AreaLen(rows));
    var page := BuiltPage(selfBlock, tableId, level, isBranch, rows);
    assert h + n + RecordArea(rows) + Zeros(PAGE_SIZE - RECORDS - AreaLen(rows)) == h + n + tail;
    assert page[..OFFSET_ARRAY] == (h + n + tail)[..OFFSET_ARRAY];
    assert page[0..NODE_HEADER] == page[..OFFSET_ARRAY][0..NODE_HEADER] == h;
    assert page[NODE_HEADER..RECORDS] == page[..OFFSET_ARRAY][NODE_HEADER..RECORDS] == n;
    assert page[RECORDS..OFFSET_ARRAY] == page[..OFFSET_ARRAY][RECORDS..OFFSET_ARRAY];
  }

  /** A single record one byte too long: its payload's last byte is where the offset array's
      first byte, 0x20, is written. */
  lemma OverlongRecordBytes(selfBlock: U64, tableId: U64, level: Byte, isBranch: bool, r: Record)
    requires RecordLen(r) == OFFSET_ARRAY - RECORDS + 1
    ensures AreaLen([r]) == RecordLen(r)
    ensures var page := BuiltPage(selfBlock, tableId, level, isBranch, [r]);
      && Holds(page, RECORDS, RecordHead(r))
      && page[RECORDS + 16..OFFSET_ARRAY + 1] == Payload(r)[..|Payload(r)| - 1] + [0x20]
  {
    hide PageHeader, NodeHeaderBytes, Zeros, RecordHead, BuiltPage, Bytes4;
    var rows := [r];
    assert rows[..|rows| - 1] == [];
    assert AreaLen(rows) == RecordLen(r);
    BuiltFront(selfBlock, tableId, level, isBranch, rows);
    var page := BuiltPage(selfBlock, tableId, level, isBranch, rows);
    assert RecordArea(rows) == RecordHead(r) + r.key + r.value;
    HeadThenPayload(page[RECORDS..OFFSET_ARRAY], RecordHead(r), r.key, r.value);
    SliceOfSlice(page, RECORDS, OFFSET_ARRAY, 0, 16);
    SliceOfSlice(page, RECORDS, OFFSET_ARRAY, 16, OFFSET_ARRAY - RECORDS);
    FirstOffsetByte(r);
    SliceOfSlice(page, OFFSET_ARRAY, OFFSET_ARRAY + 4, 0, 1);
    assert page[OFFSET_ARRAY..OFFSET_ARRAY + 1] == [0x20];
  }

  /** What is left of a record when its last byte is cut off: its head and the rest of its payload. */
  lemma HeadThenPayload(front: seq<Byte>, head: seq<Byte>, key: seq<Byte>, value: seq<Byte>)
    requires |head| == 16 && |front| + 1 == 16 + |key| + |value| && |front| >= 16
    requires front == (head + key + value)[..|front|]
    ensures front[0..16] == head && front[16..|front|] == (key + value)[..|key| + |value| - 1]
  {
    var payload, n := key + value, |front|;
    Reassociated(head, key, value);
    assert front == (head + payload)[..n];
    assert front[16..n] == (head + payload)[16..n];
    SliceOfSlice(head + payload, 16, 16 + |payload|, 0, n - 16);
    assert (head + payload)[16..16 + |payload|] == payload;
  }

  lemma FirstOffsetByte(r: Record)
    ensures OffsetBytes([r])[0..1] == [0x20]
  {
    hide Bytes4;
    assert [r][..0] == [];
    assert OffsetBytes([r]) == Bytes4(OffsetWord(32));
    assert Bytes4(OffsetWord(32)) == Bytes2(32) + Bytes2(0xFFFF) by { FirstOffsetWord(); }
  }

  lemma FirstOffsetWord()
    ensures Bytes4(OffsetWord(32)) == Bytes2(32) + Bytes2(0xFFFF)
  {
  }

  /** What is parsed back of such a record: everything but that byte. */
  lemma OverlongRecordRow(d: Buffer, rec: nat, r: Record, payload: seq<Byte>)
    requires RecordLen(r) <= PAGE_SIZE && |payload| == |Payload(r)|
    requires Holds(d, rec, RecordHead(r)) && Holds(d, rec + 16, payload)
    ensures rec + 14 <= |d|
    ensures ReadRecord(d, rec) == Some(Row(payload[..|r.key|], payload[|r.key|..], 0))
  {
    hide Zeros, RecordHead, ReadRecord;
    var s := Record(payload[..|r.key|], payload[|r.key|..]);
    assert payload == s.key + s.value;
    SameHead(r, s);
    assert d[rec..rec + RecordLen(s)] == d[rec..rec + 16] + d[rec + 16..rec + 16 + |payload|];
    assert RecordHead(s) + payload == RecordHead(s) + s.key + s.value;
    ReadWrittenRecord(d, rec, s);
  }

  lemma SameHead(r: Record, s: Record)
    requires RecordLen(r) <= PAGE_SIZE && |r.key| == |s.key| && |r.value| == |s.value|
    ensures RecordHead(s) == RecordHead(r)
  {
  }

  /** 8160 bytes is tight. With a single record of 8161 bytes the page still parses, but what is
      parsed is what was written if and only if the last byte written happens to be 0x20. */
  lemma OneByteTooLong(selfBlock: U64, tableId: U64, level: Byte, isBranch: bool, r: Record)
    requires RecordLen(r) == OFFSET_ARRAY - RECORDS + 1
    ensures AreaLen([r]) == RecordLen(r)
    ensures var parsed := Parse(BuiltPage(selfBlock, tableId, level, isBranch, [r]));
      && parsed.Success?
      && (parsed.value.Rows() == AsRows([r]) <==> Payload(r)[|Payload(r)| - 1] == 0x20)
  {
    hide PageHeader, NodeHeaderBytes, OffsetBytes, RecordArea, BuiltPage, RecordHead, U32At, OffsetWord, ReadRecord,
      Bytes4;
    OverlongRecordBytes(selfBlock, tableId, level, isBranch, r);
    BuiltFront(selfBlock, tableId, level, isBranch, [r]);
    var page := BuiltPage(selfBlock, tableId, level, isBranch, [r]);
    HeaderFields(page, selfBlock, tableId);
    NodeFields(page, level, isBranch, [r]);
    var p := Parse(page).value;
    assert p.recordCount == 1;
    OffsetWhere(page, [r], 0);
    assert StartOf([r], 0) == 32 by { assert [r][..0] == []; }
    ReadHeld4(page, OFFSET_ARRAY, OffsetWord(32));
    OffsetWordMasks(32);
    var payload := Payload(r)[..|Payload(r)| - 1] + [0x20];
    OverlongRecordRow(page, RECORDS, r, payload);
    assert p.RowAt(0) == Some(Row(payload[..|r.key|], payload[|r.key|..], 0));
    assert p.RowsFrom(1) == [];
    assert p.Rows() == [Row(payload[..|r.key|], payload[|r.key|..], 0)];
    PayloadParts(r, payload);
  }

  lemma PayloadParts(r: Record, payload: seq<Byte>)
    requires |payload| == |Payload(r)|
    requires |payload| > 0 && payload == Payload(r)[..|Payload(r)| - 1] + [0x20]
    ensures payload[..|r.key|] == r.key && payload[|r.key|..] == r.value <==> Payload(r)[|Payload(r)| - 1] == 0x20
  {
    var last := |payload| - 1;
    assert payload[..|r.key|] == r.key && payload[|r.key|..] == r.value <==> payload == Payload(r) by {
      assert payload == payload[..|r.key|] + payload[|r.key|..];
    }
    assert payload == Payload(r) <==> payload[last] == Payload(r)[last];
  }
}
