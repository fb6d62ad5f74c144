/** The page builder that packs (key, value) rows into a 16 KiB Minstore page
    (core/tests/descent.rs), over an array, and the page it builds as a value. */
module PageWriter {
  import opened Bytes
  import opened Layout
  import opened Minstore

  datatype Record = Record(key: seq<Byte>, value: seq<Byte>)

  const NODE_HEADER: nat := 0x100
  const RECORDS: nat := 0x120
  const OFFSET_ARRAY: nat := 0x2100

  function Zeros(n: nat): (z: seq<Byte>)
    ensures |z| == n
  {
    seq(n, _ => 0)
  }

  function RecordLen(r: Record): nat {
    16 + |r.key| + |r.value|
  }

  /** Bytes all records take together. */
  function AreaLen(rows: seq<Record>): (n: nat)
    ensures n >= 16 * |rows|
  {
    if rows == [] then 0 else AreaLen(rows[..|rows| - 1]) + RecordLen(rows[|rows| - 1])
  }

  /** The rows the builder writes without panicking: every record ends inside the page.
      (At most 1006 records do, so the offset array ends inside the page as well.) */
  predicate Writable(rows: seq<Record>) {
    AreaLen(rows) <= PAGE_SIZE - RECORDS
  }

  /** The rows whose records end before the offset array begins. */
  predicate Fits(rows: seq<Record>) {
    AreaLen(rows) <= OFFSET_ARRAY - RECORDS
  }

  // ---- The page as a value ----------------------------------------------------

  function KeyFields(r: Record): (b: seq<Byte>)
    requires RecordLen(r) <= PAGE_SIZE
    ensures |b| == 10
  {
    Bytes4(RecordLen(r)) + Bytes2(16) + Bytes2(|r.key|) + Bytes2(0)
  }

  function ValueFields(r: Record): (b: seq<Byte>)
    requires RecordLen(r) <= PAGE_SIZE
    ensures |b| == 6
  {
    Bytes2(16 + |r.key|) + Bytes2(|r.value|) + Zeros(2)
  }

  function RecordHead(r: Record): (b: seq<Byte>)
    requires RecordLen(r) <= PAGE_SIZE
    ensures |b| == 16
  {
    KeyFields(r) + ValueFields(r)
  }

  function RecordBytes(r: Record): (b: seq<Byte>)
    requires RecordLen(r) <= PAGE_SIZE
    ensures |b| == RecordLen(r)
  {
    RecordHead(r) + r.key + r.value
  }

  function RecordArea(rows: seq<Record>): (b: seq<Byte>)
    requires AreaLen(rows) <= PAGE_SIZE
    ensures |b| == AreaLen(rows)
  {
    if rows == [] then []
    else RecordArea(rows[..|rows| - 1]) + RecordBytes(rows[|rows| - 1])
  }

  /** Offset of record `i`, relative to the node header. */
  function StartOf(rows: seq<Record>, i: nat): nat
    requires i <= |rows|
  {
    NODE_HEADER_LEN + AreaLen(rows[..i])
  }

  function OffsetWord(start: nat): U32 {
    0xFFFF_0000 + start % 0x1_0000
  }

  function OffsetBytes(rows: seq<Record>): (b: seq<Byte>)
    ensures |b| == 4 * |rows|
  {
    if rows == [] then []
    else OffsetBytes(rows[..|rows| - 1]) + Bytes4(OffsetWord(StartOf(rows, |rows| - 1)))
  }

  function PageHeader(selfBlock: U64, tableId: U64): (b: seq<Byte>)
    ensures |b| == NODE_HEADER
  {
    MSB_SIGNATURE + Bytes4(2) + Zeros(4) + Bytes4(0xF890_EC89) + Zeros(16) + Bytes8(selfBlock)
      + Zeros(32) + Bytes8(tableId) + Bytes4(NODE_HEADER - NODE_HEADER_OFFSET_FIELD) + Zeros(0xAC)
  }

  function NodeHeaderBytes(level: Byte, isBranch: bool, rows: seq<Record>): (b: seq<Byte>)
    requires Writable(rows)
    ensures |b| == NODE_HEADER_LEN
  {
    Bytes4(32) + Bytes4(NODE_HEADER_LEN + AreaLen(rows)) + Bytes4(0) + [level, if isBranch then 1 else 0, 0, 0]
      + Bytes4(OFFSET_ARRAY - NODE_HEADER) + Bytes4(|rows|)
      + Bytes4(OFFSET_ARRAY - NODE_HEADER + 4 * |rows|) + Zeros(4)
  }

  /** `s` with `b` written over it at `at`. */
  function Overwrite(s: seq<Byte>, at: nat, b: seq<Byte>): (t: seq<Byte>)
    requires at + |b| <= |s|
    ensures |t| == |s| && Holds(t, at, b)
    ensures t[..at] == s[..at] && t[at + |b|..] == s[at + |b|..]
  {
    s[..at] + b + s[at + |b|..]
  }

  /** The page: headers, records, padding, with the offset array written last. */
  function BuiltPage(selfBlock: U64, tableId: U64, level: Byte, isBranch: bool, rows: seq<Record>): (page: Buffer)
    requires Writable(rows)
    ensures |page| == PAGE_SIZE
  {
    var area := RecordArea(rows);
    Overwrite(PageHeader(selfBlock, tableId) + NodeHeaderBytes(level, isBranch, rows)
                + area + Zeros(PAGE_SIZE - RECORDS - |area|),
              OFFSET_ARRAY, OffsetBytes(rows))
  }

  lemma {:induction false} AreaLenPrefix(rows: seq<Record>, i: nat)
    requires i <= |rows|
    ensures AreaLen(rows[..i]) <= AreaLen(rows)
    ensures i < |rows| ==> AreaLen(rows[..i]) + RecordLen(rows[i]) <= AreaLen(rows)
  {
    if i == |rows| {
      assert rows[..i] == rows;
    } else {
      AreaLenPrefix(rows[..|rows| - 1], i);
      assert rows[..|rows| - 1][..i] == rows[..i];
    }
  }

  // ---- The builder ------------------------------------------------------------

  /** `page[at..at + b.len()].copy_from_slice(b)`. The bytes before `at` are given as
      `pre + done`, so that a run of writes reads as a growing `done`. */
  method Put(page: array<Byte>, at: nat, b: seq<Byte>, ghost pre: seq<Byte>, ghost done: seq<Byte>)
    requires at + |b| <= page.Length
    requires page[..at] == pre + done
    modifies page
    ensures page[..at + |b|] == pre + (done + b)
    ensures forall k :: at + |b| <= k < page.Length ==> page[k] == old(page[k])
  {
    for i := 0 to |b|
      invariant page[..at + i] == pre + (done + b[..i])
      invariant forall k :: at + i <= k < page.Length ==> page[k] == old(page[k])
    {
      page[at + i] := b[i];
    }
  }

  /** Bytes left zero extend the run as well. */
  lemma ZeroGap(page: array<Byte>, at: nat, n: nat, pre: seq<Byte>, done: seq<Byte>)
    requires at + n <= page.Length && page[..at] == pre + done
    requires forall k :: at <= k < at + n ==> page[k] == 0
    ensures page[..at + n] == pre + (done + Zeros(n))
  {
    assert page[..at + n] == page[..at] + page[at..at + n];
    assert page[at..at + n] == Zeros(n);
  }

  /** Write a record's header, field by field; its two last bytes are zero already. */
  method WriteRecordHead(page: array<Byte>, rec: nat, r: Record)
    requires rec + RecordLen(r) <= page.Length <= PAGE_SIZE
    requires page[rec + 14] == 0 && page[rec + 15] == 0
    modifies page
    ensures page[..rec + 16] == old(page[..rec]) + RecordHead(r)
    ensures forall k :: rec + 16 <= k < page.Length ==> page[k] == old(page[k])
  {
    hide KeyFields, ValueFields;
    ghost var pre := page[..rec];
    WriteKeyFields(page, rec, r);
    WriteValueFields(page, rec, r, pre);
  }

  method WriteKeyFields(page: array<Byte>, rec: nat, r: Record)
    requires rec + RecordLen(r) <= page.Length <= PAGE_SIZE
    modifies page
    ensures page[..rec + 10] == old(page[..rec]) + KeyFields(r)
    ensures forall k :: rec + 10 <= k < page.Length ==> page[k] == old(page[k])
  {
    hide Bytes4, Bytes2;
    var keyOff := 16;
    ghost var pre, done := page[..rec], Bytes4(RecordLen(r));
    Put(page, rec, Bytes4(keyOff + |r.key| + |r.value|), pre, []);
    Put(page, rec + 4, Bytes2(keyOff), pre, done);
    done := done + Bytes2(keyOff);
    Put(page, rec + 6, Bytes2(|r.key|), pre, done);
    done := done + Bytes2(|r.key|);
    Put(page, rec + 8, Bytes2(0), pre, done);
  }

  method WriteValueFields(page: array<Byte>, rec: nat, r: Record, ghost pre: seq<Byte>)
    requires rec + RecordLen(r) <= page.Length <= PAGE_SIZE
    requires page[..rec + 10] == pre + KeyFields(r)
    requires page[rec + 14] == 0 && page[rec + 15] == 0
    modifies page
    ensures page[..rec + 16] == pre + (KeyFields(r) + ValueFields(r))
    ensures forall k :: rec + 16 <= k < page.Length ==> page[k] == old(page[k])
  {
    hide Bytes4, Bytes2, KeyFields, Zeros;
    var valOff := 16 + |r.key|;
    ghost var head := pre + KeyFields(r);
    Put(page, rec + 10, Bytes2(valOff), head, []);
    Put(page, rec + 12, Bytes2(|r.value|), head, Bytes2(valOff));
    ZeroGap(page, rec + 14, 2, head, Bytes2(valOff) + Bytes2(|r.value|));
    assert head + ValueFields(r) == pre + (KeyFields(r) + ValueFields(r));
  }

  /** Write one record over zeroed bytes. */
  method WriteRecord(page: array<Byte>, rec: nat, r: Record)
    requires rec + RecordLen(r) <= page.Length <= PAGE_SIZE
    requires page[rec + 14] == 0 && page[rec + 15] == 0
    modifies page
    ensures page[..rec + RecordLen(r)] == old(page[..rec]) + RecordBytes(r)
    ensures forall k :: rec + RecordLen(r) <= k < page.Length ==> page[k] == old(page[k])
  {
    hide RecordHead;
    ghost var pre := page[..rec];
    WriteRecordHead(page, rec, r);
    Put(page, rec + 16, r.key, pre, RecordHead(r));
    Put(page, rec + 16 + |r.key|, r.value, pre, RecordHead(r) + r.key);
  }

  /** The 80-byte block header and the node-header-offset field, over a zeroed page. */
  method WritePageHeader(page: array<Byte>, selfBlock: U64, tableId: U64)
    requires page.Length == PAGE_SIZE
    requires forall k :: 0 <= k < page.Length ==> page[k] == 0
    modifies page
    ensures page[..NODE_HEADER] == PageHeader(selfBlock, tableId)
    ensures forall k :: NODE_HEADER <= k < page.Length ==> page[k] == 0
  {
    hide Bytes4, Bytes8, Zeros;
    ghost var done := MSB_SIGNATURE;
    Put(page, 0, MSB_SIGNATURE, [], []);
    Put(page, 4, Bytes4(2), [], done);
    done := done + Bytes4(2);
    ZeroGap(page, 8, 4, [], done);
    done := done + Zeros(4);
    Put(page, 12, Bytes4(0xF890_EC89), [], done);
    done := done + Bytes4(0xF890_EC89);
    ZeroGap(page, 16, 16, [], done);
    done := done + Zeros(16);
    Put(page, 0x20, Bytes8(selfBlock), [], done);
    done := done + Bytes8(selfBlock);
    ZeroGap(page, 0x28, 32, [], done);
    done := done + Zeros(32);
    Put(page, 72, Bytes8(tableId), [], done);
    done := done + Bytes8(tableId);
    Put(page, NODE_HEADER_OFFSET_FIELD, Bytes4(NODE_HEADER - NODE_HEADER_OFFSET_FIELD), [], done);
    done := done + Bytes4(NODE_HEADER - NODE_HEADER_OFFSET_FIELD);
    ZeroGap(page, 0x54, 0xAC, [], done);
  }

  /** The node header, written back over its 32 zero bytes once the records are in place. */
  method WriteNodeHeader(page: array<Byte>, level: Byte, isBranch: bool, rows: seq<Record>)
    requires page.Length == PAGE_SIZE && Writable(rows)
    requires forall k :: NODE_HEADER <= k < RECORDS ==> page[k] == 0
    modifies page
    ensures page[..RECORDS] == old(page[..NODE_HEADER]) + NodeHeaderBytes(level, isBranch, rows)
    ensures forall k :: RECORDS <= k < page.Length ==> page[k] == old(page[k])
  {
    hide Bytes4;
    var nh := NODE_HEADER;
    ghost var pre, done := page[..nh], Bytes4(32);
    Put(page, nh, Bytes4(32), pre, []);
    Put(page, nh + 4, Bytes4(NODE_HEADER_LEN + AreaLen(rows)), pre, done);
    done := done + Bytes4(NODE_HEADER_LEN + AreaLen(rows));
    Put(page, nh + 8, Bytes4(0), pre, done);
    done := done + Bytes4(0);
    page[nh + 12] := level;
    page[nh + 13] := if isBranch then 1 else 0;
    done := done + [level, if isBranch then 1 else 0, 0, 0];
    assert page[..nh + 16] == pre + done;
    Put(page, nh + 16, Bytes4(OFFSET_ARRAY - NODE_HEADER), pre, done);
    done := done + Bytes4(OFFSET_ARRAY - NODE_HEADER);
    Put(page, nh + 20, Bytes4(|rows|), pre, done);
    done := done + Bytes4(|rows|);
    Put(page, nh + 24, Bytes4(OFFSET_ARRAY - NODE_HEADER + 4 * |rows|), pre, done);
    done := done + Bytes4(OFFSET_ARRAY - NODE_HEADER + 4 * |rows|);
    ZeroGap(page, nh + 28, 4, pre, done);
  }

  /** One more record is in place. */
  lemma {:induction false} RecordsSoFar(rows: seq<Record>, i: nat)
    requires i < |rows| && Writable(rows)
    ensures AreaLen(rows[..i]) + RecordLen(rows[i]) == AreaLen(rows[..i + 1]) <= AreaLen(rows)
    ensures RecordArea(rows[..i + 1]) == RecordArea(rows[..i]) + RecordBytes(rows[i])
  {
    hide RecordBytes, RecordLen, AreaLen, RecordArea;
    var front := rows[..i + 1];
    AreaLenPrefix(rows, i + 1);
    LastRecord(front, rows[..i], rows[i]);
  }

  lemma NoRecords()
    ensures AreaLen([]) == 0 && RecordArea([]) == []
  {
  }

  lemma {:induction false} LastRecord(rows: seq<Record>, before: seq<Record>, last: Record)
    requires rows == before + [last] && AreaLen(rows) <= PAGE_SIZE
    ensures AreaLen(rows) == AreaLen(before) + RecordLen(last)
    ensures RecordArea(rows) == RecordArea(before) + RecordBytes(last)
  {
    hide RecordBytes, RecordLen;
    assert rows[..|rows| - 1] == before;
  }

  /** The record loop: write each record at the cursor and remember where it began. */
  method WriteRecords(page: array<Byte>, rows: seq<Record>) returns (recordOffsets: seq<nat>)
    requires page.Length == PAGE_SIZE && Writable(rows)
    requires forall k :: RECORDS <= k < page.Length ==> page[k] == 0
    modifies page
    ensures |recordOffsets| == |rows|
    ensures forall j :: 0 <= j < |rows| ==> recordOffsets[j] == StartOf(rows, j)
    ensures page[..RECORDS + AreaLen(rows)] == old(page[..RECORDS]) + RecordArea(rows)
    ensures forall k :: 0 <= k < RECORDS ==> page[k] == old(page[k])
    ensures forall k :: RECORDS + AreaLen(rows) <= k < page.Length ==> page[k] == 0
  {
    hide RecordBytes, RecordArea, AreaLen;
    ghost var head := page[..RECORDS];
    NoRecords();
    var cursor := RECORDS;
    recordOffsets := [];
    for i := 0 to |rows|
      invariant |recordOffsets| == i
      invariant forall j :: 0 <= j < i ==> recordOffsets[j] == StartOf(rows, j)
      invariant cursor == RECORDS + AreaLen(rows[..i]) <= PAGE_SIZE
      invariant page[..cursor] == head + RecordArea(rows[..i])
      invariant forall k :: cursor <= k < page.Length ==> page[k] == 0
    {
      recordOffsets := recordOffsets + [cursor - NODE_HEADER];
      RecordsSoFar(rows, i);
      WriteRecord(page, cursor, rows[i]);
      cursor := cursor + RecordLen(rows[i]);
    }
    assert rows[..|rows|] == rows;
    assert forall k :: 0 <= k < RECORDS ==> page[k] == (head + RecordArea(rows))[k] == head[k];
  }

  /** The offset loop: `0xffff` over each record's start, at the array's fixed place. */
  method WriteOffsets(page: array<Byte>, rows: seq<Record>, recordOffsets: seq<nat>)
    requires page.Length == PAGE_SIZE && Writable(rows)
    requires |recordOffsets| == |rows|
    requires forall j :: 0 <= j < |rows| ==> recordOffsets[j] == StartOf(rows, j)
    modifies page
    ensures page[..] == Overwrite(old(page[..]), OFFSET_ARRAY, OffsetBytes(rows))
    ensures forall k :: 0 <= k < RECORDS ==> page[k] == old(page[k])
  {
    hide Bytes4, OffsetWord, StartOf;
    ghost var pre := page[..OFFSET_ARRAY];
    for i := 0 to |recordOffsets|
      invariant page[..OFFSET_ARRAY + 4 * i] == pre + OffsetBytes(rows[..i])
      invariant forall k :: OFFSET_ARRAY + 4 * i <= k < page.Length ==> page[k] == old(page[k])
    {
      assert rows[..i + 1][..i] == rows[..i];
      assert StartOf(rows[..i + 1], i) == StartOf(rows, i) by { StartOfPrefix(rows, i + 1, i); }
      Put(page, OFFSET_ARRAY + 4 * i, Bytes4(OffsetWord(recordOffsets[i])), pre, OffsetBytes(rows[..i]));
    }
    assert rows[..|rows|] == rows;
    assert page[..] == page[..OFFSET_ARRAY + 4 * |rows|] + page[OFFSET_ARRAY + 4 * |rows|..];
    assert forall k :: 0 <= k < RECORDS ==> page[k] == page[..OFFSET_ARRAY + 4 * |rows|][k] == pre[k];
  }

  lemma StartOfPrefix(rows: seq<Record>, n: nat, i: nat)
    requires i <= n <= |rows|
    ensures StartOf(rows[..n], i) == StartOf(rows, i)
  {
    assert rows[..n][..i] == rows[..i];
  }

  /** Build a page from its rows: the records as the cursor advances, then the offset
      array at its fixed place, then the node header. */
  method BuildPage(selfBlock: U64, tableId: U64, level: Byte, isBranch: bool, rows: seq<Record>)
    returns (page: array<Byte>)
    requires Writable(rows)
    ensures fresh(page)
    ensures page[..] == BuiltPage(selfBlock, tableId, level, isBranch, rows)
  {
    hide PageHeader, NodeHeaderBytes, RecordArea, OffsetBytes, AreaLen, Zeros, Overwrite;
    page := new Byte[PAGE_SIZE](_ => 0);
    WritePageHeader(page, selfBlock, tableId);
    var recordOffsets := WriteRecords(page, rows);
    ghost var body := page[RECORDS..];
    assert body == RecordArea(rows) + Zeros(PAGE_SIZE - RECORDS - AreaLen(rows)) by {
      AreaAndPadding(page, rows, page[..RECORDS]);
    }
    ghost var whole := page[..];
    WriteOffsets(page, rows, recordOffsets);
    OverwriteTail(whole, RECORDS, OFFSET_ARRAY, OffsetBytes(rows));
    assert page[..NODE_HEADER] == PageHeader(selfBlock, tableId);
    ghost var tail := page[RECORDS..];
    WriteNodeHeader(page, level, isBranch, rows);
    assert page[RECORDS..] == tail;
    BuiltInPieces(page[..], selfBlock, tableId, level, isBranch, rows);
  }

  lemma AreaAndPadding(page: array<Byte>, rows: seq<Record>, head: seq<Byte>)
    requires page.Length == PAGE_SIZE && Writable(rows) && |head| == RECORDS
    requires page[..RECORDS + AreaLen(rows)] == head + RecordArea(rows)
    requires forall k :: RECORDS + AreaLen(rows) <= k < page.Length ==> page[k] == 0
    ensures page[RECORDS..] == RecordArea(rows) + Zeros(PAGE_SIZE - RECORDS - AreaLen(rows))
  {
    hide RecordArea, AreaLen;
    var n := RECORDS + AreaLen(rows);
    assert page[RECORDS..] == page[..n][RECORDS..] + page[n..];
    assert page[n..] == Zeros(PAGE_SIZE - n);
  }

  lemma OverwriteTail(s: seq<Byte>, cut: nat, at: nat, b: seq<Byte>)
    requires cut <= at && at + |b| <= |s|
    ensures Overwrite(s, at, b)[..cut] == s[..cut]
    ensures Overwrite(s, at, b)[cut..] == Overwrite(s[cut..], at - cut, b)
  {
  }

  /** The page is determined by its four stretches. */
  lemma BuiltInPieces(page: seq<Byte>, selfBlock: U64, tableId: U64, level: Byte, isBranch: bool, rows: seq<Record>)
    requires |page| == PAGE_SIZE && Writable(rows)
    requires page[..RECORDS] == PageHeader(selfBlock, tableId) + NodeHeaderBytes(level, isBranch, rows)
    requires page[RECORDS..] == Overwrite(RecordArea(rows) + Zeros(PAGE_SIZE - RECORDS - AreaLen(rows)),
                                          OFFSET_ARRAY - RECORDS, OffsetBytes(rows))
    ensures page == BuiltPage(selfBlock, tableId, level, isBranch, rows)
  {
    hide PageHeader, NodeHeaderBytes, RecordArea, OffsetBytes, Zeros, AreaLen, Overwrite;
    var head, area := PageHeader(selfBlock, tableId) + NodeHeaderBytes(level, isBranch, rows), RecordArea(rows);
    var padding := Zeros(PAGE_SIZE - RECORDS - AreaLen(rows));
    Rejoined(page, RECORDS);
    OverwriteAfter(head, area + padding, OFFSET_ARRAY, OffsetBytes(rows));
    Reassociated(head, area, padding);
  }

  lemma Rejoined(s: seq<Byte>, n: nat)
    requires n <= |s|
    ensures s == s[..n] + s[n..]
  {
  }

  lemma Reassociated(a: seq<Byte>, b: seq<Byte>, c: seq<Byte>)
    ensures a + b + c == a + (b + c)
  {
  }

  lemma OverwriteAfter(head: seq<Byte>, tail: seq<Byte>, at: nat, b: seq<Byte>)
    requires |head| <= at && at + |b| <= |head| + |tail|
    ensures Overwrite(head + tail, at, b) == head + Overwrite(tail, at - |head|, b)
  {
  }
}
