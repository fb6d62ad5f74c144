/** The Minstore B+-tree page parser and the object table on top of it
    (core/src/minstore.rs). */
module Minstore {
  import opened Wrappers
  import opened Bytes
  import opened Layout

  const NODE_HEADER_OFFSET_FIELD: nat := 0x50
  const NODE_HEADER_LEN: nat := 32
  const MAX_RECORDS: nat := 4096
  const REFS_ROOT_DIRECTORY_ID: U64 := 0x600

  datatype Row = Row(key: seq<Byte>, value: seq<Byte>, flags: U16)

  /** The key and value slices a record header at `rec` names. The source adds with
      `checked_add`; the sums grow, so the last of each chain overflows if any does. */
  function ReadRecord(data: Buffer, rec: nat): Option<Row>
    requires rec + 14 <= |data|
  {
    var keyStart := rec + U16At(data, rec + 4);
    var keyEnd := keyStart + U16At(data, rec + 6);
    var valStart := rec + U16At(data, rec + 10);
    var valEnd := valStart + U16At(data, rec + 12);
    if keyEnd > USIZE_MAX || valEnd > USIZE_MAX then None
    else if keyEnd > |data| || valEnd > |data| then None
    else Some(Row(data[keyStart..keyEnd], data[valStart..valEnd], U16At(data, rec + 8)))
  }

  function Listed(r: Option<Row>): (rows: seq<Row>)
    ensures |rows| <= 1
  {
    if r.Some? then [r.value] else []
  }

  datatype Page = Page(data: Buffer, nodeHeader: nat, level: Byte, flags: Byte, recordOffsets: nat, recordCount: nat) {

    /** Node-type flag bit 0 alone decides; the level is not consulted. */
    predicate IsBranch() { flags % 2 == 1 }

    /** The bounds every page made by `Parse` has. */
    ghost predicate Parsed() {
      && NODE_HEADER_OFFSET_FIELD <= nodeHeader
      && nodeHeader + NODE_HEADER_LEN <= |data|
      && nodeHeader <= recordOffsets <= nodeHeader + 0x1_0000_0000
      && recordCount <= MAX_RECORDS
      && (recordCount > 0 ==> recordOffsets + 4 * recordCount <= |data|)
    }

    /** Where record `i` claims to start: the low half of its offset word, counted from
        the node header. */
    function RecordStart(i: nat): nat
      requires Parsed() && i < recordCount
    {
      nodeHeader + U32At(data, recordOffsets + 4 * i) % 0x1_0000
    }

    /** Record `i`, or None when any offset or length lies outside the page. */
    function RowAt(i: nat): Option<Row>
      requires Parsed() && i < recordCount
    {
      var rec := RecordStart(i);
      if recordOffsets + 4 * i > USIZE_MAX || rec + 14 > USIZE_MAX then None
      else if rec + 14 > |data| then None
      else ReadRecord(data, rec)
    }

    function RowsFrom(i: nat): seq<Row>
      requires Parsed()
      requires i <= recordCount
      decreases recordCount - i
    {
      if i == recordCount then []
      else Listed(RowAt(i)) + RowsFrom(i + 1)
    }

    function Rows(): seq<Row>
      requires Parsed()
    {
      RowsFrom(0)
    }
  }

  /** `p` is the node whose header the field at 0x50 names: its fields are those of the header, its
      records as many as the header claims, but no more than 4096 and no more than whole offset words
      lie in the buffer. */
  ghost predicate IsNodeOf(data: Buffer, p: Page) {
    var h := 0x50 + U32At(data, 0x50);
    && |data| >= h + 32 && p.nodeHeader == h
    && p.level == data[h + 12] && p.flags == data[h + 13]
    && p.recordOffsets == h + U32At(data, h + 16)
    && p.recordCount <= U32At(data, h + 20) && p.recordCount <= 4096
    && (p.recordCount > 0 ==> p.recordOffsets + 4 * p.recordCount <= |data|)
    && (|| p.recordCount == U32At(data, h + 20) || p.recordCount == 4096
        || p.recordOffsets + 4 * p.recordCount + 4 > |data|)
  }

  /** Parse the Minstore node in `data`. */
  function Parse(data: Buffer): (r: Result<Page>)
    ensures r.Success? ==> r.value.Parsed() && r.value.data == data
    ensures r.Success? ==> IsNodeOf(data, r.value)
    ensures r.Failure? <==>
      || |data| < NODE_HEADER_OFFSET_FIELD + 4
      || NODE_HEADER_OFFSET_FIELD + U32At(data, NODE_HEADER_OFFSET_FIELD) + NODE_HEADER_LEN > |data|
  {
    if |data| < NODE_HEADER_OFFSET_FIELD + 4 then Failure(Truncated(NodeHeaderOffsetField)) else
    var rel := U32At(data, NODE_HEADER_OFFSET_FIELD);
    var nodeHeader := SaturatingAdd(NODE_HEADER_OFFSET_FIELD, rel);
    var end := CheckedAdd(nodeHeader, NODE_HEADER_LEN);
    if end.None? || end.value > |data| then Failure(Truncated(NodeHeader)) else
    var level := data[nodeHeader + 12];
    var flags := data[nodeHeader + 13];
    var roffRel := U32At(data, nodeHeader + 16);
    var claimed := U32At(data, nodeHeader + 20);
    var recordOffsets := SaturatingAdd(nodeHeader, roffRel);
    var capacity := SaturatingSub(|data|, recordOffsets) / 4;
    var recordCount := Min(Min(claimed, capacity), MAX_RECORDS);
    Success(Page(data, nodeHeader, level, flags, recordOffsets, recordCount))
  }

  /** A node that is read has a record `i` if and only if the header claims it, it is one of the first
      4096, and its whole offset word lies in the buffer. */
  lemma HasRecordIff(data: Buffer, i: nat)
    requires Parse(data).Success?
    ensures var h := 0x50 + U32At(data, 0x50);
      i < Parse(data).value.recordCount <==>
        i < U32At(data, h + 20) && i < 4096 && h + U32At(data, h + 16) + 4 * i + 4 <= |data|
  {
    hide Parse, U32At;
    assert IsNodeOf(data, Parse(data).value);
  }

  /** Record `i` has its 14-byte header, its key and its value inside the page. It starts where the
      low half of its offset word says, counted from the node header. */
  ghost predicate RecordFits(p: Page, i: nat)
    requires p.Parsed() && i < p.recordCount
  {
    var rec := p.nodeHeader + U32At(p.data, p.recordOffsets + 4 * i) % 0x1_0000;
    && rec + 14 <= |p.data|
    && rec + U16At(p.data, rec + 4) + U16At(p.data, rec + 6) <= |p.data|
    && rec + U16At(p.data, rec + 10) + U16At(p.data, rec + 12) <= |p.data|
  }

  /** `r` is the key and value that record `i` names, at the places it names. */
  ghost predicate IsRecord(p: Page, i: nat, r: Row)
    requires p.Parsed() && i < p.recordCount
  {
    var rec := p.nodeHeader + U32At(p.data, p.recordOffsets + 4 * i) % 0x1_0000;
    && Holds(p.data, rec + U16At(p.data, rec + 4), r.key) && |r.key| == U16At(p.data, rec + 6)
    && Holds(p.data, rec + U16At(p.data, rec + 10), r.value) && |r.value| == U16At(p.data, rec + 12)
    && r.flags == U16At(p.data, rec + 8)
  }

  lemma RowAtExactly(p: Page, i: nat)
    requires p.Parsed() && i < p.recordCount
    ensures p.RowAt(i).Some? <==> RecordFits(p, i)
    ensures p.RowAt(i).Some? ==> IsRecord(p, i, p.RowAt(i).value)
  {
    hide U32At, U16At;
    var rec := p.RecordStart(i);
    assert rec == p.nodeHeader + U32At(p.data, p.recordOffsets + 4 * i) % 0x1_0000;
  }

  ghost predicate Increasing(idx: seq<nat>) {
    forall a, b :: 0 <= a < b < |idx| ==> idx[a] < idx[b]
  }

  /** `idx` lists the fitting records from `i` on, in order, and `rows` are what they name. */
  ghost predicate RowsOfRecords(p: Page, i: nat, idx: seq<nat>, rows: seq<Row>)
    requires p.Parsed()
  {
    && |rows| == |idx| && Increasing(idx)
    && (forall j: nat :: i <= j < p.recordCount && RecordFits(p, j) ==> j in idx)
    && (forall k :: 0 <= k < |idx| ==>
          i <= idx[k] < p.recordCount && RecordFits(p, idx[k]) && IsRecord(p, idx[k], rows[k]))
  }

  /** For every buffer that parses, the rows are exactly the records lying inside it, one row for
      each, in record order: each row is the slices its record names, and the checked arithmetic
      never rejects a record. */
  lemma {:induction false} RowsAreTheFittingRecords(p: Page, i: nat) returns (idx: seq<nat>)
    requires p.Parsed() && i <= p.recordCount
    ensures RowsOfRecords(p, i, idx, p.RowsFrom(i))
    decreases p.recordCount - i
  {
    hide Page.RowAt, RecordFits, IsRecord, RowsOfRecords;
    if i == p.recordCount {
      idx := [];
      assert RowsOfRecords(p, i, idx, []) by { NoRecordsLeft(p); }
    } else {
      RowAtExactly(p, i);
      idx := RowsAreTheFittingRecords(p, i + 1);
      if RecordFits(p, i) {
        RecordBefore(p, i, p.RowAt(i).value, idx, p.RowsFrom(i + 1));
        idx := [i] + idx;
      } else {
        NoRecordBefore(p, i, idx, p.RowsFrom(i + 1));
        assert p.RowsFrom(i) == p.RowsFrom(i + 1);
      }
    }
  }

  lemma NoRecordsLeft(p: Page)
    requires p.Parsed()
    ensures RowsOfRecords(p, p.recordCount, [], [])
  {
  }

  lemma RecordBefore(p: Page, i: nat, row: Row, idx: seq<nat>, rows: seq<Row>)
    requires p.Parsed() && i < p.recordCount && RowsOfRecords(p, i + 1, idx, rows)
    requires RecordFits(p, i) && IsRecord(p, i, row)
    ensures RowsOfRecords(p, i, [i] + idx, [row] + rows)
  {
    hide RecordFits, IsRecord;
    var all := [i] + idx;
    assert all[0] == i;
    forall j: nat | i <= j < p.recordCount && RecordFits(p, j)
      ensures j in all
    {
      if j > i { assert j in idx; }
    }
  }

  lemma NoRecordBefore(p: Page, i: nat, idx: seq<nat>, rows: seq<Row>)
    requires p.Parsed() && i < p.recordCount && RowsOfRecords(p, i + 1, idx, rows) && !RecordFits(p, i)
    ensures RowsOfRecords(p, i, idx, rows)
  {
    hide RecordFits, IsRecord;
  }

  /** A 16 KiB page has at most 4076 rows: the offset array starts after the header field. */
  lemma {:induction false} RowCountBound(p: Page, i: nat)
    requires p.Parsed() && i <= p.recordCount
    ensures |p.RowsFrom(i)| <= p.recordCount - i
    ensures |p.data| <= PAGE_SIZE ==> p.recordCount <= 4076
    decreases p.recordCount - i
  {
    hide Page.RowAt;
    if i < p.recordCount { RowCountBound(p, i + 1); }
  }

  // ---- Prefix monotonicity ----------------------------------------------------

  ghost predicate Subsequence<T>(a: seq<T>, b: seq<T>) {
    if a == [] then true
    else if b == [] then false
    else (a[0] == b[0] && Subsequence(a[1..], b[1..])) || Subsequence(a, b[1..])
  }

  lemma {:induction false} EmptySubsequence<T>(b: seq<T>)
    ensures Subsequence([], b)
  {
  }

  /** A longer buffer keeps every row of a shorter one, at the same index. */
  lemma RowExtends(p: Page, q: Page, i: nat)
    requires p.Parsed() && q.Parsed() && i < p.recordCount <= q.recordCount
    requires p.data <= q.data && p.nodeHeader == q.nodeHeader && p.recordOffsets == q.recordOffsets
    ensures p.RowAt(i).Some? ==> q.RowAt(i) == p.RowAt(i)
  {
    hide ReadRecord;
    U32Extends(p.data, q.data, p.recordOffsets + 4 * i);
    if p.RecordStart(i) + 14 <= |p.data| { RecordExtends(p.data, q.data, p.RecordStart(i)); }
  }

  lemma RecordExtends(d: Buffer, e: Buffer, rec: nat)
    requires d <= e && rec + 14 <= |d|
    ensures ReadRecord(d, rec).Some? ==> ReadRecord(e, rec) == ReadRecord(d, rec)
  {
    U16Extends(d, e, rec + 4);
    U16Extends(d, e, rec + 6);
    U16Extends(d, e, rec + 8);
    U16Extends(d, e, rec + 10);
    U16Extends(d, e, rec + 12);
    if ReadRecord(d, rec).Some? {
      var k, v := rec + U16At(d, rec + 4), rec + U16At(d, rec + 10);
      assert e[k..k + U16At(d, rec + 6)] == d[k..k + U16At(d, rec + 6)];
      assert e[v..v + U16At(d, rec + 12)] == d[v..v + U16At(d, rec + 12)];
    }
  }

  lemma {:induction false} RowsExtend(p: Page, q: Page, i: nat)
    requires p.Parsed() && q.Parsed() && i <= p.recordCount <= q.recordCount
    requires p.data <= q.data && p.nodeHeader == q.nodeHeader && p.recordOffsets == q.recordOffsets
    ensures Subsequence(p.RowsFrom(i), q.RowsFrom(i))
    decreases p.recordCount - i
  {
    hide Page.RowAt, Subsequence;
    if i == p.recordCount {
      EmptySubsequence(q.RowsFrom(i));
    } else {
      RowExtends(p, q, i);
      RowsExtend(p, q, i + 1);
      SubsequenceSkip(p.RowsFrom(i + 1), Listed(q.RowAt(i)), q.RowsFrom(i + 1));
      assert Listed(p.RowAt(i)) == [] ==> p.RowsFrom(i) == p.RowsFrom(i + 1);
    }
  }

  lemma SubsequenceSkip<T>(a: seq<T>, one: seq<T>, b: seq<T>)
    requires Subsequence(a, b) && |one| <= 1
    ensures Subsequence(a, one + b) && Subsequence(one + a, one + b)
  {
    if one == [] {
      assert one + a == a && one + b == b;
    } else {
      assert (one + a)[1..] == a && (one + b)[1..] == b;
    }
  }

  /** Whenever a buffer parses, so does every extension of it, to the same header, and
      the rows of the buffer are an order-preserving subsequence of the extension's. */
  lemma ParseExtends(d: Buffer, e: Buffer)
    requires d <= e && Parse(d).Success?
    ensures Parse(e).Success?
    ensures var p, q := Parse(d).value, Parse(e).value;
      && q.nodeHeader == p.nodeHeader && q.level == p.level && q.flags == p.flags
      && q.recordOffsets == p.recordOffsets
      && p.recordCount <= q.recordCount
      && Subsequence(p.Rows(), q.Rows())
  {
    U32Extends(d, e, NODE_HEADER_OFFSET_FIELD);
    var p := Parse(d).value;
    U32Extends(d, e, p.nodeHeader + 16);
    U32Extends(d, e, p.nodeHeader + 20);
    RowsExtend(p, Parse(e).value, 0);
  }

  /** From record `i` on, every record that fits the longer buffer fits the shorter one. */
  ghost predicate NoRecordBeyond(p: Page, q: Page, i: nat)
    requires p.Parsed() && q.Parsed()
  {
    forall j: nat :: i <= j < q.recordCount && RecordFits(q, j) ==> j < p.recordCount && RecordFits(p, j)
  }

  lemma {:induction false} NoRowsIff(q: Page, i: nat)
    requires q.Parsed() && i <= q.recordCount
    ensures q.RowsFrom(i) == [] <==> forall j: nat :: i <= j < q.recordCount ==> !RecordFits(q, j)
    decreases q.recordCount - i
  {
    hide Page.RowAt, RecordFits;
    if i < q.recordCount {
      RowAtExactly(q, i);
      NoRowsIff(q, i + 1);
    }
  }

  lemma {:induction false} RowsEqualIff(p: Page, q: Page, i: nat)
    requires p.Parsed() && q.Parsed() && i <= p.recordCount <= q.recordCount
    requires p.data <= q.data && p.nodeHeader == q.nodeHeader && p.recordOffsets == q.recordOffsets
    ensures |p.RowsFrom(i)| <= |q.RowsFrom(i)|
    ensures p.RowsFrom(i) == q.RowsFrom(i) <==> NoRecordBeyond(p, q, i)
    decreases p.recordCount - i
  {
    hide Page.RowAt, RecordFits;
    if i == p.recordCount {
      NoRowsIff(q, i);
    } else {
      RowExtends(p, q, i);
      RowAtExactly(p, i);
      RowAtExactly(q, i);
      RowsEqualIff(p, q, i + 1);
      assert NoRecordBeyond(p, q, i) <==> (RecordFits(q, i) ==> RecordFits(p, i)) && NoRecordBeyond(p, q, i + 1);
      PrependEqualIff(p.RowAt(i), q.RowAt(i), p.RowsFrom(i + 1), q.RowsFrom(i + 1));
    }
  }

  lemma PrependEqualIff(a: Option<Row>, b: Option<Row>, s: seq<Row>, t: seq<Row>)
    requires (a.Some? ==> b == a) && |s| <= |t|
    ensures Listed(a) + s == Listed(b) + t <==> (b.Some? ==> a.Some?) && s == t
  {
    if a.Some? {
      assert (Listed(a) + s)[1..] == s && (Listed(a) + t)[1..] == t;
    } else {
      assert Listed(a) + s == s;
      assert b.None? ==> Listed(b) + t == t;
    }
  }

  /** An extension reads the same rows if and only if each of its records that fits already fitted. */
  lemma ExtensionAddsNothingIff(d: Buffer, e: Buffer)
    requires d <= e && Parse(d).Success?
    ensures Parse(e).Success?
    ensures Parse(e).value.Rows() == Parse(d).value.Rows() <==> NoRecordBeyond(Parse(d).value, Parse(e).value, 0)
  {
    hide Page.RowsFrom, Parse, NoRecordBeyond;
    ParseExtends(d, e);
    RowsEqualIff(Parse(d).value, Parse(e).value, 0);
  }

  // ---- The object table -------------------------------------------------------

  const KEY_ID_OFFSET: nat := 8
  const VALUE_BLOCK_REF_OFFSET: nat := 0x20

  /** What one row answers to a lookup of `objectId`. */
  function RowAnswer(row: Row, objectId: U64): Option<U64> {
    var idBytes :- Get(row.key, KEY_ID_OFFSET, KEY_ID_OFFSET + 8);
    if U64At(idBytes, 0) != objectId then None else
    var block :- Get(row.value, VALUE_BLOCK_REF_OFFSET, VALUE_BLOCK_REF_OFFSET + 8);
    Some(U64At(block, 0))
  }

  /** The tree-root block of `objectId`: the first row that answers. */
  function Lookup(rows: seq<Row>, objectId: U64): Option<U64> {
    if rows == [] then None
    else if RowAnswer(rows[0], objectId).Some? then RowAnswer(rows[0], objectId)
    else Lookup(rows[1..], objectId)
  }

  /** The row is a record of object `objectId`: its key holds the id at +8, and its value is long
      enough for the block reference at +0x20. */
  ghost predicate IsObjectRow(row: Row, objectId: U64) {
    Holds(row.key, 8, Bytes8(objectId)) && |row.value| >= 0x28
  }

  /** And `root` is the block it refers to. */
  ghost predicate NamesRoot(row: Row, objectId: U64, root: U64) {
    Holds(row.key, 8, Bytes8(objectId)) && Holds(row.value, 0x20, Bytes8(root))
  }

  lemma RowAnswerExactly(row: Row, objectId: U64, root: U64)
    ensures RowAnswer(row, objectId) == Some(root) <==> NamesRoot(row, objectId, root)
    ensures RowAnswer(row, objectId).Some? <==> IsObjectRow(row, objectId)
  {
    hide U64At, Bytes8;
    if |row.key| >= 16 {
      Reads8(row.key[8..16], 0, objectId);
      assert row.key[8..16][0..8] == row.key[8..16];
    }
    if |row.value| >= 0x28 {
      Reads8(row.value[0x20..0x28], 0, root);
      assert row.value[0x20..0x28][0..8] == row.value[0x20..0x28];
    }
  }

  /** What one row means to a lookup, for keys and values of every length: a record of the object
      answers with its block, every other row, one with the id but a short value included, is
      passed over. */
  lemma LookupRow(row: Row, rest: seq<Row>, objectId: U64, root: U64)
    ensures NamesRoot(row, objectId, root) ==> Lookup([row] + rest, objectId) == Some(root)
    ensures |row.key| < 16 || |row.value| < 40 || !Holds(row.key, 8, Bytes8(objectId)) ==>
      Lookup([row] + rest, objectId) == Lookup(rest, objectId)
  {
    hide RowAnswer, Bytes8;
    RowAnswerExactly(row, objectId, root);
    assert ([row] + rest)[1..] == rest;
  }

  /** A lookup gives a block if and only if it is the one the first record of the object refers to. */
  lemma {:induction false} LookupIsFirstAnswer(rows: seq<Row>, objectId: U64, root: U64)
    ensures Lookup(rows, objectId) == Some(root) <==>
      exists i :: 0 <= i < |rows| && NamesRoot(rows[i], objectId, root)
        && forall j :: 0 <= j < i ==> !IsObjectRow(rows[j], objectId)
  {
    hide RowAnswer, NamesRoot, IsObjectRow;
    if rows != [] {
      var rest := rows[1..];
      RowAnswerExactly(rows[0], objectId, root);
      LookupIsFirstAnswer(rest, objectId, root);
      if !IsObjectRow(rows[0], objectId) {
        if i :| && 0 <= i < |rest| && NamesRoot(rest[i], objectId, root)
                && (forall j :: 0 <= j < i ==> !IsObjectRow(rest[j], objectId)) {
          assert NamesRoot(rows[i + 1], objectId, root);
          assert forall j :: 1 <= j < i + 1 ==> rows[j] == rest[j - 1];
        }
        if i :| && 0 <= i < |rows| && NamesRoot(rows[i], objectId, root)
                && (forall j :: 0 <= j < i ==> !IsObjectRow(rows[j], objectId)) {
          NamesRootIsObjectRow(rows[i], objectId, root);
          assert NamesRoot(rest[i - 1], objectId, root);
        }
      }
    }
  }

  lemma NamesRootIsObjectRow(row: Row, objectId: U64, root: U64)
    ensures NamesRoot(row, objectId, root) ==> IsObjectRow(row, objectId)
  {
  }
}
