/** A Minstore node in any layout the format allows (core/src/minstore.rs:6-28): the node header
    anywhere in the buffer, the offset array anywhere after it, each record wherever its offset word
    says, its key and value wherever its header says. The parser reads back exactly what is laid. */
module NodeLayout {
  import opened Wrappers
  import opened Bytes
  import opened Minstore

  /** The node-type bits beside the branch bit: root, stream and the unused ones. */
  type Bits = b: int | 0 <= b < 0x80

  /** The node-type flags; bit 0 marks a branch. */
  function FlagsByte(isBranch: bool, bits: Bits): Byte {
    (if isBranch then 1 else 0) + 2 * bits
  }

  lemma EveryFlagsByte(flags: Byte) returns (isBranch: bool, bits: Bits)
    ensures flags == FlagsByte(isBranch, bits)
  {
    isBranch, bits := flags % 2 == 1, flags / 2;
  }

  /** Where a record starts, counted from the node header, and its key and value, from its start. */
  datatype Place = Place(start: U16, keyAt: U16, valueAt: U16)

  datatype Plan = Plan(header: nat, level: Byte, isBranch: bool, bits: Bits, offsets: nat, places: seq<Place>)

  /** The record at `rec` is `row`: its header's five words, its key and its value. */
  ghost predicate RecordLaid(d: seq<Byte>, rec: nat, place: Place, row: Row) {
    && |row.key| < 0x1_0000 && |row.value| < 0x1_0000
    && Holds(d, rec + 4, Bytes2(place.keyAt)) && Holds(d, rec + 6, Bytes2(|row.key|))
    && Holds(d, rec + 8, Bytes2(row.flags))
    && Holds(d, rec + 10, Bytes2(place.valueAt)) && Holds(d, rec + 12, Bytes2(|row.value|))
    && Holds(d, rec + place.keyAt, row.key) && Holds(d, rec + place.valueAt, row.value)
  }

  ghost predicate HeaderLaid(d: seq<Byte>, l: Plan) {
    && 0x50 <= l.header <= l.offsets < l.header + 0x1_0000_0000 && l.header < 0x1_0000_0050 && l.header + 32 <= |d|
    && Holds(d, 0x50, Bytes4(l.header - 0x50))
    && d[l.header + 12] == l.level && d[l.header + 13] == FlagsByte(l.isBranch, l.bits)
    && Holds(d, l.header + 16, Bytes4(l.offsets - l.header))
    && |l.places| <= 4096 && Holds(d, l.header + 20, Bytes4(|l.places|))
    && l.offsets + 4 * |l.places| <= |d|
  }

  /** The rows from the `i`-th on are laid; of an offset word only the low half counts. */
  ghost predicate RowsLaid(d: seq<Byte>, l: Plan, rows: seq<Row>, i: nat) {
    && |rows| == |l.places|
    && forall k :: i <= k < |rows| ==>
      && Holds(d, l.offsets + 4 * k, Bytes2(l.places[k].start))
      && RecordLaid(d, l.header + l.places[k].start, l.places[k], rows[k])
  }

  /** `d` holds a node of exactly these rows, laid out as `l`. */
  ghost predicate NodeLaid(d: seq<Byte>, l: Plan, rows: seq<Row>) {
    HeaderLaid(d, l) && RowsLaid(d, l, rows, 0)
  }

  lemma HeldLonger(d: seq<Byte>, e: seq<Byte>, at: nat, b: seq<Byte>)
    requires d <= e && Holds(d, at, b)
    ensures Holds(e, at, b)
  {
    assert e[at..at + |b|] == d[at..at + |b|];
  }

  /** What follows a laid node does not matter. */
  lemma LaidLonger(d: seq<Byte>, e: seq<Byte>, l: Plan, rows: seq<Row>)
    requires d <= e && NodeLaid(d, l, rows)
    ensures NodeLaid(e, l, rows)
  {
    hide Holds, Bytes2, Bytes4;
    HeldLonger(d, e, 0x50, Bytes4(l.header - 0x50));
    HeldLonger(d, e, l.header + 16, Bytes4(l.offsets - l.header));
    HeldLonger(d, e, l.header + 20, Bytes4(|l.places|));
    forall k | 0 <= k < |rows|
      ensures Holds(e, l.offsets + 4 * k, Bytes2(l.places[k].start))
      ensures RecordLaid(e, l.header + l.places[k].start, l.places[k], rows[k])
    {
      HeldLonger(d, e, l.offsets + 4 * k, Bytes2(l.places[k].start));
      RecordLaidLonger(d, e, l.header + l.places[k].start, l.places[k], rows[k]);
    }
  }

  lemma RecordLaidLonger(d: seq<Byte>, e: seq<Byte>, rec: nat, place: Place, row: Row)
    requires d <= e && RecordLaid(d, rec, place, row)
    ensures RecordLaid(e, rec, place, row)
  {
    hide Holds, Bytes2;
    HeldLonger(d, e, rec + 4, Bytes2(place.keyAt));
    HeldLonger(d, e, rec + 6, Bytes2(|row.key|));
    HeldLonger(d, e, rec + 8, Bytes2(row.flags));
    HeldLonger(d, e, rec + 10, Bytes2(place.valueAt));
    HeldLonger(d, e, rec + 12, Bytes2(|row.value|));
    HeldLonger(d, e, rec + place.keyAt, row.key);
    HeldLonger(d, e, rec + place.valueAt, row.value);
  }

  // ---- Reading it back -----------------------------------------------------------------------------

  /** A record read where one is laid is that record. */
  lemma LaidRecordReads(d: Buffer, rec: nat, place: Place, row: Row)
    requires rec + 14 <= |d| && RecordLaid(d, rec, place, row)
    ensures ReadRecord(d, rec) == Some(row)
  {
    hide Bytes2, U16At;
    ReadHeld2(d, rec + 4, place.keyAt);
    ReadHeld2(d, rec + 6, |row.key|);
    ReadHeld2(d, rec + 8, row.flags);
    ReadHeld2(d, rec + 10, place.valueAt);
    ReadHeld2(d, rec + 12, |row.value|);
  }

  lemma LowHalf(d: Buffer, off: nat)
    requires off + 4 <= |d|
    ensures U32At(d, off) % 0x1_0000 == U16At(d, off)
  {
    hide U16At;
  }

  lemma LaidRowReads(p: Page, l: Plan, rows: seq<Row>, i: nat)
    requires p.Parsed() && p.nodeHeader == l.header && p.recordOffsets == l.offsets && p.recordCount == |l.places|
    requires i < |rows| && RowsLaid(p.data, l, rows, i)
    ensures p.RowAt(i) == Some(rows[i])
  {
    hide U32At, U16At, ReadRecord, Bytes2;
    var rec := l.header + l.places[i].start;
    ReadHeld2(p.data, l.offsets + 4 * i, l.places[i].start);
    LowHalf(p.data, l.offsets + 4 * i);
    LaidRecordFits(p.data, rec, l.places[i], rows[i]);
    LaidRecordReads(p.data, rec, l.places[i], rows[i]);
  }

  lemma LaidRecordFits(d: seq<Byte>, rec: nat, place: Place, row: Row)
    requires RecordLaid(d, rec, place, row)
    ensures rec + 14 <= |d|
  {
  }

  lemma {:induction false} LaidRowsRead(p: Page, l: Plan, rows: seq<Row>, i: nat)
    requires p.Parsed() && p.nodeHeader == l.header && p.recordOffsets == l.offsets && p.recordCount == |l.places|
    requires i <= |rows| && RowsLaid(p.data, l, rows, i)
    ensures p.RowsFrom(i) == rows[i..]
    decreases |rows| - i
  {
    hide Page.RowAt, RecordLaid, Holds;
    if i < |rows| {
      LaidRowReads(p, l, rows, i);
      LaidRowsRead(p, l, rows, i + 1);
      assert rows[i..] == [rows[i]] + rows[i + 1..];
    }
  }

  lemma LaidHeaderParses(d: Buffer, l: Plan)
    requires HeaderLaid(d, l)
    ensures Parse(d).Success?
    ensures var p := Parse(d).value;
      && p.nodeHeader == l.header && p.recordOffsets == l.offsets && p.recordCount == |l.places|
      && p.level == l.level && p.flags == FlagsByte(l.isBranch, l.bits)
  {
    hide Bytes4, U32At, Parse;
    ReadHeld4(d, 0x50, l.header - 0x50);
    ReadHeld4(d, l.header + 16, l.offsets - l.header);
    ReadHeld4(d, l.header + 20, |l.places|);
    assert IsNodeOf(d, Parse(d).value);
  }

  /** Node codec, for every layout. A buffer that holds a laid node parses to exactly its rows, in
      order, with its level, and is a branch if and only if bit 0 of its flags says so, whatever the
      other bits are. */
  lemma LaidNodeParses(d: Buffer, l: Plan, rows: seq<Row>)
    requires NodeLaid(d, l, rows)
    ensures Parse(d).Success?
    ensures var p := Parse(d).value;
      p.Rows() == rows && p.level == l.level && p.flags == FlagsByte(l.isBranch, l.bits) && p.IsBranch() == l.isBranch
  {
    hide HeaderLaid, RowsLaid, Parse, Page.RowsFrom;
    LaidHeaderParses(d, l);
    LaidRowsRead(Parse(d).value, l, rows, 0) by { assert RowsLaid(d, l, rows, 0); LaidCount(d, l, rows); }
    assert rows[0..] == rows;
  }

  lemma LaidCount(d: seq<Byte>, l: Plan, rows: seq<Row>)
    requires RowsLaid(d, l, rows, 0)
    ensures |rows| == |l.places|
  {
  }
}
