/** The rows the writer makes: directory entries, child references and object records
    (core/tests/descent.rs), and how the reader reads each back. */
module EntryRows {
  import opened Wrappers
  import opened Bytes
  import opened Layout
  import opened Utf16
  import opened Minstore
  import opened PageWriter
  import opened PageCodec
  import opened Directory

  // ---- The rows the writer makes -----------------------------------------------------------

  datatype Stamps = Stamps(created: U64, modified: U64, changed: U64, accessed: U64)

  /** An entry type that is neither file nor directory (0 is a file-system metadata file). */
  type OtherEntryType = t: U16 | t != ENTRY_TYPE_FILE && t != ENTRY_TYPE_DIRECTORY witness 0

  /** A key that does not start with the entry record type (0x10 is a base, 0x20 a name record). */
  type OtherKey = k: seq<Byte> | !(|k| >= 2 && k[0] == 0x30 && k[1] == 0)

  /** What a directory's leaf holds: a child directory, a file, an entry of another type, or a
      record that is no entry at all. The values of directories and files may go on behind their
      fields, as those of files do when they embed a node. */
  datatype Item =
    | Dir(name: Name, objectId: U64, stamps: Stamps, attributes: U32, tail: seq<Byte>)
    | File(name: Name, size: U64, allocatedSize: U64, stamps: Stamps, attributes: U32, tail: seq<Byte>)
    | Special(name: Name, entryType: OtherEntryType, value: seq<Byte>)
    | Skipped(key: OtherKey, value: seq<Byte>)

  function EntryKey(entryType: U16, name: Name): seq<Byte> {
    Bytes2(RECORD_TYPE_ENTRY) + Bytes2(entryType) + Encode(name)
  }

  /** The 72-byte directory value: object id, four times from +16, attributes at +64. */
  function DirectoryValue(objectId: U64, t: Stamps, attributes: U32): (v: seq<Byte>)
    ensures |v| == 72
  {
    Bytes8(objectId) + Zeros(8) + Bytes8(t.created) + Bytes8(t.modified) + Bytes8(t.changed) + Bytes8(t.accessed)
      + Zeros(16) + Bytes4(attributes) + Zeros(4)
  }

  /** The 128-byte file value: four times from +0, attributes at +32, sizes at +64 and +72. */
  function FileValue(size: U64, allocatedSize: U64, t: Stamps, attributes: U32): (v: seq<Byte>)
    ensures |v| == 128
  {
    Bytes8(t.created) + Bytes8(t.modified) + Bytes8(t.changed) + Bytes8(t.accessed) + Bytes4(attributes)
      + Zeros(28) + Bytes8(size) + Bytes8(allocatedSize) + Zeros(48)
  }

  /** What a branch keeps of a child besides its block: the separator key, and whatever
      follows the block number in the value (redundancy blocks, checksum descriptor). */
  datatype Reference = Reference(separator: seq<Byte>, tail: seq<Byte>)

  function ReferenceRecord(ref: Reference, child: U64): Record {
    Record(ref.separator, Bytes8(child) + ref.tail)
  }

  /** The tail the writer gives a reference: the block three times more, then the descriptor. */
  function CopiesAndDescriptor(child: U64): (v: seq<Byte>)
    ensures |v| == 40
  {
    Bytes8(child) + Bytes8(child) + Bytes8(child) + [0, 0, 2, 8] + Bytes2(8) + Zeros(10)
  }

  function ObjectKey(objectId: U64): (k: seq<Byte>)
    ensures |k| == 16
  {
    Zeros(8) + Bytes8(objectId)
  }

  function ObjectValue(root: U64): (v: seq<Byte>)
    ensures |v| == 80
  {
    Zeros(32) + Bytes8(root) + Zeros(40)
  }

  function ItemRecord(item: Item): Record {
    match item
    case Dir(name, id, t, attributes, tail) =>
      Record(EntryKey(ENTRY_TYPE_DIRECTORY, name), DirectoryValue(id, t, attributes) + tail)
    case File(name, size, allocatedSize, t, attributes, tail) =>
      Record(EntryKey(ENTRY_TYPE_FILE, name), FileValue(size, allocatedSize, t, attributes) + tail)
    case Special(name, entryType, value) => Record(EntryKey(entryType, name), value)
    case Skipped(key, value) => Record(key, value)
  }

  /** The metadata a reader should see for an item, if it has any. */
  function MetadataFor(item: Item): Option<FileMetadata> {
    match item
    case Dir(_, _, t, attributes, _) =>
      Some(FileMetadata(0, 0, t.created, t.modified, t.changed, t.accessed, attributes, true))
    case File(_, size, allocatedSize, t, attributes, _) =>
      Some(FileMetadata(size, allocatedSize, t.created, t.modified, t.changed, t.accessed, attributes, false))
    case _ => None
  }

  /** The entry a reader should see for an item. */
  function EntryFor(item: Item): DirEntry
    requires !item.Skipped?
  {
    DirEntry(item.name, item.Dir?, if item.Dir? then Some(item.objectId) else None, MetadataFor(item))
  }

  // ---- Reading the rows back -----------------------------------------------------------------

  /** `m` are the fields of a directory value: each where it belongs, 0 past the end. */
  ghost predicate IsDirectoryMetadata(v: seq<Byte>, m: FileMetadata) {
    && m.isDirectory && m.size == 0 && m.allocatedSize == 0
    && Field8(v, 16, m.created) && Field8(v, 24, m.modified) && Field8(v, 32, m.changed) && Field8(v, 40, m.accessed)
    && Field4(v, 64, m.attributes)
  }

  /** `m` are the fields of a file value. */
  ghost predicate IsFileMetadata(v: seq<Byte>, m: FileMetadata) {
    && !m.isDirectory
    && Field8(v, 0, m.created) && Field8(v, 8, m.modified) && Field8(v, 16, m.changed) && Field8(v, 24, m.accessed)
    && Field4(v, 32, m.attributes) && Field8(v, 64, m.size) && Field8(v, 72, m.allocatedSize)
  }

  /** The metadata of a value of any length, short ones included: exactly its fields. */
  lemma MetadataExactly(v: seq<Byte>, m: FileMetadata)
    ensures ParseMetadata(v, true) == m <==> IsDirectoryMetadata(v, m)
    ensures ParseMetadata(v, false) == m <==> IsFileMetadata(v, m)
  {
    hide U64At, U32At, Field8, Field4;
    Reads8(v, 0, m.created);
    Reads8(v, 8, m.modified);
    Reads8(v, 16, m.created);
    Reads8(v, 16, m.changed);
    Reads8(v, 24, m.modified);
    Reads8(v, 24, m.accessed);
    Reads8(v, 32, m.changed);
    Reads8(v, 40, m.accessed);
    Reads8(v, 64, m.size);
    Reads8(v, 72, m.allocatedSize);
    Reads4(v, 32, m.attributes);
    Reads4(v, 64, m.attributes);
  }

  lemma Word8(front: seq<Byte>, tail: seq<Byte>, at: nat, x: U64)
    requires at + 8 <= |front| && front[at..at + 8] == Bytes8(x)
    ensures Field8(front + tail, at, x)
  {
    hide Bytes8;
    assert (front + tail)[at..at + 8] == front[at..at + 8];
  }

  lemma Word4(front: seq<Byte>, tail: seq<Byte>, at: nat, x: U32)
    requires at + 4 <= |front| && front[at..at + 4] == Bytes4(x)
    ensures Field4(front + tail, at, x)
  {
    hide Bytes4;
    assert (front + tail)[at..at + 4] == front[at..at + 4];
  }

  /** Every field of a directory value reads back from its place, whatever follows the fields. */
  lemma DirectoryValueReads(id: U64, t: Stamps, attributes: U32, tail: seq<Byte>)
    ensures var v := DirectoryValue(id, t, attributes) + tail;
      && U64At(v, 0) == id
      && ParseMetadata(v, true) == FileMetadata(0, 0, t.created, t.modified, t.changed, t.accessed, attributes, true)
  {
    hide Bytes8, Bytes4, Zeros, U64At, U32At, ParseMetadata, Field8, Field4;
    var front := DirectoryValue(id, t, attributes);
    Word8(front, tail, 0, id);
    Word8(front, tail, 16, t.created);
    Word8(front, tail, 24, t.modified);
    Word8(front, tail, 32, t.changed);
    Word8(front, tail, 40, t.accessed);
    Word4(front, tail, 64, attributes);
    Reads8(front + tail, 0, id);
    MetadataExactly(front + tail,
                    FileMetadata(0, 0, t.created, t.modified, t.changed, t.accessed, attributes, true));
  }

  /** Every field of a file value reads back from its place, whatever follows the fields. */
  lemma FileValueReads(size: U64, allocatedSize: U64, t: Stamps, attributes: U32, tail: seq<Byte>)
    ensures ParseMetadata(FileValue(size, allocatedSize, t, attributes) + tail, false) ==
      FileMetadata(size, allocatedSize, t.created, t.modified, t.changed, t.accessed, attributes, false)
  {
    hide Bytes8, Bytes4, Zeros, ParseMetadata, Field8, Field4;
    var front := FileValue(size, allocatedSize, t, attributes);
    Word8(front, tail, 0, t.created);
    Word8(front, tail, 8, t.modified);
    Word8(front, tail, 16, t.changed);
    Word8(front, tail, 24, t.accessed);
    Word4(front, tail, 32, attributes);
    Word8(front, tail, 64, size);
    Word8(front, tail, 72, allocatedSize);
    MetadataExactly(front + tail,
                    FileMetadata(size, allocatedSize, t.created, t.modified, t.changed, t.accessed, attributes, false));
  }

  /** `e` is what the row of an entry record means: the name behind the first four key bytes, the
      kind in the two before them, and the fields of the value. */
  ghost predicate IsEntryOf(row: Row, e: DirEntry) {
    var dir, file := Holds(row.key, 2, Bytes2(2)), Holds(row.key, 2, Bytes2(1));
    && e.name == Decode(if |row.key| >= 4 then row.key[4..] else [])
    && e.isDirectory == dir && e.objectId.Some? == dir && e.metadata.Some? == (dir || file)
    && (dir ==> Field8(row.value, 0, e.objectId.value) && IsDirectoryMetadata(row.value, e.metadata.value))
    && (file ==> IsFileMetadata(row.value, e.metadata.value))
  }

  /** What one row adds to a leaf's entries, for keys and values of every content and length: an
      entry record its entry, any other record nothing. */
  lemma EntriesOfRow(row: Row, rest: seq<Row>) returns (e: DirEntry)
    ensures Holds(row.key, 0, Bytes2(0x30)) ==> IsEntryOf(row, e) && Entries([row] + rest) == [e] + Entries(rest)
    ensures !Holds(row.key, 0, Bytes2(0x30)) ==> Entries([row] + rest) == Entries(rest)
  {
    hide U64At, Bytes2, U16At, Decode, IsDirectoryMetadata, IsFileMetadata, ParseMetadata, Field8;
    e := EntryOf(row);
    assert ([row] + rest)[0] == row && ([row] + rest)[1..] == rest;
    Kinds(row.key);
    Reads8(row.value, 0, U64At(row.value, 0));
    MetadataExactly(row.value, ParseMetadata(row.value, true));
    MetadataExactly(row.value, ParseMetadata(row.value, false));
  }

  lemma Kinds(key: seq<Byte>)
    ensures U16At(key, 0) == 0x30 <==> Holds(key, 0, Bytes2(0x30))
    ensures U16At(key, 2) == 1 <==> Holds(key, 2, Bytes2(1))
    ensures U16At(key, 2) == 2 <==> Holds(key, 2, Bytes2(2))
  {
    hide Bytes2, U16At;
    Reads2(key, 0, 0x30);
    Reads2(key, 2, 1);
    Reads2(key, 2, 2);
  }

  lemma EntryKeyReads(entryType: U16, name: Name)
    ensures var k := EntryKey(entryType, name);
      && |k| >= 4 && U16At(k, 0) == RECORD_TYPE_ENTRY && U16At(k, 2) == entryType
      && Decode(k[4..]) == name
  {
    var k := EntryKey(entryType, name);
    assert k[4..] == Encode(name);
    DecodeInvertsEncode(name);
  }

  /** An item's record reads back as its entry, and a record that is no entry as none. */
  lemma ItemReadsBack(item: Item)
    ensures IsEntry(AsRow(ItemRecord(item))) == !item.Skipped?
    ensures !item.Skipped? ==> EntryOf(AsRow(ItemRecord(item))) == EntryFor(item)
  {
    hide DirectoryValue, FileValue, EntryKey, ParseMetadata, U64At, Decode;
    match item
    case Dir(name, id, t, attributes, tail) =>
      EntryKeyReads(ENTRY_TYPE_DIRECTORY, name);
      DirectoryValueReads(id, t, attributes, tail);
    case File(name, size, allocatedSize, t, attributes, tail) =>
      EntryKeyReads(ENTRY_TYPE_FILE, name);
      FileValueReads(size, allocatedSize, t, attributes, tail);
    case Special(name, entryType, _) =>
      EntryKeyReads(entryType, name);
    case Skipped(_, _) =>
  }

  function ItemRecords(items: seq<Item>): seq<Record> {
    if items == [] then [] else [ItemRecord(items[0])] + ItemRecords(items[1..])
  }

  function EntriesFor(items: seq<Item>): seq<DirEntry> {
    if items == [] then []
    else (if items[0].Skipped? then [] else [EntryFor(items[0])]) + EntriesFor(items[1..])
  }

  lemma {:induction false} ItemsReadBack(items: seq<Item>)
    ensures Entries(AsRows(ItemRecords(items))) == EntriesFor(items)
  {
    hide ItemRecord, EntryFor, EntryOf, IsEntry;
    if items != [] {
      ItemReadsBack(items[0]);
      ItemsReadBack(items[1..]);
      var rows := AsRows(ItemRecords(items));
      assert rows[1..] == AsRows(ItemRecords(items[1..]));
    }
  }

  // ---- The value writers ------------------------------------------------------------------------

  const NO_STAMPS: Stamps := Stamps(0, 0, 0, 0)

  lemma ZeroWords()
    ensures Zeros(8) + Zeros(8) == Zeros(16) && Zeros(16) + Zeros(8) == Zeros(24) && Zeros(24) + Zeros(8) == Zeros(32)
    ensures Bytes8(0) == Zeros(8) && Zeros(8) + Zeros(32) + Zeros(16) == Zeros(56)
  {
  }

  lemma UnstampedValues(objectId: U64, size: U64, allocatedSize: U64, attributes: U32)
    ensures DirectoryValue(objectId, NO_STAMPS, attributes) ==
      Bytes8(objectId) + Zeros(56) + Bytes4(attributes) + Zeros(4)
    ensures FileValue(size, allocatedSize, NO_STAMPS, attributes) ==
      Zeros(32) + Bytes4(attributes) + Zeros(28) + Bytes8(size) + Bytes8(allocatedSize) + Zeros(48)
  {
    hide Bytes8, Bytes4, Zeros;
    ZeroWords();
    var z, id := Zeros(8), Bytes8(objectId);
    assert z + z + z + z == Zeros(32);
    assert id + z + z + z + z + z + Zeros(16) == id + (z + (z + z + z + z) + Zeros(16));
  }

  /** A directory value with only its object id and the directory attribute set. */
  method WriteDirValue(objectId: U64) returns (v: array<Byte>)
    ensures fresh(v) && v[..] == DirectoryValue(objectId, NO_STAMPS, 0x10)
  {
    hide Bytes8, Bytes4, Zeros, DirectoryValue;
    v := new Byte[72](_ => 0);
    Put(v, 0, Bytes8(objectId), [], []);
    ZeroGap(v, 8, 56, [], Bytes8(objectId));
    ghost var done := Bytes8(objectId) + Zeros(56);
    Put(v, 64, Bytes4(0x10), [], done);
    ZeroGap(v, 68, 4, [], done + Bytes4(0x10));
    assert v[..] == v[..72];
    UnstampedValues(objectId, 0, 0, 0x10);
  }

  /** A file value with only its archive attribute and its sizes set. */
  method WriteFileValue(size: U64) returns (v: array<Byte>)
    ensures fresh(v) && v[..] == FileValue(size, 4096, NO_STAMPS, 0x20)
  {
    hide Bytes8, Bytes4, Zeros, FileValue;
    v := new Byte[128](_ => 0);
    ZeroGap(v, 0, 32, [], []);
    ghost var done := Zeros(32);
    assert [] + Zeros(32) == Zeros(32);
    Put(v, 32, Bytes4(0x20), [], done);
    done := done + Bytes4(0x20);
    ZeroGap(v, 36, 28, [], done);
    done := done + Zeros(28);
    Put(v, 64, Bytes8(size), [], done);
    done := done + Bytes8(size);
    Put(v, 72, Bytes8(4096), [], done);
    done := done + Bytes8(4096);
    ZeroGap(v, 80, 48, [], done);
    assert v[..] == v[..128];
    UnstampedValues(0, size, 4096, 0x20);
  }

  /** A 48-byte format-v3 block reference. */
  method WriteBlockReference(child: U64) returns (v: array<Byte>)
    ensures fresh(v) && v[..] == Bytes8(child) + CopiesAndDescriptor(child)
  {
    hide Bytes8, Bytes2, Zeros;
    v := new Byte[48](_ => 0);
    ghost var pre, done := Bytes8(child), Bytes8(child);
    Put(v, 0, Bytes8(child), [], []);
    Put(v, 8, Bytes8(child), pre, []);
    Put(v, 16, Bytes8(child), pre, done);
    done := done + Bytes8(child);
    Put(v, 24, Bytes8(child), pre, done);
    done := done + Bytes8(child);
    v[34], v[35] := 2, 8;
    done := done + [0, 0, 2, 8];
    assert v[..36] == pre + done;
    Put(v, 36, Bytes2(8), pre, done);
    ZeroGap(v, 38, 10, pre, done + Bytes2(8));
    assert v[..] == v[..48];
  }

  lemma ReferenceReads(ref: Reference, child: U64)
    ensures var value := AsRow(ReferenceRecord(ref, child)).value;
      |value| >= 8 && U64At(value[0..8], 0) == child
  {
    hide Bytes8, U64At;
    assert (Bytes8(child) + ref.tail)[0..8] == Bytes8(child);
  }

  function ReferenceRecords(refs: seq<Reference>, children: seq<U64>): (rows: seq<Record>)
    requires |refs| == |children|
    ensures |rows| == |refs|
  {
    if refs == [] then []
    else [ReferenceRecord(refs[0], children[0])] + ReferenceRecords(refs[1..], children[1..])
  }

  /** A branch's rows read back as the child blocks they were written for, in order. */
  lemma {:induction false} ReferencesReadBack(refs: seq<Reference>, children: seq<U64>)
    requires |refs| == |children|
    ensures ChildBlocks(AsRows(ReferenceRecords(refs, children))) == children
  {
    hide ReferenceRecord, U64At;
    if refs != [] {
      ReferenceReads(refs[0], children[0]);
      ReferencesReadBack(refs[1..], children[1..]);
      var rows := AsRows(ReferenceRecords(refs, children));
      assert rows[1..] == AsRows(ReferenceRecords(refs[1..], children[1..]));
    }
  }

  /** What one row adds to a branch's children, for values of every length: the block its first eight
      bytes name, or nothing when it is shorter. */
  lemma ChildOfRow(row: Row, rest: seq<Row>, child: U64)
    ensures Holds(row.value, 0, Bytes8(child)) ==> ChildBlocks([row] + rest) == [child] + ChildBlocks(rest)
    ensures |row.value| < 8 ==> ChildBlocks([row] + rest) == ChildBlocks(rest)
  {
    hide Bytes8, U64At;
    assert ([row] + rest)[0] == row && ([row] + rest)[1..] == rest;
    if Holds(row.value, 0, Bytes8(child)) {
      assert row.value[0..8][0..8] == Bytes8(child);
      Reads8(row.value[0..8], 0, child);
    }
  }

  /** A branch row whose value is too short for a block number changes nothing. */
  lemma {:induction false} ShortRowsAreSkipped(a: seq<Row>, short: Row, b: seq<Row>)
    requires |short.value| < 8
    ensures ChildBlocks(a + [short] + b) == ChildBlocks(a + b)
  {
    hide U64At;
    if a == [] {
      assert ([] + [short] + b)[1..] == b && [] + b == b;
    } else {
      assert (a + [short] + b)[1..] == a[1..] + [short] + b && (a + b)[1..] == a[1..] + b;
      ShortRowsAreSkipped(a[1..], short, b);
    }
  }

  function ObjectRecords(objects: seq<(U64, U64)>): seq<Record> {
    if objects == [] then []
    else [Record(ObjectKey(objects[0].0), ObjectValue(objects[0].1))] + ObjectRecords(objects[1..])
  }

  /** The tree root listed first for an object id. */
  function RootOf(objects: seq<(U64, U64)>, objectId: U64): Option<U64> {
    if objects == [] then None
    else if objects[0].0 == objectId then Some(objects[0].1)
    else RootOf(objects[1..], objectId)
  }

  lemma ObjectReadsBack(id: U64, root: U64, objectId: U64)
    ensures RowAnswer(AsRow(Record(ObjectKey(id), ObjectValue(root))), objectId) ==
      if id == objectId then Some(root) else None
  {
    hide Bytes8, Zeros;
    assert ObjectKey(id)[8..16] == Bytes8(id);
    assert ObjectValue(root)[0x20..0x28] == Bytes8(root);
  }

  lemma {:induction false} ObjectsReadBack(objects: seq<(U64, U64)>, objectId: U64)
    ensures Lookup(AsRows(ObjectRecords(objects)), objectId) == RootOf(objects, objectId)
  {
    hide RowAnswer, ObjectKey, ObjectValue;
    if objects != [] {
      ObjectReadsBack(objects[0].0, objects[0].1, objectId);
      ObjectsReadBack(objects[1..], objectId);
      var rows := AsRows(ObjectRecords(objects));
      assert rows[1..] == AsRows(ObjectRecords(objects[1..]));
    }
  }
}
