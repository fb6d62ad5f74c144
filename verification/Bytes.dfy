/** Machine integers, checked arithmetic and the little-endian readers.
    Bytes and words are bounded integers; `usize` is taken as 64 bits wide. */
module Bytes {
  import opened Wrappers

  const USIZE_MAX: nat := 0xFFFF_FFFF_FFFF_FFFF
  /** No Rust slice is longer than `isize::MAX` bytes. */
  const MAX_BUFFER: nat := 0x7FFF_FFFF_FFFF_FFFF

  type Byte = b: int | 0 <= b < 0x100
  type U16 = n: int | 0 <= n < 0x1_0000
  type U32 = n: int | 0 <= n < 0x1_0000_0000
  type U64 = n: int | 0 <= n < 0x1_0000_0000_0000_0000
  type Buffer = s: seq<Byte> | |s| <= MAX_BUFFER

  function CheckedAdd(a: nat, b: nat): Option<nat> {
    if a + b <= USIZE_MAX then Some(a + b) else None
  }

  function CheckedMul(a: nat, b: nat): Option<nat> {
    if a * b <= USIZE_MAX then Some(a * b) else None
  }

  function CheckedSub(a: nat, b: nat): Option<nat> {
    if b <= a then Some(a - b) else None
  }

  function SaturatingAdd(a: nat, b: nat): nat {
    if a + b <= USIZE_MAX then a + b else USIZE_MAX
  }

  function SaturatingSub(a: nat, b: nat): nat {
    if b <= a then a - b else 0
  }

  function Min(a: nat, b: nat): nat {
    if a <= b then a else b
  }

  /** `slice.get(lo..hi)`. */
  function Get(d: seq<Byte>, lo: nat, hi: nat): Option<seq<Byte>> {
    if lo <= hi <= |d| then Some(d[lo..hi]) else None
  }

  /** The readers yield 0 out of range. `off + width` is an unchecked addition in
      the source, so a caller must not let it overflow. */
  function U16At(d: seq<Byte>, off: nat): U16
    requires off + 2 <= USIZE_MAX
  {
    if off + 2 <= |d| then d[off] as int + 0x100 * (d[off + 1] as int) else 0
  }

  function U32At(d: seq<Byte>, off: nat): U32
    requires off + 4 <= USIZE_MAX
  {
    if off + 4 <= |d| then U16At(d, off) as int + 0x1_0000 * (U16At(d, off + 2) as int) else 0
  }

  function U64At(d: seq<Byte>, off: nat): U64
    requires off + 8 <= USIZE_MAX
  {
    if off + 8 <= |d| then U32At(d, off) as int + 0x1_0000_0000 * (U32At(d, off + 4) as int) else 0
  }

  /** `to_le_bytes`; each inverts its reader. */
  function Bytes2(v: U16): (s: seq<Byte>)
    ensures |s| == 2 && U16At(s, 0) == v
  {
    [v % 0x100, v / 0x100]
  }

  function Bytes4(v: U32): (s: seq<Byte>)
    ensures |s| == 4 && U32At(s, 0) == v
  {
    Bytes2(v % 0x1_0000) + Bytes2(v / 0x1_0000)
  }

  function Bytes8(v: U64): (s: seq<Byte>)
    ensures |s| == 8 && U64At(s, 0) == v
  {
    var lo, hi := Bytes4(v % 0x1_0000_0000), Bytes4(v / 0x1_0000_0000);
    ReadShift4(lo + hi, 0, lo);
    ReadShift4(lo + hi, 4, hi);
    lo + hi
  }

  lemma ReadShift4(d: seq<Byte>, at: nat, b: seq<Byte>)
    requires at + 4 <= |d| && at + 4 <= USIZE_MAX && |b| == 4
    requires d[at] == b[0] && d[at + 1] == b[1] && d[at + 2] == b[2] && d[at + 3] == b[3]
    ensures U32At(d, at) == U32At(b, 0)
  {
  }

  /** `d` carries the bytes `b` at offset `at`. */
  ghost predicate Holds(d: seq<Byte>, at: nat, b: seq<Byte>) {
    at + |b| <= |d| && d[at..at + |b|] == b
  }

  lemma SliceOfSlice(d: seq<Byte>, a: nat, b: nat, lo: nat, hi: nat)
    requires a <= b <= |d| && lo <= hi <= b - a
    ensures d[a..b][lo..hi] == d[a + lo..a + hi]
  {
    forall k | 0 <= k < hi - lo
      ensures d[a..b][lo..hi][k] == d[a + lo..a + hi][k]
    {
      assert d[a..b][lo + k] == d[a + lo + k];
    }
  }

  lemma HoldsPart(d: seq<Byte>, at: nat, b: seq<Byte>, lo: nat, hi: nat)
    requires Holds(d, at, b) && lo <= hi <= |b|
    ensures Holds(d, at + lo, b[lo..hi])
  {
    SliceOfSlice(d, at, at + |b|, lo, hi);
  }

  lemma HoldsConcat(d: seq<Byte>, at: nat, a: seq<Byte>, b: seq<Byte>)
    requires Holds(d, at, a + b)
    ensures Holds(d, at, a) && Holds(d, at + |a|, b)
  {
    HoldsPart(d, at, a + b, 0, |a|);
    HoldsPart(d, at, a + b, |a|, |a + b|);
    assert (a + b)[0..|a|] == a && (a + b)[|a|..|a + b|] == b;
  }

  /** Reading where a word was written gives the word back. */
  lemma ReadHeld2(d: seq<Byte>, at: nat, v: U16)
    requires Holds(d, at, Bytes2(v)) && at + 2 <= USIZE_MAX
    ensures U16At(d, at) == v
  {
    assert d[at] == d[at..at + 2][0] && d[at + 1] == d[at..at + 2][1];
  }

  lemma ReadHeld4(d: seq<Byte>, at: nat, v: U32)
    requires Holds(d, at, Bytes4(v)) && at + 4 <= USIZE_MAX
    ensures U32At(d, at) == v
  {
    var b := Bytes4(v);
    assert d[at..at + 4] == b;
    ReadShift4(d, at, b);
  }

  lemma ReadHeld8(d: seq<Byte>, at: nat, v: U64)
    requires Holds(d, at, Bytes8(v)) && at + 8 <= USIZE_MAX
    ensures U64At(d, at) == v
  {
    var b := Bytes8(v);
    ReadShift4(d, at, b[..4]);
    ReadShift4(d, at + 4, b[4..]);
    ReadShift4(b, 0, b[..4]);
    ReadShift4(b, 4, b[4..]);
  }

  /** What a reader must return: the word held at `off`, or 0 when the buffer ends before it does. */
  ghost predicate Field2(d: seq<Byte>, off: nat, v: U16) {
    if off + 2 <= |d| then d[off..off + 2] == Bytes2(v) else v == 0
  }

  ghost predicate Field4(d: seq<Byte>, off: nat, v: U32) {
    if off + 4 <= |d| then d[off..off + 4] == Bytes4(v) else v == 0
  }

  ghost predicate Field8(d: seq<Byte>, off: nat, v: U64) {
    if off + 8 <= |d| then d[off..off + 8] == Bytes8(v) else v == 0
  }

  lemma Reads2(d: seq<Byte>, off: nat, v: U16)
    requires off + 2 <= USIZE_MAX
    ensures U16At(d, off) == v <==> Field2(d, off, v)
  {
    if off + 2 <= |d| { Written2(d[off], d[off + 1]); }
  }

  lemma Written2(lo: Byte, hi: Byte)
    ensures Bytes2(lo + 0x100 * hi) == [lo, hi]
  {
  }

  lemma Reads4(d: seq<Byte>, off: nat, v: U32)
    requires off + 4 <= USIZE_MAX
    ensures U32At(d, off) == v <==> Field4(d, off, v)
  {
    hide U16At, Bytes2;
    if off + 4 <= |d| {
      var lo, hi := U16At(d, off), U16At(d, off + 2);
      Reads2(d, off, lo);
      Reads2(d, off + 2, hi);
      assert d[off..off + 4] == d[off..off + 2] + d[off + 2..off + 4];
      Written4(lo, hi);
      if Holds(d, off, Bytes4(v)) { ReadHeld4(d, off, v); }
    }
  }

  lemma Quarters(lo: U16, hi: U16)
    ensures (lo + 0x1_0000 * hi) % 0x1_0000 == lo && (lo + 0x1_0000 * hi) / 0x1_0000 == hi
  {
  }

  lemma Written4(lo: U16, hi: U16)
    ensures Bytes4(lo + 0x1_0000 * hi) == Bytes2(lo) + Bytes2(hi)
  {
    hide Bytes2, U32At, U16At;
    Quarters(lo, hi);
  }

  /** The readers are exact: each returns the word at its offset, or 0 out of range, and no other. */
  lemma Reads8(d: seq<Byte>, off: nat, v: U64)
    requires off + 8 <= USIZE_MAX
    ensures U64At(d, off) == v <==> Field8(d, off, v)
  {
    hide U32At, Bytes4;
    if off + 8 <= |d| {
      var lo, hi := U32At(d, off), U32At(d, off + 4);
      Reads4(d, off, lo);
      Reads4(d, off + 4, hi);
      assert d[off..off + 8] == d[off..off + 4] + d[off + 4..off + 8];
      Written8(lo, hi);
      if Holds(d, off, Bytes8(v)) { ReadHeld8(d, off, v); }
    }
  }

  lemma Halves(lo: U32, hi: U32)
    ensures (lo + 0x1_0000_0000 * hi) % 0x1_0000_0000 == lo && (lo + 0x1_0000_0000 * hi) / 0x1_0000_0000 == hi
  {
  }

  lemma Written8(lo: U32, hi: U32)
    ensures Bytes8(lo + 0x1_0000_0000 * hi) == Bytes4(lo) + Bytes4(hi)
  {
    hide Bytes4, U64At, U32At;
    Halves(lo, hi);
  }

  /** A read inside a slice is the same read, shifted, in the whole. */
  lemma ReadInSlice(d: seq<Byte>, lo: nat, hi: nat, off: nat)
    requires lo <= hi <= |d| <= MAX_BUFFER && off + 8 <= hi - lo
    ensures U64At(d[lo..hi], off) == U64At(d, lo + off)
  {
    var b := d[lo + off..lo + off + 8];
    ReadShift4(d, lo + off, b[..4]);
    ReadShift4(d, lo + off + 4, b[4..]);
    ReadShift4(d[lo..hi], off, b[..4]);
    ReadShift4(d[lo..hi], off + 4, b[4..]);
  }

  /** Extending a buffer keeps every read that was in range. */
  lemma U16Extends(d: seq<Byte>, e: seq<Byte>, off: nat)
    requires d <= e && off + 2 <= |d| && off + 2 <= USIZE_MAX
    ensures U16At(e, off) == U16At(d, off)
  {
  }

  lemma U32Extends(d: seq<Byte>, e: seq<Byte>, off: nat)
    requires d <= e && off + 4 <= |d| && off + 4 <= USIZE_MAX
    ensures U32At(e, off) == U32At(d, off)
  {
  }
}
