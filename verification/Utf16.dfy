/** Loss-tolerant UTF-16LE decoding (RFC 2781, sections 2.1 and 2.2). */
module Utf16 {
  import opened Bytes

  type Scalar = c: int | 0 <= c < 0xD800 || 0xE000 <= c < 0x11_0000
  /** A Rust string, as its Unicode scalar values. */
  type Name = seq<Scalar>

  const REPLACEMENT: Scalar := 0xFFFD

  predicate High(u: U16) { 0xD800 <= u < 0xDC00 }

  predicate Low(u: U16) { 0xDC00 <= u < 0xE000 }

  /** `bytes.chunks_exact(2)`, each chunk read little-endian. */
  function Units(bytes: seq<Byte>): seq<U16> {
    if |bytes| < 2 then [] else [U16At(bytes, 0)] + Units(bytes[2..])
  }

  /** `char::decode_utf16` with every error replaced by U+FFFD. */
  function DecodeUnits(us: seq<U16>): (name: Name)
    ensures us != [] ==> name != []
  {
    if us == [] then []
    else if !High(us[0]) && !Low(us[0]) then [us[0] as Scalar] + DecodeUnits(us[1..])
    else if High(us[0]) && |us| >= 2 && Low(us[1]) then
      [0x1_0000 + (us[0] as int - 0xD800) * 0x400 + (us[1] as int - 0xDC00)] + DecodeUnits(us[2..])
    else [REPLACEMENT] + DecodeUnits(us[1..])
  }

  function Decode(bytes: seq<Byte>): Name {
    DecodeUnits(Units(bytes))
  }

  function EncodeScalar(c: Scalar): seq<U16> {
    if c < 0x1_0000 then [c]
    else [0xD800 + (c - 0x1_0000) / 0x400, 0xDC00 + (c - 0x1_0000) % 0x400]
  }

  /** `str::encode_utf16`. */
  function EncodeUnits(name: Name): seq<U16> {
    if name == [] then [] else EncodeScalar(name[0]) + EncodeUnits(name[1..])
  }

  function UnitBytes(us: seq<U16>): (b: seq<Byte>)
    ensures |b| == 2 * |us|
  {
    if us == [] then [] else Bytes2(us[0]) + UnitBytes(us[1..])
  }

  function Encode(name: Name): seq<Byte> {
    UnitBytes(EncodeUnits(name))
  }

  lemma {:induction false} UnitsOfUnitBytes(us: seq<U16>)
    ensures Units(UnitBytes(us)) == us
  {
    if us != [] {
      var b := UnitBytes(us);
      assert b[2..] == UnitBytes(us[1..]);
      UnitsOfUnitBytes(us[1..]);
    }
  }

  lemma {:induction false} DecodeUnitsInvertsEncodeUnits(name: Name)
    ensures DecodeUnits(EncodeUnits(name)) == name
  {
    if name != [] {
      var head, tail := EncodeScalar(name[0]), EncodeUnits(name[1..]);
      assert (head + tail)[|head|..] == tail;
      DecodeUnitsInvertsEncodeUnits(name[1..]);
    }
  }

  /** Decoding the UTF-16LE encoding of any Unicode string returns it. */
  lemma DecodeInvertsEncode(name: Name)
    ensures Decode(Encode(name)) == name
  {
    UnitsOfUnitBytes(EncodeUnits(name));
    DecodeUnitsInvertsEncodeUnits(name);
  }

  /** An odd trailing byte is ignored. */
  lemma OddByteIgnored(bytes: seq<Byte>, b: Byte)
    requires |bytes| % 2 == 0
    ensures Decode(bytes + [b]) == Decode(bytes)
  {
    OddByteUnits(bytes, b);
  }

  lemma {:induction false} OddByteUnits(bytes: seq<Byte>, b: Byte)
    requires |bytes| % 2 == 0
    ensures Units(bytes + [b]) == Units(bytes)
  {
    if |bytes| >= 2 {
      assert (bytes + [b])[2..] == bytes[2..] + [b];
      OddByteUnits(bytes[2..], b);
    }
  }

  /** A surrogate that is not half of a high-low pair, judged by its neighbours alone. */
  ghost predicate Unpaired(us: seq<U16>, i: nat)
    requires i < |us|
  {
    || (High(us[i]) && !(i + 1 < |us| && Low(us[i + 1])))
    || (Low(us[i]) && !(0 < i && High(us[i - 1])))
  }

  ghost predicate WellFormed(us: seq<U16>) {
    forall i :: 0 <= i < |us| ==> !Unpaired(us, i)
  }

  /** Re-encoding a decoded name gives the input back, unit for unit, except that
      each unpaired surrogate has become exactly one U+FFFD. */
  lemma {:induction false} ReencodeReplacesUnpaired(us: seq<U16>)
    ensures |EncodeUnits(DecodeUnits(us))| == |us|
    ensures forall i :: 0 <= i < |us| ==>
      EncodeUnits(DecodeUnits(us))[i] == if Unpaired(us, i) then 0xFFFD else us[i]
  {
    hide EncodeScalar, FirstScalar, DecodeUnits, EncodeUnits;
    if us == [] {
      NothingReencoded();
    } else {
      var n := if High(us[0]) && |us| >= 2 && Low(us[1]) then 2 else 1;
      var rest := us[n..];
      var back := EncodeUnits(DecodeUnits(rest));
      var head := FirstScalar(us);
      DecodeStep(us, n);
      ReencodeReplacesUnpaired(rest);
      forall i | n <= i < |us|
        ensures (EncodeScalar(head) + back)[i] == if Unpaired(us, i) then REPLACEMENT else us[i]
      {
        assert Unpaired(rest, i - n) == Unpaired(us, i);
      }
    }
  }

  lemma NothingReencoded()
    ensures EncodeUnits(DecodeUnits([])) == []
  {
  }

  function FirstScalar(us: seq<U16>): Scalar
    requires us != []
  {
    DecodeUnits(us)[0]
  }

  lemma DecodeStep(us: seq<U16>, n: nat)
    requires us != [] && n == if High(us[0]) && |us| >= 2 && Low(us[1]) then 2 else 1
    ensures EncodeUnits(DecodeUnits(us)) == EncodeScalar(FirstScalar(us)) + EncodeUnits(DecodeUnits(us[n..]))
    ensures |EncodeScalar(FirstScalar(us))| == n
    ensures forall i :: 0 <= i < n ==>
      EncodeScalar(FirstScalar(us))[i] == if Unpaired(us, i) then REPLACEMENT else us[i]
  {
    assert DecodeUnits(us)[1..] == DecodeUnits(us[n..]);
  }

  /** Re-encoding reproduces the units exactly when they were well formed. */
  lemma ReencodeExactIffWellFormed(us: seq<U16>)
    ensures EncodeUnits(DecodeUnits(us)) == us <==> WellFormed(us)
  {
    ReencodeReplacesUnpaired(us);
    if WellFormed(us) {
      assert EncodeUnits(DecodeUnits(us)) == us;
    } else {
      var i :| 0 <= i < |us| && Unpaired(us, i);
      assert EncodeUnits(DecodeUnits(us))[i] == REPLACEMENT;
    }
  }
}
