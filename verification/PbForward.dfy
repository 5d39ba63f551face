/** Compatibility with older programs: whatever the encoder writes for fields that a program does not know, its decoder skips
    exactly, so the wire types that the encoder announces are right. */
module PbForward {
  import opened Bytes
  import opened PbVarint
  import opened PbMessage
  import opened PbDecoding
  import opened PbFold
  import opened PbRoundTrip
  import opened PbRefusals

  lemma {:induction false} VarintSkipped(n: nat)
    ensures OneVarint(VarintBytes(n))
    decreases n
  {
    if n >= 128 {
      VarintSkipped(n / 128);
      var s, tail := VarintBytes(n), VarintBytes(n / 128);
      assert s[1..] == tail;
      forall k | 0 <= k < |s| - 1 ensures s[k] >= 128 {
        if k > 0 { assert s[k] == tail[k - 1]; }
      }
      assert s[|s| - 1] == tail[|tail| - 1];
    }
  }

  // Numbers on the wire.

  /** Groups of seven bits, the lowest first. */
  function Base128(s: seq<Byte>): (n: nat) {
    if |s| == 0 then 0 else s[0] % 128 + 128 * Base128(s[1..])
  }

  /** A varint holds its number in groups of seven bits, the lowest first, in no more octets than it needs. */
  lemma {:induction false} VarintOnWire(n: nat)
    ensures var s := VarintBytes(n);
            Base128(s) == n && OneVarint(s) && (|s| > 1 ==> s[|s| - 1] != 0)
    decreases n
  {
    VarintSkipped(n);
    if n >= 128 {
      VarintOnWire(n / 128);
      assert VarintBytes(n)[1..] == VarintBytes(n / 128);
    } else {
      assert [n][1..] == [];
    }
  }

  lemma Fixed32OnWire(n: nat)
    requires n < TWO_32
    ensures var s := LittleEndian(n, 4); s[0] + 0x100 * (s[1] as int) + 0x1_0000 * (s[2] as int) + 0x100_0000 * (s[3] as int) == n
  {
    FourOctets(n);
  }

  lemma FourOctets(n: nat)
    ensures LittleEndian(n, 4) == [n % 256, n / 256 % 256, n / 256 / 256 % 256, n / 256 / 256 / 256 % 256]
  {
    assert LittleEndian(n, 4) == [n % 256] + LittleEndian(n / 256, 3);
    assert LittleEndian(n / 256, 3) == [n / 256 % 256] + LittleEndian(n / 256 / 256, 2);
    assert LittleEndian(n / 256 / 256, 2) == [n / 256 / 256 % 256] + LittleEndian(n / 256 / 256 / 256, 1);
    assert LittleEndian(n / 256 / 256 / 256, 1) == [n / 256 / 256 / 256 % 256] + LittleEndian(n / 256 / 256 / 256 / 256, 0);
  }

  /** Which number stands for an integer: a negative one counts from 2^64 down, whatever the width of its field, or in
      zigzag fields alternates with the positive ones. */
  lemma IntegersOnWire(f: Field, i: int)
    requires FieldOk(f) && ValueOk(f, Int(i)) && (f.ltype.Varint? || f.ltype.Uvarint? || f.ltype.Svarint?)
    ensures var n := if f.ltype.Svarint? then (if i >= 0 then 2 * i else -2 * i - 1)
                     else if i >= 0 then i else i + 0x1_0000_0000_0000_0000;
            n >= 0 && EncodeValue(f, Int(i)) == Some(VarintBytes(n))
  {
    hide VarintBytes;
    if f.ltype.Svarint? {
      ZigZagRoundTrip(i);
      UnZigZagMeaning(ZigZag(i));
    } else if i < 0 {
      NegativeMod(i, TWO_64);
    } else {
      SmallMod(i, TWO_64);
    }
  }

  /** A value is skipped exactly, by the wire type of its field. */
  lemma ValueSkipped(f: Field, v: Value)
    requires FieldOk(f) && ValueOk(f, v)
    ensures EncodeValue(f, v).Some? && Skip(WireType(f.ltype), EncodeValue(f, v).value) == Some([])
  {
    hide VarintBytes, OneVarint, DecodeVarint32, SkipVarint, EncodeMessage, Skip, LittleEndian, ToBits, ZigZag, LengthPrefixed;
    ValueRoundTrip(f, v, []);
    var e := EncodeValue(f, v).value;
    SkipsExactly(WireType(f.ltype), e);
    match f.ltype
    case Varint => VarintSkipped(ToBits(v.i, TWO_64));
    case Uvarint => VarintSkipped(ToBits(v.i, TWO_64));
    case Svarint => VarintSkipped(ZigZag(v.i));
    case Fixed32 =>
    case Fixed64 =>
    case ByteArray => PrefixedSkipped(v.b);
    case FixedBytes => PrefixedSkipped(v.b);
    case CString => PrefixedSkipped(Terminated(v.b, f.dataSize));
    case Submessage => PrefixedSkipped(EncodeMessage(f.sub, v.slots).value);
  }

  lemma PrefixedSkipped(b: seq<Byte>)
    requires |b| < TWO_32
    ensures DecodeVarint32(LengthPrefixed(b)) == (Some(|b|), b)
    ensures Skip(WT_STRING, LengthPrefixed(b)) == Some([])
  {
    hide VarintBytes, DecodeVarint32;
    Varint32RoundTrip(|b|, b);
    SkipsExactly(WT_STRING, LengthPrefixed(b));
  }

  /** The program knows none of the fields. */
  predicate Unknown(known: seq<Field>, f: Field) {
    Find(known, f.tag) == |known|
  }

  lemma RecordSkipped(known: seq<Field>, st: State, f: Field, wireType: nat, payload: seq<Byte>, b: seq<Byte>)
    requires |st.slots| == |known| && Unknown(known, f) && 0 < f.tag < 0x2000_0000
    requires wireType < 8 && Skip(wireType, payload) == Some([])
    ensures DecodeRecords(known, st, EncodeTag(f.tag, wireType) + payload + b) == DecodeRecords(known, st, b)
  {
    UnknownRecordSkipped(known, st, f.tag, wireType, payload, b);
  }

  lemma TaggedSkipped(known: seq<Field>, st: State, f: Field, v: Value, b: seq<Byte>)
    requires |st.slots| == |known| && Unknown(known, f) && FieldOk(f) && ValueOk(f, v)
    ensures EncodeTagged(f, v).Some?
    ensures DecodeRecords(known, st, EncodeTagged(f, v).value + b) == DecodeRecords(known, st, b)
  {
    hide EncodeValue, ValueOk, Skip, DecodeRecords, EncodeTag, Find;
    ValueSkipped(f, v);
    RecordSkipped(known, st, f, WireType(f.ltype), EncodeValue(f, v).value, b);
  }

  lemma {:induction false} ItemsSkipped(known: seq<Field>, st: State, f: Field, items: seq<Value>, b: seq<Byte>)
    requires |st.slots| == |known| && Unknown(known, f) && FieldOk(f) && ItemsOk(f, items)
    ensures EncodeItems(f, items, FieldTag(f)).Some?
    ensures DecodeRecords(known, st, EncodeItems(f, items, FieldTag(f)).value + b) == DecodeRecords(known, st, b)
    decreases |items|
  {
    hide EncodeValue, ValueOk, FieldOk, Skip, DecodeRecords, FieldTag, Find, ItemsOk;
    if |items| == 0 {
      assert [] + b == b;
    } else {
      var n := |items| - 1;
      ItemsInit(f, items);
      TaggedSkipped(known, st, f, items[n], b);
      var last := EncodeTagged(f, items[n]).value;
      ItemsSkipped(known, st, f, items[..n], last + b);
      var front := EncodeItems(f, items[..n], FieldTag(f)).value;
      assert front + FieldTag(f) + EncodeValue(f, items[n]).value + b == front + (last + b);
    }
  }

  lemma ArraySkipped(known: seq<Field>, st: State, f: Field, items: seq<Value>, b: seq<Byte>)
    requires |st.slots| == |known| && Unknown(known, f) && FieldOk(f) && f.htype.Repeated? && SlotOk(f, Many(items))
    ensures EncodeArray(f, items).Some?
    ensures DecodeRecords(known, st, EncodeArray(f, items).value + b) == DecodeRecords(known, st, b)
  {
    hide ItemsOk, EncodeItems, FieldOk, Skip, DecodeRecords, EncodeTag, Find, LengthPrefixed;
    if |items| == 0 {
      assert [] + b == b;
    } else if Packable(f.ltype) {
      ItemsEncode(f, items);
      var e := EncodeItems(f, items, []).value;
      PrefixedSkipped(e);
      assert 0 < f.tag < 0x2000_0000 by { TagInRange(f); }
      RecordSkipped(known, st, f, WT_STRING, LengthPrefixed(e), b);
    } else {
      ItemsSkipped(known, st, f, items, b);
    }
  }

  lemma TagInRange(f: Field)
    requires FieldOk(f)
    ensures 0 < f.tag < 0x2000_0000
  {
  }

  lemma SlotSkipped(known: seq<Field>, st: State, f: Field, s: Slot, b: seq<Byte>)
    requires |st.slots| == |known| && Unknown(known, f) && FieldOk(f) && SlotOk(f, s)
    ensures EncodeSlot(f, s).Some?
    ensures DecodeRecords(known, st, EncodeSlot(f, s).value + b) == DecodeRecords(known, st, b)
  {
    hide EncodeTagged, EncodeArray, ValueOk, FieldOk, DecodeRecords, LooksAbsent, Unknown, ItemsOk, EncodeItems, Fits;
    assert [] + b == b;
    match s
    case One(v) => TaggedSkipped(known, st, f, v, b);
    case Flagged(has, v) => if has { TaggedSkipped(known, st, f, v, b); }
    case Many(items) => ArraySkipped(known, st, f, items, b);
    case Alt(chosen) => if chosen.Some? { TaggedSkipped(known, st, f, chosen.value, b); }
  }

  /** A message of which the decoder knows no field at all changes nothing in what follows. */
  lemma {:induction false} FieldsSkipped(known: seq<Field>, st: State, fields: seq<Field>, slots: seq<Slot>, b: seq<Byte>)
    requires |st.slots| == |known| && |fields| == |slots|
    requires forall i :: 0 <= i < |fields| ==> Unknown(known, fields[i]) && FieldOk(fields[i]) && SlotOk(fields[i], slots[i])
    ensures EncodeMessage(fields, slots).Some?
    ensures DecodeRecords(known, st, EncodeMessage(fields, slots).value + b) == DecodeRecords(known, st, b)
    decreases |fields|
  {
    hide EncodeSlot, SlotOk, FieldOk, DecodeRecords, Unknown;
    if |fields| == 0 {
      assert [] + b == b;
    } else {
      FieldsSkipped(known, st, fields[1..], slots[1..], b);
      var rest := EncodeMessage(fields[1..], slots[1..]).value;
      SlotSkipped(known, st, fields[0], slots[0], rest + b);
      assert EncodeSlot(fields[0], slots[0]).value + rest + b == EncodeSlot(fields[0], slots[0]).value + (rest + b);
    }
  }

  /** The encoding of a message can stand anywhere between records of another one that has none of its tags: what is decoded
      is the same without it. */
  lemma ForeignMessageIgnored(known: seq<Field>, into: seq<Slot>, a: seq<Byte>, fields: seq<Field>, slots: seq<Slot>, b: seq<Byte>)
    requires |into| == |known| && WellFormed(fields) && MessageOk(fields, slots)
    requires forall i :: 0 <= i < |fields| ==> Unknown(known, fields[i])
    requires DecodeRecords(known, State(into, {}), a).RanOut?
    ensures EncodeMessage(fields, slots).Some?
    ensures DecodeMessage(known, into, a + (EncodeMessage(fields, slots).value + b)) == DecodeMessage(known, into, a + b)
  {
    hide DecodeRecords, EncodeMessage, SlotOk, FieldOk, Unknown, Checked, OneofsOk, DistinctTags;
    var st := DecodeRecords(known, State(into, {}), a).st;
    FieldsSkipped(known, st, fields, slots, b);
    RecordsFold(known, State(into, {}), a, EncodeMessage(fields, slots).value + b);
    RecordsFold(known, State(into, {}), a, b);
  }
}
