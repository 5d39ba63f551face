/** What the codec refuses: told from the numbers, octets and counts of a message, not from its functions. */
module PbRefusals {
  import opened Bytes
  import opened PbVarint
  import opened PbMessage
  import opened PbDecoding
  import opened PbFold
  import opened PbRoundTrip
  import opened PbPresence

  // Integers.

  /** The range of a signed field of so many octets. */
  predicate InSignedRange(i: int, size: nat) {
    || (size == 1 && -0x80 <= i < 0x80)
    || (size == 2 && -0x8000 <= i < 0x8000)
    || (size == 4 && -0x8000_0000 <= i < 0x8000_0000)
    || (size == 8 && -0x8000_0000_0000_0000 <= i < 0x8000_0000_0000_0000)
  }

  predicate InUnsignedRange(i: int, size: nat) {
    || (size == 1 && 0 <= i < 0x100)
    || (size == 2 && 0 <= i < 0x1_0000)
    || (size == 4 && 0 <= i < 0x1_0000_0000)
    || (size == 8 && 0 <= i < 0x1_0000_0000_0000_0000)
  }

  /** The two's complement reading of n is the one number of the signed range that is congruent to it. */
  lemma FromBitsIff(n: nat, m: nat, i: int)
    requires m >= 2 && m % 2 == 0
    ensures FromBits(n, m) == i <==> -(m as int) <= 2 * i < m && i % m == n % m
  {
    var r := n % m;
    SmallMod(r, m);
    if 2 * r >= m {
      NegativeMod(r - m, m);
    }
    if -(m as int) <= 2 * i < m {
      if i < 0 {
        NegativeMod(i, m);
      } else {
        SmallMod(i, m);
      }
    }
  }

  /** Cutting a number down to a signed field leaves it as it is exactly if it is in the field's range. */
  lemma CutIff(i: int, size: nat)
    requires IntSize(size)
    ensures FromBits(ToBits(i, Modulus(size)), Modulus(size)) == i <==> InSignedRange(i, size)
  {
    hide FromBits;
    SmallMod(ToBits(i, Modulus(size)), Modulus(size));
    FromBitsIff(ToBits(i, Modulus(size)), Modulus(size), i);
  }

  /** What integer a varint is read as, if any: a signed field takes the number of its range that is congruent to the varint
      modulo 2^32, or 2^64 if it is that wide; an unsigned one only the varint itself; a zigzag one only the number that the
      varint counts in 0, -1, 1, -2, 2. */
  predicate ReadAs(f: Field, n: nat, i: int) {
    match f.ltype
    case Varint =>
      InSignedRange(i, f.dataSize) && if f.dataSize == 8 then i % TWO_64 == n % TWO_64 else i % TWO_32 == n % TWO_32
    case Uvarint => i == n && InUnsignedRange(i, f.dataSize)
    case Svarint => InSignedRange(i, f.dataSize) && n == if i >= 0 then 2 * i else -2 * i - 1
    case _ => false
  }

  lemma UnZigZagMeaning(n: nat)
    requires n < TWO_64
    ensures UnZigZag(n) == if n % 2 == 0 then n / 2 else -(n / 2) - 1
  {
  }

  lemma CastMeaning(f: Field, n: nat, i: int)
    requires n < TWO_64
    requires f.ltype.Varint? || f.ltype.Uvarint? || f.ltype.Svarint?
    ensures var r := if f.ltype.Varint? then CastSigned(n, f.dataSize)
                     else if f.ltype.Uvarint? then CastUnsigned(n, f.dataSize)
                     else CastZigZag(UnZigZag(n), f.dataSize);
            (r == Good(Int(i)) <==> ReadAs(f, n, i)) && (r.Good? ==> r.v.Int?) && !r.Undefined?
  {
    hide FromBits, ToBits;
    if IntSize(f.dataSize) {
      if f.ltype.Varint? {
        var w := if f.dataSize == 8 then TWO_64 else TWO_32;
        var s := FromBits(n, w);
        FromBitsIff(n, w, s);
        FromBitsIff(n, w, i);
        CutIff(s, f.dataSize);
      } else if f.ltype.Svarint? {
        CutIff(UnZigZag(n), f.dataSize);
        UnZigZagMeaning(n);
      }
    }
  }

  /** A varint field is decoded to a number exactly if its varint is read as that number; any other varint is refused. */
  lemma VarintReadAs(f: Field, prior: Value, n: nat, rest: seq<Byte>, i: int)
    requires n < TWO_64
    requires f.ltype.Varint? || f.ltype.Uvarint? || f.ltype.Svarint?
    ensures var r := DecodeValue(f, prior, VarintBytes(n) + rest);
            && r.1 == rest
            && (r.0 == Good(Int(i)) <==> ReadAs(f, n, i))
            && (r.0.Good? ==> r.0.v.Int?) && !r.0.Undefined?
  {
    hide VarintBytes, DecodeVarint64, CastSigned, CastUnsigned, CastZigZag, UnZigZag, ReadAs, DecodeMessage;
    Varint64RoundTrip(n, rest);
    CastMeaning(f, n, i);
  }

  // Octets.

  /** Octets are taken exactly if they fit: beside their count, before a terminator, or as many as the field has. A field of
      fixed length also takes none, for zeros. */
  lemma OctetsTakenIff(f: Field, prior: Value, b: seq<Byte>, rest: seq<Byte>)
    requires (f.ltype.ByteArray? || f.ltype.CString? || f.ltype.FixedBytes?) && |b| < TWO_32
    ensures var r := DecodeValue(f, prior, LengthPrefixed(b) + rest).0;
            && (r.Good? <==>
                  if f.ltype.ByteArray? then |b| + 4 <= f.dataSize
                  else if f.ltype.CString? then |b| < f.dataSize && |b| < 0xffff_ffff
                  else |b| == f.dataSize || |b| == 0)
            && (r.Good? && |b| > 0 ==> r.v == Octets(b))
            && (r.Good? && |b| == 0 ==>
                  r.v.Octets? && |r.v.b| == (if f.ltype.FixedBytes? then f.dataSize else 0) && ZeroOctets(r.v.b))
            && !r.Undefined?
  {
    hide VarintBytes, DecodeVarint32, DecodeMessage;
    assert LengthPrefixed(b) + rest == VarintBytes(|b|) + (b + rest);
    Varint32RoundTrip(|b|, b + rest);
    assert (b + rest)[..|b|] == b;
  }

  /** No proper prefix of the encoding of a value decodes. */
  lemma PrefixRefused(f: Field, v: Value, n: nat)
    requires FieldOk(f) && ValueOk(f, v)
    ensures EncodeValue(f, v).Some?
    ensures n < |EncodeValue(f, v).value| ==> !DecodeValue(f, DefaultValue(f), EncodeValue(f, v).value[..n]).0.Good?
  {
    hide EncodeValue, DecodeValue, ValueOk, FieldOk, DefaultValue, NormalValue;
    ValueRoundTrip(f, v, []);
    var e := EncodeValue(f, v).value;
    assert e + [] == e;
    if n < |e| && DecodeValue(f, DefaultValue(f), e[..n]).0.Good? {
      assert e[..n] + e[n..] == e;
      ValueExtends(f, DefaultValue(f), e[..n], e[n..]);
      assert false;
    }
  }

  // Arrays.

  lemma {:induction false} ItemsConcat(f: Field, xs: seq<Value>, ys: seq<Value>)
    requires EncodeItems(f, xs, []).Some? && EncodeItems(f, ys, []).Some?
    ensures EncodeItems(f, xs + ys, []) == Some(EncodeItems(f, xs, []).value + EncodeItems(f, ys, []).value)
    decreases |ys|
  {
    hide EncodeValue;
    if |ys| == 0 {
      assert xs + ys == xs;
      var e := EncodeItems(f, xs, []).value;
      assert e + [] == e;
    } else {
      var n := |ys| - 1;
      ItemsConcat(f, xs, ys[..n]);
      assert (xs + ys)[..|xs + ys| - 1] == xs + ys[..n];
      var a, b, last := EncodeItems(f, xs, []).value, EncodeItems(f, ys[..n], []).value, EncodeValue(f, ys[n]).value;
      assert (a + b) + [] + last == a + (b + [] + last);
    }
  }

  lemma {:induction false} ItemsEncode(f: Field, items: seq<Value>)
    requires FieldOk(f) && ItemsOk(f, items)
    ensures EncodeItems(f, items, []).Some?
    ensures |items| > 0 ==> |EncodeItems(f, items, []).value| > 0
    decreases |items|
  {
    hide EncodeValue, FieldOk, ValueOk, ItemsOk;
    if |items| > 0 {
      ItemsInit(f, items);
      ItemsEncode(f, items[..|items| - 1]);
      NoValueIsEmpty(f, items[|items| - 1]);
    }
  }

  lemma {:induction false} ItemsAppended(f: Field, have: seq<Value>, items: seq<Value>)
    requires FieldOk(f) && ItemsOk(f, items) && |have| + |items| <= f.arraySize
    ensures EncodeItems(f, items, []).Some?
    ensures DecodeItems(f, have, EncodeItems(f, items, []).value) == Good(have + NormalItems(f, items))
    decreases |items|
  {
    hide DecodeValue, EncodeValue, FieldOk, ValueOk, DefaultValue, NormalValue, ItemsOk;
    ItemsEncode(f, items);
    if |items| == 0 {
      assert have + [] == have;
    } else {
      hide DecodeItems;
      var n := |items| - 1;
      ItemsInit(f, items);
      ItemsAppended(f, have, items[..n]);
      OneItem(f, have + NormalItems(f, items[..n]), items[n]);
      var front, last := EncodeItems(f, items[..n], []).value, EncodeValue(f, items[n]).value;
      ItemsFold(f, have, front, last);
      assert front + [] + last == front + last;
      assert have + NormalItems(f, items[..n]) + [NormalValue(f, items[n])] == have + NormalItems(f, items);
    }
  }

  /** A packed array is taken exactly if its items fit behind those that are there already. */
  lemma PackedTakenIff(f: Field, have: seq<Value>, items: seq<Value>)
    requires FieldOk(f) && ItemsOk(f, items) && |have| <= f.arraySize
    ensures EncodeItems(f, items, []).Some?
    ensures DecodeItems(f, have, EncodeItems(f, items, []).value)
            == if |have| + |items| <= f.arraySize then Good(have + NormalItems(f, items)) else Bad
  {
    hide DecodeValue, EncodeValue, FieldOk, ValueOk, DefaultValue, NormalValue, ItemsOk, EncodeItems, NormalItems;
    ItemsEncode(f, items);
    if |have| + |items| <= f.arraySize {
      ItemsAppended(f, have, items);
    } else {
      var k := f.arraySize - |have|;
      ItemsSplit(f, items, k);
      assert items == items[..k] + items[k..];
      ItemsEncode(f, items[..k]);
      ItemsEncode(f, items[k..]);
      ItemsConcat(f, items[..k], items[k..]);
      ItemsAppended(f, have, items[..k]);
      ItemsFold(f, have, EncodeItems(f, items[..k], []).value, EncodeItems(f, items[k..], []).value);
    }
  }

  lemma ItemsSplit(f: Field, items: seq<Value>, k: nat)
    requires ItemsOk(f, items) && k <= |items|
    ensures ItemsOk(f, items[..k]) && ItemsOk(f, items[k..])
  {
    hide ValueOk;
  }

  /** An item by itself is taken exactly if there is room for one more. */
  lemma ItemTakenIff(f: Field, items: seq<Value>, v: Value, wireType: nat)
    requires FieldOk(f) && ValueOk(f, v) && f.htype.Repeated? && !(wireType == WT_STRING && Packable(f.ltype))
    ensures EncodeValue(f, v).Some?
    ensures DecodeSlot(f, Many(items), wireType, EncodeValue(f, v).value).0
            == if |items| < f.arraySize then Good(Many(items + [NormalValue(f, v)])) else Bad
  {
    hide DecodeValue, EncodeValue, FieldOk, ValueOk, DefaultValue, NormalValue, DecodeItems, Substream;
    ValueRoundTrip(f, v, []);
    var e := EncodeValue(f, v).value;
    assert e + [] == e;
  }

  // The encoder.

  /** A value of the field's kind and within its size. */
  predicate Encodable(f: Field, v: Value)
    decreases f, 0
  {
    match f.ltype
    case Varint => v.Int? && f.dataSize in {1, 2, 4, 8}
    case Uvarint => v.Int? && f.dataSize in {1, 2, 4, 8}
    case Svarint => v.Int? && f.dataSize in {1, 2, 4, 8} && InSignedRange(v.i, 8)
    case Fixed32 => v.Int?
    case Fixed64 => v.Int?
    case ByteArray => v.Octets? && |v.b| + 4 <= f.dataSize
    case CString => v.Octets?
    case FixedBytes => v.Octets? && |v.b| == f.dataSize
    case Submessage => v.Msg? && AllEncodable(f.sub, v.slots)
  }

  /** Every value of the slot that is to be written can be, and an array is no longer than it may be. */
  predicate SlotEncodable(f: Field, s: Slot)
    decreases f, 1
  {
    match f.htype
    case Required => s.One? && Encodable(f, s.v)
    case Optional =>
      if f.hasFlag then s.Flagged? && (s.has ==> Encodable(f, s.v)) else s.One? && (IsZero(f, s.v) || Encodable(f, s.v))
    case Repeated => s.Many? && |s.items| <= f.arraySize && forall i :: 0 <= i < |s.items| ==> Encodable(f, s.items[i])
    case Oneof(_) => s.Alt? && (s.chosen.Some? ==> Encodable(f, s.chosen.value))
  }

  predicate AllEncodable(fields: seq<Field>, slots: seq<Slot>)
    decreases fields, 2
  {
    |fields| == |slots| && forall i :: 0 <= i < |fields| ==> SlotEncodable(fields[i], slots[i])
  }

  lemma {:induction false} ValueEncodesIff(f: Field, v: Value)
    ensures EncodeValue(f, v).Some? <==> Encodable(f, v)
    decreases f, 0
  {
    hide EncodeMessage, AllEncodable, VarintBytes, ToBits, ZigZag, LittleEndian, LengthPrefixed, Terminated;
    if f.ltype.Submessage? && v.Msg? {
      MessageEncodesIff(f.sub, v.slots);
    }
  }

  lemma {:induction false} ItemsEncodeIff(f: Field, items: seq<Value>, prefix: seq<Byte>)
    ensures EncodeItems(f, items, prefix).Some? <==> forall i :: 0 <= i < |items| ==> Encodable(f, items[i])
    decreases f, 1, |items|
  {
    hide EncodeValue, Encodable;
    if |items| > 0 {
      var n := |items| - 1;
      ItemsEncodeIff(f, items[..n], prefix);
      ValueEncodesIff(f, items[n]);
      assert forall i :: 0 <= i < n ==> items[..n][i] == items[i];
    }
  }

  lemma SlotEncodesIff(f: Field, s: Slot)
    ensures EncodeSlot(f, s).Some? <==> SlotEncodable(f, s)
    decreases f, 2
  {
    hide EncodeValue, Encodable, EncodeItems, LooksAbsent, IsZero;
    match s
    case One(v) =>
      ValueEncodesIff(f, v);
      AbsentIffZero(f, v);
    case Flagged(_, v) => ValueEncodesIff(f, v);
    case Many(items) =>
      ItemsEncodeIff(f, items, []);
      ItemsEncodeIff(f, items, FieldTag(f));
    case Alt(chosen) => if chosen.Some? { ValueEncodesIff(f, chosen.value); }
  }

  /** Exactly the messages whose values have the kinds and sizes that the field array allows are encoded. */
  lemma {:induction false} MessageEncodesIff(fields: seq<Field>, slots: seq<Slot>)
    ensures EncodeMessage(fields, slots).Some? <==> AllEncodable(fields, slots)
    decreases fields, 3
  {
    hide EncodeSlot, SlotEncodable;
    if |fields| == |slots| && |fields| > 0 {
      SlotEncodesIff(fields[0], slots[0]);
      MessageEncodesIff(fields[1..], slots[1..]);
      assert forall i :: 0 < i < |fields| ==> fields[i] == fields[1..][i - 1] && slots[i] == slots[1..][i - 1];
      if AllEncodable(fields, slots) {
        forall i | 0 <= i < |fields[1..]| ensures SlotEncodable(fields[1..][i], slots[1..][i]) {
          assert SlotEncodable(fields[i + 1], slots[i + 1]);
        }
      }
    }
  }

  // Unknown fields.

  /** Octets that continue to the last one, which does not. */
  predicate OneVarint(s: seq<Byte>) {
    |s| > 0 && s[|s| - 1] < 128 && forall k :: 0 <= k < |s| - 1 ==> s[k] >= 128
  }

  lemma {:induction false} SkipVarintIff(s: seq<Byte>)
    ensures SkipVarint(s) == Some([]) <==> OneVarint(s)
    decreases |s|
  {
    if |s| > 0 && s[0] >= 128 {
      SkipVarintIff(s[1..]);
      assert forall k :: 0 < k < |s| ==> s[k] == s[1..][k - 1];
      if OneVarint(s[1..]) {
        forall k | 0 <= k < |s| - 1 ensures s[k] >= 128 {
          if k > 0 { assert s[1..][k - 1] >= 128; }
        }
      }
    }
  }

  /** What a record of an unknown field is made of: one varint of any length, eight octets, four octets, or a length and as
      many octets. There are no other wire types. */
  lemma SkipsExactly(wireType: nat, payload: seq<Byte>)
    ensures Skip(wireType, payload) == Some([]) <==>
            || (wireType == 0 && OneVarint(payload))
            || (wireType == 1 && |payload| == 8)
            || (wireType == 2 && DecodeVarint32(payload).0 == Some(|DecodeVarint32(payload).1|))
            || (wireType == 5 && |payload| == 4)
  {
    hide SkipVarint, DecodeVarint32, OneVarint;
    SkipVarintIff(payload);
  }
}
