/** Which values the encoder leaves out, told from the values themselves: a singular field without a has_ flag is absent
    exactly if it is zero. */
module PbPresence {
  import opened Bytes
  import opened PbVarint
  import opened PbMessage
  import opened PbDecoding
  import opened PbRoundTrip
  import opened PbLimits

  /** What counts as zero for each type. An array counts by its first item alone. */
  predicate IsZero(f: Field, v: Value)
    decreases f, 0
  {
    match f.ltype
    case Varint => v == Int(0)
    case Uvarint => v == Int(0)
    case Svarint => v == Int(0)
    case Fixed32 => v == Int(0)
    case Fixed64 => v == Int(0)
    case ByteArray => v == Octets([])
    case CString => v.Octets? && (v.b == [] || v.b[0] == 0)
    case FixedBytes => f.dataSize == 0
    case Submessage =>
      v.Msg? && forall i :: 0 <= i < |f.sub| && i < |v.slots| ==> AllZero(f.sub[i], Counting(v.slots[i]))
  }

  /** The values of a slot that count: at most one. */
  function Counting(s: Slot): seq<Value> {
    match s
    case One(v) => [v]
    case Flagged(_, v) => [v]
    case Many(items) => if |items| == 0 then [] else [items[0]]
    case Alt(chosen) => if chosen.Some? then [chosen.value] else []
  }

  predicate AllZero(f: Field, vs: seq<Value>)
    decreases f, 1
  {
    forall k :: 0 <= k < |vs| ==> IsZero(f, vs[k])
  }

  lemma {:induction false} AbsentIffZero(f: Field, v: Value)
    ensures LooksAbsent(f, v) <==> IsZero(f, v)
    decreases f, 0
  {
    if f.ltype.Submessage? && v.Msg? {
      AllAbsentIffZero(f.sub, v.slots);
    }
  }

  lemma SlotAbsentIffZero(f: Field, s: Slot)
    ensures SlotLooksAbsent(f, s) <==> AllZero(f, Counting(s))
    decreases f, 1
  {
    hide LooksAbsent, IsZero;
    assert |Counting(s)| <= 1;
    if |Counting(s)| == 1 {
      AbsentIffZero(f, Counting(s)[0]);
    }
  }

  lemma {:induction false} AllAbsentIffZero(fields: seq<Field>, slots: seq<Slot>)
    ensures AllLookAbsent(fields, slots) <==>
            forall i :: 0 <= i < |fields| && i < |slots| ==> AllZero(fields[i], Counting(slots[i]))
    decreases fields, 2
  {
    hide SlotLooksAbsent, AllZero, Counting;
    if |fields| > 0 && |slots| > 0 {
      SlotAbsentIffZero(fields[0], slots[0]);
      AllAbsentIffZero(fields[1..], slots[1..]);
      assert forall i :: 0 < i < |fields| ==> fields[i] == fields[1..][i - 1];
      assert forall i :: 0 < i < |slots| ==> slots[i] == slots[1..][i - 1];
      if forall i :: 0 <= i < |fields| && i < |slots| ==> AllZero(fields[i], Counting(slots[i])) {
        forall i | 0 <= i < |fields[1..]| && i < |slots[1..]| ensures AllZero(fields[1..][i], Counting(slots[1..][i])) {
          assert AllZero(fields[i + 1], Counting(slots[i + 1]));
        }
      }
    }
  }

  /** A singular field without a has_ flag is left out if and only if its value is zero; any other value is written behind
      the field's tag. */
  lemma LeftOutIffZero(f: Field, v: Value)
    requires f.htype.Optional? && !f.hasFlag
    ensures EncodeSlot(f, One(v)) == Some([]) <==> IsZero(f, v)
    ensures !IsZero(f, v) ==> EncodeSlot(f, One(v)) == EncodeTagged(f, v)
  {
    hide LooksAbsent, IsZero, EncodeValue;
    AbsentIffZero(f, v);
  }

  /** Singular fields with a has_ flag, required ones and the selected member of a oneof are written even if zero. */
  lemma WrittenEvenIfZero(f: Field, v: Value)
    requires !f.htype.Repeated?
    ensures f.htype.Required? ==> EncodeSlot(f, One(v)) == EncodeTagged(f, v)
    ensures f.htype.Optional? && f.hasFlag ==> EncodeSlot(f, Flagged(true, v)) == EncodeTagged(f, v)
    ensures f.htype.Oneof? ==> EncodeSlot(f, Alt(Some(v))) == EncodeTagged(f, v)
    ensures EncodeTagged(f, v) != Some([])
  {
    hide EncodeValue;
  }

  // Zero, told from the encoding.

  predicate ZeroOctets(s: seq<Byte>) {
    forall k :: 0 <= k < |s| ==> s[k] == 0
  }

  lemma VarintOfZero(n: nat)
    ensures ZeroOctets(VarintBytes(n)) <==> n == 0
  {
    assert VarintBytes(n)[0] == if n >= 128 then n % 128 + 128 else n;
  }

  lemma {:induction false} LittleEndianOfZero(n: nat, k: nat)
    requires n < Pow256(k)
    ensures ZeroOctets(LittleEndian(n, k)) <==> n == 0
    decreases k
  {
    if k > 0 {
      LittleEndianOfZero(n / 256, k - 1);
      var s := LittleEndian(n, k);
      assert s[0] == n % 256 && s[1..] == LittleEndian(n / 256, k - 1);
      assert ZeroOctets(s) <==> s[0] == 0 && ZeroOctets(s[1..]) by { ZeroOctetsStep(s); }
    }
  }

  lemma ZeroOctetsStep(s: seq<Byte>)
    requires |s| > 0
    ensures ZeroOctets(s) <==> s[0] == 0 && ZeroOctets(s[1..])
  {
    assert forall k :: 0 < k < |s| ==> s[k] == s[1..][k - 1];
    if s[0] == 0 && ZeroOctets(s[1..]) {
      forall k | 0 <= k < |s| ensures s[k] == 0 {
        if k > 0 { assert s[1..][k - 1] == 0; }
      }
    }
  }

  /** A value that a field can hold, submessages apart, is zero exactly if its encoding consists of zero octets. */
  lemma ZeroIffZeroOctets(f: Field, v: Value)
    requires FieldOk(f) && ValueOk(f, v) && !f.ltype.Submessage?
    ensures EncodeValue(f, v).Some?
    ensures IsZero(f, v) <==> ZeroOctets(EncodeValue(f, v).value)
  {
    hide VarintBytes, LittleEndian, ZeroOctets, Pow256;
    ValueRoundTrip(f, v, []);
    match f.ltype
    case Fixed32 =>
      Pow256Sizes();
      SmallMod(v.i, TWO_32);
      LittleEndianOfZero(v.i, 4);
    case Fixed64 =>
      Pow256Sizes();
      SmallMod(v.i, TWO_64);
      LittleEndianOfZero(v.i, 8);
    case Svarint =>
      VarintOfZero(ZigZag(v.i));
    case ByteArray =>
      PrefixedZero(v.b);
    case FixedBytes =>
      PrefixedZero(v.b);
    case CString =>
      PrefixedZero(Terminated(v.b, f.dataSize));
    case Varint =>
      ZeroBits(v.i);
      VarintOfZero(ToBits(v.i, TWO_64));
    case Uvarint =>
      ZeroBits(v.i);
      VarintOfZero(ToBits(v.i, TWO_64));
  }

  lemma ZeroBits(i: int)
    requires -0x8000_0000_0000_0000 <= i < TWO_64
    ensures ToBits(i, TWO_64) == 0 <==> i == 0
  {
  }

  lemma PrefixedZero(b: seq<Byte>)
    ensures ZeroOctets(LengthPrefixed(b)) <==> |b| == 0
  {
    VarintOfZero(|b|);
    var s := LengthPrefixed(b);
    assert forall k :: 0 <= k < |VarintBytes(|b|)| ==> s[k] == VarintBytes(|b|)[k];
  }

  // Messages that come back unchanged.

  /** Singular fields without a has_ flag are no submessages, and have zero as their default. */
  predicate PlainField(f: Field)
    decreases f, 0
  {
    && (f.htype.Optional? && !f.hasFlag ==>
          && !f.ltype.Submessage?
          && f.init == match f.ltype {
               case ByteArray => Octets([])
               case CString => Octets([])
               case FixedBytes => if f.dataSize == 0 then Octets([]) else f.init
               case _ => Int(0)
             })
    && (f.ltype.Submessage? ==> PlainFields(f.sub))
  }

  predicate PlainFields(fields: seq<Field>)
    decreases fields, 0
  {
    forall i :: 0 <= i < |fields| ==> PlainField(fields[i])
  }

  /** Strings end where their octets end, and what is not selected by its flag holds its default. */
  predicate TidyValue(f: Field, v: Value)
    decreases f, 0
  {
    && (f.ltype.CString? && v.Octets? ==> 0 !in v.b && |v.b| <= f.dataSize)
    && (f.ltype.Submessage? && v.Msg? ==> Tidy(f.sub, v.slots))
  }

  predicate TidySlot(f: Field, s: Slot)
    decreases f, 1
  {
    match s
    case One(v) => TidyValue(f, v)
    case Flagged(has, v) => if has then TidyValue(f, v) else v == DefaultValue(f)
    case Many(items) => forall i :: 0 <= i < |items| ==> TidyValue(f, items[i])
    case Alt(chosen) => chosen.Some? ==> TidyValue(f, chosen.value)
  }

  predicate Tidy(fields: seq<Field>, slots: seq<Slot>)
    decreases fields, 2
  {
    |fields| == |slots| && forall i :: 0 <= i < |fields| ==> TidySlot(fields[i], slots[i])
  }

  lemma {:induction false} TidyValueSettled(f: Field, v: Value)
    requires PlainField(f) && ValueOk(f, v) && TidyValue(f, v)
    ensures SettledValue(f, v)
    decreases f, 0
  {
    hide IsZero, Terminated, EncodeMessage, Fits, Settled, Tidy, MessageOk, PlainFields, Signed, Unsigned;
    if f.ltype.Submessage? {
      TidySettled(f.sub, v.slots);
    }
  }

  lemma TidySlotSettled(f: Field, s: Slot)
    requires PlainField(f) && SlotOk(f, s) && TidySlot(f, s)
    ensures SettledSlot(f, s)
    decreases f, 1
  {
    hide IsZero, LooksAbsent, Terminated, EncodeMessage, Fits, Settled, Tidy, MessageOk, PlainFields, Signed, Unsigned, EncodeItems,
         SettledValue, TidyValue;
    match s
    case One(v) =>
      TidyValueSettled(f, v);
      if f.htype.Optional? && LooksAbsent(f, v) {
        ZeroIsDefault(f, v);
      }
    case Flagged(has, v) => if has { TidyValueSettled(f, v); }
    case Many(items) =>
      forall i | 0 <= i < |items| ensures SettledValue(f, items[i]) {
        TidyValueSettled(f, items[i]);
      }
    case Alt(chosen) => if chosen.Some? { TidyValueSettled(f, chosen.value); }
  }

  lemma ZeroIsDefault(f: Field, v: Value)
    requires PlainField(f) && ValueOk(f, v) && TidyValue(f, v) && f.htype.Optional? && !f.hasFlag && LooksAbsent(f, v)
    ensures v == DefaultValue(f)
  {
    AbsentIffZero(f, v);
    hide LooksAbsent, PlainFields, EncodeMessage;
  }

  lemma TidySettled(fields: seq<Field>, slots: seq<Slot>)
    requires PlainFields(fields) && MessageOk(fields, slots) && Tidy(fields, slots)
    ensures Settled(fields, slots)
    decreases fields, 2
  {
    hide PlainField, SlotOk, TidySlot, SettledSlot, OneofsOk;
    forall i | 0 <= i < |fields| ensures SettledSlot(fields[i], slots[i]) {
      TidySlotSettled(fields[i], slots[i]);
    }
  }

  /** A message of such a type comes back from encoding and decoding unchanged, whatever numbers, octets and strings it
      holds. */
  lemma ComesBackUnchanged(fields: seq<Field>, slots: seq<Slot>)
    requires WellFormed(fields) && PlainFields(fields) && MessageOk(fields, slots) && Tidy(fields, slots)
    ensures EncodeMessage(fields, slots).Some?
    ensures Decode(fields, EncodeMessage(fields, slots).value) == Good(slots)
  {
    hide WellFormed, MessageOk, EncodeMessage, Decode, Settled, PlainFields, Tidy;
    TidySettled(fields, slots);
    LosslessIffSettled(fields, slots);
  }
}
