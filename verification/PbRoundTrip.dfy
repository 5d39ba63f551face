/** Decoding what the encoder wrote gives the message back, absent fields at their defaults. */
module PbRoundTrip {
  import opened Bytes
  import opened PbVarint
  import opened PbMessage
  import opened PbDecoding
  import opened PbFold
  import opened PbRequired

  // Well-formed descriptors.

  predicate DistinctTags(fields: seq<Field>) {
    forall i, j :: 0 <= i < j < |fields| ==> fields[i].tag != fields[j].tag
  }

  /** Field arrays the code generator produces, with a number of required fields the decoder can check. */
  predicate WellFormed(fields: seq<Field>)
    decreases fields, 0
  {
    && DistinctTags(fields)
    && Count(fields) < 64 && Count(fields) != 32
    && forall i :: 0 <= i < |fields| ==> FieldOk(fields[i])
  }

  predicate FieldOk(f: Field)
    decreases f, 0
  {
    && 0 < f.tag < 0x2000_0000
    && (f.ltype.Varint? || f.ltype.Uvarint? || f.ltype.Svarint? ==> IntSize(f.dataSize))
    && (f.ltype.Submessage? ==> WellFormed(f.sub))
  }

  // Messages a C structure of that type can hold.

  predicate Signed(i: int, size: nat) {
    0 <= 2 * i + Modulus(size) < 2 * Modulus(size)
  }

  predicate Unsigned(i: int, size: nat) {
    0 <= i < Modulus(size)
  }

  /** Integers fit their type (fixed-width ones stand for their bit pattern), octets fit their buffer, strings are
      terminated inside theirs, and no length needs more than 32 bits. */
  predicate ValueOk(f: Field, v: Value)
    decreases f, 0
  {
    match f.ltype
    case Varint => v.Int? && Signed(v.i, f.dataSize)
    case Svarint => v.Int? && Signed(v.i, f.dataSize)
    case Uvarint => v.Int? && Unsigned(v.i, f.dataSize)
    case Fixed32 => v.Int? && Unsigned(v.i, 4)
    case Fixed64 => v.Int? && Unsigned(v.i, 8)
    case ByteArray => v.Octets? && |v.b| + BYTES_OFFSET <= f.dataSize && |v.b| < TWO_32
    case FixedBytes => v.Octets? && |v.b| == f.dataSize && |v.b| < TWO_32
    case CString =>
      v.Octets? && |Terminated(v.b, f.dataSize)| < f.dataSize && |Terminated(v.b, f.dataSize)| + 1 < TWO_32
    case Submessage =>
      v.Msg? && MessageOk(f.sub, v.slots) && Fits(EncodeMessage(f.sub, v.slots))
  }

  predicate Fits(e: Option<seq<Byte>>) {
    e.Some? ==> |e.value| < TWO_32
  }

  predicate ItemsOk(f: Field, items: seq<Value>)
    decreases f, 1
  {
    forall i :: 0 <= i < |items| ==> ValueOk(f, items[i])
  }

  predicate SlotOk(f: Field, s: Slot)
    decreases f, 2
  {
    match f.htype
    case Required => s.One? && ValueOk(f, s.v)
    case Optional => if f.hasFlag then s.Flagged? && (s.has ==> ValueOk(f, s.v)) else s.One? && ValueOk(f, s.v)
    case Repeated =>
      && s.Many? && |s.items| <= f.arraySize && ItemsOk(f, s.items)
      && (Packable(f.ltype) ==> Fits(EncodeItems(f, s.items, [])))
    case Oneof(_) => s.Alt? && (s.chosen.Some? ==> ValueOk(f, s.chosen.value))
  }

  predicate Chosen(s: Slot) {
    s.Alt? && s.chosen.Some?
  }

  /** Of each oneof at most one member is selected. */
  predicate OneofsOk(fields: seq<Field>, slots: seq<Slot>)
    requires |fields| == |slots|
  {
    forall i, j :: 0 <= i < |slots| && 0 <= j < |slots| && i != j && Chosen(slots[i]) && Chosen(slots[j]) ==>
      !(fields[i].htype.Oneof? && fields[i].htype == fields[j].htype)
  }

  predicate MessageOk(fields: seq<Field>, slots: seq<Slot>)
    decreases fields, 1
  {
    && |fields| == |slots|
    && (forall i :: 0 <= i < |fields| ==> SlotOk(fields[i], slots[i]))
    && OneofsOk(fields, slots)
  }

  // What comes back.

  function NormalValue(f: Field, v: Value): Value
    decreases f, 0
  {
    if f.ltype.CString? && v.Octets? then Octets(Terminated(v.b, f.dataSize))
    else if f.ltype.Submessage? && v.Msg? then Msg(Normal(f.sub, v.slots))
    else v
  }

  function NormalItems(f: Field, items: seq<Value>): (r: seq<Value>)
    ensures |r| == |items|
    decreases f, 1, |items|
  {
    if |items| == 0 then []
    else NormalItems(f, items[..|items| - 1]) + [NormalValue(f, items[|items| - 1])]
  }

  /** Present values stay; what the encoder leaves out comes back as the default. */
  function NormalSlot(f: Field, s: Slot): Slot
    decreases f, 2
  {
    match s
    case One(v) => if f.htype.Optional? && LooksAbsent(f, v) then DefaultSlot(f) else One(NormalValue(f, v))
    case Flagged(has, v) => if has then Flagged(true, NormalValue(f, v)) else DefaultSlot(f)
    case Many(items) => Many(NormalItems(f, items))
    case Alt(chosen) => Alt(if chosen.Some? then Some(NormalValue(f, chosen.value)) else None)
  }

  function Normal(fields: seq<Field>, slots: seq<Slot>): (r: seq<Slot>)
    ensures |fields| == |slots| ==> |r| == |slots|
    decreases fields, 3
  {
    if |fields| == 0 || |slots| == 0 then []
    else [NormalSlot(fields[0], slots[0])] + Normal(fields[1..], slots[1..])
  }

  lemma {:induction false} NormalAt(fields: seq<Field>, slots: seq<Slot>, i: nat)
    requires |fields| == |slots| && i < |fields|
    ensures Normal(fields, slots)[i] == NormalSlot(fields[i], slots[i])
    decreases i
  {
    if i > 0 {
      NormalAt(fields[1..], slots[1..], i - 1);
    }
  }

  // Scalars.

  lemma SignedBits(i: int, size: nat)
    requires IntSize(size) && Signed(i, size)
    ensures CastSigned(ToBits(i, TWO_64), size) == Good(Int(i))
    ensures CastZigZag(i, size) == Good(Int(i))
  {
    hide ToBits, FromBits;
    TwosComplement(i, Modulus(size));
    LowBits(i, size);
  }

  lemma TwosComplement(i: int, modulus: nat)
    requires modulus >= 2 && modulus % 2 == 0
    requires 0 <= 2 * i + modulus < 2 * modulus
    ensures FromBits(ToBits(i, modulus), modulus) == i
  {
    if i < 0 {
      NegativeMod(i, modulus);
    } else {
      SmallMod(i, modulus);
    }
    SmallMod(ToBits(i, modulus), modulus);
  }

  lemma NegativeMod(i: int, m: nat)
    requires m >= 1 && -(m as int) <= i < 0
    ensures i % m == i + m
  {
    var q := i / m;
    assert i == m * q + i % m;
    if q >= 0 {
      ProductOrder(m, 0, q);
    } else if q <= -2 {
      ProductOrder(m, q, -2);
    }
  }

  lemma ProductOrder(m: nat, a: int, b: int)
    requires a <= b
    ensures m * a <= m * b
  {
  }

  /** A 32-bit field looks at the low 32 bits of the 64-bit pattern. */
  lemma LowBits(i: int, size: nat)
    requires IntSize(size) && Signed(i, size)
    ensures FromBits(ToBits(i, TWO_64), if size == 8 then TWO_64 else TWO_32) == i
  {
    hide FromBits;
    if size == 8 {
      TwosComplement(i, TWO_64);
    } else {
      TwosComplement(i, TWO_32);
      assert ToBits(i, TWO_64) % TWO_32 == ToBits(i, TWO_32) % TWO_32;
      SameLowBits(ToBits(i, TWO_64), ToBits(i, TWO_32), TWO_32);
    }
  }

  lemma SameLowBits(m: nat, n: nat, modulus: nat)
    requires modulus >= 2 && m % modulus == n % modulus
    ensures FromBits(m, modulus) == FromBits(n, modulus)
  {
  }

  lemma UnsignedBits(i: int, size: nat)
    requires IntSize(size) && Unsigned(i, size)
    ensures ToBits(i, TWO_64) == i && CastUnsigned(i, size) == Good(Int(i))
  {
  }

  lemma VarintValueRoundTrip(f: Field, v: Value, rest: seq<Byte>)
    requires f.ltype.Varint? || f.ltype.Uvarint? || f.ltype.Svarint?
    requires ValueOk(f, v) && IntSize(f.dataSize)
    ensures EncodeValue(f, v).Some?
    ensures DecodeVarintValue(f, EncodeValue(f, v).value + rest) == (Good(v), rest)
  {
    hide VarintBytes, DecodeVarint64, ZigZag, UnZigZag, ToBits, CastSigned, CastUnsigned, CastZigZag;
    if f.ltype.Svarint? {
      SignedBits(v.i, f.dataSize);
      ZigZagRoundTrip(v.i);
      Varint64RoundTrip(ZigZag(v.i), rest);
    } else {
      if f.ltype.Varint? {
        SignedBits(v.i, f.dataSize);
      } else {
        UnsignedBits(v.i, f.dataSize);
      }
      Varint64RoundTrip(ToBits(v.i, TWO_64), rest);
    }
  }

  lemma Pow256Sizes()
    ensures Pow256(4) == TWO_32 && Pow256(8) == TWO_64
  {
    Pow256Values();
    assert Pow256(8) == 256 * (256 * Pow256(6));
  }

  lemma FixedValueRoundTrip(i: int, k: nat, rest: seq<Byte>)
    requires k == 4 || k == 8
    requires Unsigned(i, k)
    ensures var e := LittleEndian(ToBits(i, if k == 4 then TWO_32 else TWO_64), k);
            DecodeFixed(e + rest, k) == (Good(Int(i)), rest)
  {
    hide LittleEndian, FromLittleEndian, Pow256;
    assert Pow256(k) == Modulus(k) by { Pow256Sizes(); }
    SmallMod(i, Modulus(k));
    var e := LittleEndian(i, k);
    LittleEndianRoundTrip(i, k);
    assert (e + rest)[..k] == e && (e + rest)[k..] == rest;
  }

  lemma OctetsRoundTrip(f: Field, b: seq<Byte>, rest: seq<Byte>)
    requires f.ltype.ByteArray? || f.ltype.CString? || f.ltype.FixedBytes?
    requires |b| < TWO_32 && Accepts(f, |b|)
    ensures DecodeOctets(f, LengthPrefixed(b) + rest) == (Good(Octets(b)), rest)
  {
    hide VarintBytes, DecodeVarint32;
    assert LengthPrefixed(b) + rest == VarintBytes(|b|) + (b + rest);
    Varint32RoundTrip(|b|, b + rest);
    assert (b + rest)[..|b|] == b && (b + rest)[|b|..] == rest;
  }

  lemma SubstreamRoundTrip(b: seq<Byte>, rest: seq<Byte>)
    requires |b| < TWO_32
    ensures Substream(LengthPrefixed(b) + rest) == Some((b, rest))
  {
    hide VarintBytes, DecodeVarint32;
    assert LengthPrefixed(b) + rest == VarintBytes(|b|) + (b + rest);
    Varint32RoundTrip(|b|, b + rest);
    assert (b + rest)[..|b|] == b && (b + rest)[|b|..] == rest;
  }

  /** A string decodes exactly when its terminator lies inside the buffer; without one it is encoded all the same. */
  lemma StringRoundTripIffTerminated(f: Field, prior: Value, b: seq<Byte>, rest: seq<Byte>)
    requires f.ltype.CString? && |Terminated(b, f.dataSize)| + 1 < TWO_32
    ensures EncodeValue(f, Octets(b)).Some?
    ensures var e := EncodeValue(f, Octets(b)).value;
            if |Terminated(b, f.dataSize)| < f.dataSize
            then DecodeValue(f, prior, e + rest) == (Good(Octets(Terminated(b, f.dataSize))), rest)
            else DecodeValue(f, prior, e + rest).0 == Bad
  {
    hide VarintBytes, DecodeVarint32, Terminated, DecodeMessage;
    var t := Terminated(b, f.dataSize);
    if |t| < f.dataSize {
      OctetsRoundTrip(f, t, rest);
    } else {
      assert LengthPrefixed(t) + rest == VarintBytes(|t|) + (t + rest);
      Varint32RoundTrip(|t|, t + rest);
    }
  }

  // Values, arrays, records, messages.

  lemma {:induction false} ValueRoundTrip(f: Field, v: Value, rest: seq<Byte>)
    requires FieldOk(f) && ValueOk(f, v)
    ensures EncodeValue(f, v).Some?
    ensures DecodeValue(f, DefaultValue(f), EncodeValue(f, v).value + rest) == (Good(NormalValue(f, v)), rest)
    decreases f, 0
  {
    hide DecodeMessage, EncodeMessage, MessageOk, Normal, Defaults, VarintBytes, DecodeOctets, DecodeFixed,
         DecodeVarintValue, Terminated, Substream, LittleEndian, LengthPrefixed, ToBits, ZigZag, WellFormed;
    match f.ltype
    case Fixed32 => FixedValueRoundTrip(v.i, 4, rest);
    case Fixed64 => FixedValueRoundTrip(v.i, 8, rest);
    case ByteArray => OctetsRoundTrip(f, v.b, rest);
    case FixedBytes => OctetsRoundTrip(f, v.b, rest);
    case CString => OctetsRoundTrip(f, Terminated(v.b, f.dataSize), rest);
    case Submessage =>
      MessageRoundTrip(f.sub, v.slots);
      SubstreamRoundTrip(EncodeMessage(f.sub, v.slots).value, rest);
    case _ => VarintValueRoundTrip(f, v, rest);
  }

  /** Items that decode fully can be followed by more. */
  lemma {:induction false} ItemsFold(f: Field, items: seq<Value>, a: seq<Byte>, b: seq<Byte>)
    requires DecodeItems(f, items, a).Good?
    ensures DecodeItems(f, items, a + b) == DecodeItems(f, DecodeItems(f, items, a).v, b)
    decreases |a|
  {
    hide DecodeValue, DefaultValue;
    if |a| == 0 {
      assert a + b == b;
    } else {
      ValueExtends(f, DefaultValue(f), a, b);
      var (v, rest) := DecodeValue(f, DefaultValue(f), a);
      ItemsFold(f, items + [v.v], rest, b);
    }
  }

  lemma ItemsInit(f: Field, items: seq<Value>)
    requires |items| > 0 && ItemsOk(f, items)
    ensures ItemsOk(f, items[..|items| - 1]) && ValueOk(f, items[|items| - 1])
  {
    hide ValueOk;
  }

  lemma NoValueIsEmpty(f: Field, v: Value)
    requires FieldOk(f) && ValueOk(f, v)
    ensures EncodeValue(f, v).Some? && |EncodeValue(f, v).value| > 0
    decreases f, 1
  {
    hide DecodeValue, EncodeValue, FieldOk, ValueOk;
    ValueRoundTrip(f, v, []);
    var e := EncodeValue(f, v).value;
    assert e + [] == e;
  }

  lemma OneItem(f: Field, items: seq<Value>, v: Value)
    requires FieldOk(f) && ValueOk(f, v) && |items| < f.arraySize
    ensures EncodeValue(f, v).Some?
    ensures DecodeItems(f, items, EncodeValue(f, v).value) == Good(items + [NormalValue(f, v)])
    decreases f, 2
  {
    hide DecodeValue, EncodeValue, FieldOk, ValueOk, DefaultValue, NormalValue;
    NoValueIsEmpty(f, v);
    ValueRoundTrip(f, v, []);
    var e := EncodeValue(f, v).value;
    assert e + [] == e;
  }

  lemma {:induction false} PackedRoundTrip(f: Field, items: seq<Value>)
    requires FieldOk(f) && ItemsOk(f, items) && |items| <= f.arraySize
    ensures EncodeItems(f, items, []).Some?
    ensures DecodeItems(f, [], EncodeItems(f, items, []).value) == Good(NormalItems(f, items))
    decreases f, 3, |items|
  {
    hide DecodeValue, EncodeValue, FieldOk, ValueOk, DefaultValue, NormalValue, DecodeItems, ItemsOk;
    if |items| == 0 {
      NoItems(f);
    } else {
      var n := |items| - 1;
      ItemsInit(f, items);
      PackedRoundTrip(f, items[..n]);
      OneItem(f, NormalItems(f, items[..n]), items[n]);
      var front, last := EncodeItems(f, items[..n], []).value, EncodeValue(f, items[n]).value;
      ItemsFold(f, [], front, last);
      assert front + [] + last == front + last;
    }
  }

  lemma NoItems(f: Field)
    ensures DecodeItems(f, [], []) == Good([])
  {
  }

  lemma FindsField(fields: seq<Field>, i: nat)
    requires i < |fields| && DistinctTags(fields)
    ensures Find(fields, fields[i].tag) == i
  {
  }

  /** A tag and a payload that decodes into slot i. */
  lemma RecordRead(fields: seq<Field>, st: State, i: nat, wireType: nat, payload: seq<Byte>, slot: Slot)
    requires |st.slots| == |fields| && i < |fields| && DistinctTags(fields) && 0 < fields[i].tag < 0x2000_0000
    requires wireType < 8 && DecodeSlot(fields[i], st.slots[i], wireType, payload) == (Good(slot), [])
    ensures DecodeRecords(fields, st, EncodeTag(fields[i].tag, wireType) + payload) == RanOut(Stored(fields, st, i, slot))
  {
    hide DecodeSlot, Skip, Find, Stored, DecodeVarint32, VarintBytes, DecodeRecords, DistinctTags;
    var s := EncodeTag(fields[i].tag, wireType) + payload;
    Varint32RoundTrip(fields[i].tag * 8 + wireType, payload);
    FindsField(fields, i);
    assert DecodeRecord(fields, st, s) == More(Stored(fields, st, i, slot), []);
    RecordsStep(fields, st, s);
    NoRecords(fields, Stored(fields, st, i, slot));
  }

  lemma NoRecords(fields: seq<Field>, st: State)
    requires |st.slots| == |fields|
    ensures DecodeRecords(fields, st, []) == RanOut(st)
  {
  }

  /** A single value behind its tag. */
  lemma TaggedRead(fields: seq<Field>, st: State, i: nat, v: Value)
    requires |st.slots| == |fields| && i < |fields| && DistinctTags(fields)
    requires FieldOk(fields[i]) && ValueOk(fields[i], v)
    requires Before(fields[i], st.slots[i]) == DefaultValue(fields[i])
    requires fields[i].htype.Repeated? ==> !Packable(fields[i].ltype) && |Items(st.slots[i])| < fields[i].arraySize
    ensures EncodeTagged(fields[i], v).Some?
    ensures DecodeRecords(fields, st, EncodeTagged(fields[i], v).value) ==
            RanOut(Stored(fields, st, i, Store(fields[i], st.slots[i], NormalValue(fields[i], v))))
    decreases fields[i], 4
  {
    hide DecodeValue, EncodeValue, ValueOk, DefaultValue, NormalValue, DecodeRecords, DistinctTags, Stored, Before, Store,
         EncodeTag, Items, WireType;
    var f := fields[i];
    ValueRoundTrip(f, v, []);
    var e := EncodeValue(f, v).value;
    assert e + [] == e;
    var slot := Store(f, st.slots[i], NormalValue(f, v));
    assert DecodeSlot(f, st.slots[i], WireType(f.ltype), e) == (Good(slot), []) by {
      SingleRead(f, st.slots[i], WireType(f.ltype), e, NormalValue(f, v));
    }
    RecordRead(fields, st, i, WireType(f.ltype), e, slot);
  }

  lemma SingleRead(f: Field, slot: Slot, wireType: nat, e: seq<Byte>, v: Value)
    requires f.htype.Repeated? ==> !Packable(f.ltype) && |Items(slot)| < f.arraySize
    requires DecodeValue(f, Before(f, slot), e) == (Good(v), [])
    ensures DecodeSlot(f, slot, wireType, e) == (Good(Store(f, slot, v)), [])
  {
    hide DecodeValue, Before, Store, Items, Packable;
  }

  /** The state with slot i replaced. */
  function With(fields: seq<Field>, st: State, i: nat, slot: Slot): State
    requires |fields| == |st.slots| && i < |fields|
  {
    st.(slots := st.slots[i := slot])
  }

  lemma StoredRepeated(fields: seq<Field>, st: State, i: nat, slot: Slot)
    requires |st.slots| == |fields| && i < |fields| && !fields[i].htype.Required? && !fields[i].htype.Oneof?
    ensures Stored(fields, st, i, slot) == With(fields, st, i, slot)
  {
    hide RequiredBefore;
    assert Replace(fields, st.slots, i, slot) == st.slots[i := slot];
  }

  lemma {:induction false} UnpackedRead(fields: seq<Field>, st: State, i: nat, items: seq<Value>)
    requires |st.slots| == |fields| && i < |fields| && DistinctTags(fields)
    requires FieldOk(fields[i]) && ItemsOk(fields[i], items) && |items| <= fields[i].arraySize
    requires fields[i].htype.Repeated? && (|items| == 0 || !Packable(fields[i].ltype)) && st.slots[i] == Many([])
    ensures EncodeItems(fields[i], items, FieldTag(fields[i])).Some?
    ensures DecodeRecords(fields, st, EncodeItems(fields[i], items, FieldTag(fields[i])).value) ==
            RanOut(With(fields, st, i, Many(NormalItems(fields[i], items))))
    decreases fields[i], 5, |items|
  {
    hide DecodeRecords, ItemsOk, FieldOk, EncodeValue, NormalValue, DistinctTags, Stored, ValueOk, FieldTag, DefaultValue, Packable;
    var f := fields[i];
    if |items| == 0 {
      NoRecords(fields, st);
      assert st.slots[i := Many([])] == st.slots;
    } else {
      var n := |items| - 1;
      ItemsInit(f, items);
      UnpackedRead(fields, st, i, items[..n]);
      var mid := With(fields, st, i, Many(NormalItems(f, items[..n])));
      TaggedRead(fields, mid, i, items[n]);
      StoredRepeated(fields, mid, i, Many(NormalItems(f, items)));
      assert With(fields, mid, i, Many(NormalItems(f, items))) == With(fields, st, i, Many(NormalItems(f, items)));
      var front, last := EncodeItems(f, items[..n], FieldTag(f)).value, EncodeTagged(f, items[n]).value;
      RecordsFold(fields, st, front, last);
      assert front + FieldTag(f) + EncodeValue(f, items[n]).value == front + last;
    }
  }

  lemma PackedRead(fields: seq<Field>, st: State, i: nat, items: seq<Value>)
    requires |st.slots| == |fields| && i < |fields| && DistinctTags(fields)
    requires FieldOk(fields[i]) && ItemsOk(fields[i], items) && 0 < |items| <= fields[i].arraySize
    requires fields[i].htype.Repeated? && Packable(fields[i].ltype) && st.slots[i] == Many([])
    requires Fits(EncodeItems(fields[i], items, []))
    ensures EncodeArray(fields[i], items).Some?
    ensures DecodeRecords(fields, st, EncodeArray(fields[i], items).value) ==
            RanOut(With(fields, st, i, Many(NormalItems(fields[i], items))))
    decreases fields[i], 6
  {
    hide DecodeRecords, ItemsOk, EncodeItems, NormalItems, DistinctTags, Stored, DecodeItems, Substream, EncodeTag,
         LengthPrefixed, Packable;
    var f := fields[i];
    PackedRoundTrip(f, items);
    var e := EncodeItems(f, items, []).value;
    SubstreamRoundTrip(e, []);
    assert LengthPrefixed(e) + [] == LengthPrefixed(e);
    RecordRead(fields, st, i, WT_STRING, LengthPrefixed(e), Many(NormalItems(f, items)));
    StoredRepeated(fields, st, i, Many(NormalItems(f, items)));
  }

  lemma ArrayRead(fields: seq<Field>, st: State, i: nat, items: seq<Value>)
    requires |st.slots| == |fields| && i < |fields| && DistinctTags(fields) && FieldOk(fields[i])
    requires fields[i].htype.Repeated? && SlotOk(fields[i], Many(items)) && st.slots[i] == Many([])
    ensures EncodeArray(fields[i], items).Some?
    ensures DecodeRecords(fields, st, EncodeArray(fields[i], items).value) ==
            RanOut(With(fields, st, i, Many(NormalItems(fields[i], items))))
    decreases fields[i], 7
  {
    hide DecodeRecords, ItemsOk, EncodeItems, NormalItems, DistinctTags, FieldOk, Fits, Packable;
    var f := fields[i];
    if |items| == 0 || !Packable(f.ltype) {
      UnpackedRead(fields, st, i, items);
      if |items| == 0 {
        NothingEncoded(f, FieldTag(f));
      }
    } else {
      PackedRead(fields, st, i, items);
    }
  }

  lemma NothingEncoded(f: Field, prefix: seq<Byte>)
    ensures EncodeItems(f, [], prefix) == Some([])
  {
  }

  /** Whether the encoder writes anything for the slot. */
  predicate Present(f: Field, s: Slot) {
    match s
    case One(v) => f.htype.Required? || !LooksAbsent(f, v)
    case Flagged(has, _) => has
    case Many(items) => |items| > 0
    case Alt(chosen) => chosen.Some?
  }

  /** All records of one slot. */
  lemma SlotRead(fields: seq<Field>, st: State, i: nat, s: Slot)
    requires |st.slots| == |fields| && i < |fields| && DistinctTags(fields)
    requires FieldOk(fields[i]) && SlotOk(fields[i], s) && st.slots[i] == DefaultSlot(fields[i])
    ensures EncodeSlot(fields[i], s).Some?
    ensures DecodeRecords(fields, st, EncodeSlot(fields[i], s).value) ==
            RanOut(if Present(fields[i], s) then Stored(fields, st, i, NormalSlot(fields[i], s)) else st)
    decreases fields[i], 8
  {
    hide DecodeRecords, ItemsOk, EncodeItems, NormalItems, DistinctTags, FieldOk, Fits, EncodeArray, EncodeTagged,
         NormalValue, LooksAbsent, ValueOk, Stored, DefaultValue;
    var f := fields[i];
    NoRecords(fields, st);
    if Present(f, s) {
      match s
      case Many(items) =>
        ArrayRead(fields, st, i, items);
        StoredRepeated(fields, st, i, NormalSlot(f, s));
      case One(v) => TaggedRead(fields, st, i, v);
      case Flagged(_, v) => TaggedRead(fields, st, i, v);
      case Alt(chosen) => TaggedRead(fields, st, i, chosen.value);
    } else if s.Many? {
      NothingInArray(f);
    }
  }

  lemma NothingInArray(f: Field)
    ensures EncodeArray(f, []) == Some([])
  {
  }

  function SeenBelow(n: nat): (s: set<nat>)
    ensures forall k: nat :: k in s <==> k < n
  {
    if n == 0 then {} else SeenBelow(n - 1) + {n - 1}
  }

  /** The state after the records of the first i fields. */
  function StateAt(fields: seq<Field>, slots: seq<Slot>, i: nat): (st: State)
    requires |fields| == |slots| && i <= |fields|
    ensures |st.slots| == |fields|
  {
    State(Normal(fields, slots)[..i] + Defaults(fields)[i..], SeenBelow(RequiredBefore(fields, i)))
  }

  lemma StateAtSlot(fields: seq<Field>, slots: seq<Slot>, i: nat, j: nat)
    requires |fields| == |slots| && i <= |fields| && j < |fields|
    ensures StateAt(fields, slots, i).slots[j] ==
            if j < i then NormalSlot(fields[j], slots[j]) else DefaultSlot(fields[j])
  {
    hide Normal, Defaults, NormalSlot, DefaultSlot, SeenBelow, RequiredBefore;
    NormalAt(fields, slots, j);
    DefaultsAt(fields, j);
  }

  lemma AbsentStep(fields: seq<Field>, slots: seq<Slot>, i: nat)
    requires |fields| == |slots| && i < |fields|
    requires SlotOk(fields[i], slots[i]) && !Present(fields[i], slots[i])
    ensures StateAt(fields, slots, i + 1) == StateAt(fields, slots, i)
  {
    hide StateAt, LooksAbsent, ValueOk, NormalValue, EncodeItems, Fits, ItemsOk, DefaultValue;
    var a, b := StateAt(fields, slots, i), StateAt(fields, slots, i + 1);
    assert a.seen == b.seen by { SeenAt(fields, slots, i); SeenAt(fields, slots, i + 1); }
    assert NormalSlot(fields[i], slots[i]) == DefaultSlot(fields[i]);
    hide SlotOk, NormalSlot, DefaultSlot, Present;
    forall j | 0 <= j < |fields| ensures a.slots[j] == b.slots[j] {
      StateAtSlot(fields, slots, i, j);
      StateAtSlot(fields, slots, i + 1, j);
    }
  }

  lemma SeenAt(fields: seq<Field>, slots: seq<Slot>, i: nat)
    requires |fields| == |slots| && i <= |fields|
    ensures StateAt(fields, slots, i).seen == SeenBelow(RequiredBefore(fields, i))
  {
    hide Normal, Defaults, SeenBelow, RequiredBefore;
  }

  lemma PresentStep(fields: seq<Field>, slots: seq<Slot>, i: nat)
    requires MessageOk(fields, slots) && |slots| == |fields| && i < |fields| && Present(fields[i], slots[i])
    requires RequiredBefore(fields, i) < MAX_REQUIRED
    ensures Stored(fields, StateAt(fields, slots, i), i, NormalSlot(fields[i], slots[i])) == StateAt(fields, slots, i + 1)
  {
    hide StateAt, LooksAbsent, ValueOk, NormalValue, EncodeItems, Fits, ItemsOk, DefaultValue, NormalSlot, DefaultSlot,
         RequiredBefore, Replace, SlotOk, Present, MessageOk;
    var a, b := StateAt(fields, slots, i), StateAt(fields, slots, i + 1);
    var r := Stored(fields, a, i, NormalSlot(fields[i], slots[i]));
    SeenAt(fields, slots, i);
    SeenAt(fields, slots, i + 1);
    SeenStep(fields, i);
    forall j | 0 <= j < |fields| ensures r.slots[j] == b.slots[j] {
      StateAtSlot(fields, slots, i, j);
      StateAtSlot(fields, slots, i + 1, j);
      if j != i && fields[i].htype.Oneof? && fields[j].htype == fields[i].htype {
        OthersUnchosen(fields, slots, i, j);
      }
    }
  }

  lemma SeenStep(fields: seq<Field>, i: nat)
    requires i < |fields|
    ensures SeenBelow(RequiredBefore(fields, i + 1)) ==
            SeenBelow(RequiredBefore(fields, i)) + if fields[i].htype.Required? then {RequiredBefore(fields, i)} else {}
  {
  }

  lemma OthersUnchosen(fields: seq<Field>, slots: seq<Slot>, i: nat, j: nat)
    requires MessageOk(fields, slots) && i < |fields| && j < |fields| && j != i && Present(fields[i], slots[i])
    requires fields[i].htype.Oneof? && fields[j].htype == fields[i].htype
    ensures NormalSlot(fields[j], slots[j]) == Alt(None) && DefaultSlot(fields[j]) == Alt(None)
  {
    hide LooksAbsent, ValueOk, NormalValue, EncodeItems, Fits, ItemsOk, DefaultValue;
    assert SlotOk(fields[i], slots[i]) && SlotOk(fields[j], slots[j]);
  }

  lemma {:induction false} SuffixRead(fields: seq<Field>, slots: seq<Slot>, i: nat)
    requires WellFormed(fields) && MessageOk(fields, slots) && i <= |fields|
    ensures EncodeMessage(fields[i..], slots[i..]).Some?
    ensures DecodeRecords(fields, StateAt(fields, slots, i), EncodeMessage(fields[i..], slots[i..]).value) ==
            RanOut(StateAt(fields, slots, |fields|))
    decreases fields, 9, |fields| - i
  {
    hide StateAt, DecodeRecords, EncodeSlot, DistinctTags, RequiredBefore, Stored, NormalSlot, SlotOk, FieldOk, OneofsOk, Present;
    var st := StateAt(fields, slots, i);
    if i == |fields| {
      NoRecords(fields, st);
    } else {
      StateAtSlot(fields, slots, i, i);
      RequiredGrows(fields, i, |fields|);
      SlotRead(fields, st, i, slots[i]);
      if Present(fields[i], slots[i]) {
        PresentStep(fields, slots, i);
      } else {
        AbsentStep(fields, slots, i);
      }
      SuffixRead(fields, slots, i + 1);
      assert fields[i..][1..] == fields[i + 1..] && slots[i..][1..] == slots[i + 1..];
      RecordsFold(fields, st, EncodeSlot(fields[i], slots[i]).value, EncodeMessage(fields[i + 1..], slots[i + 1..]).value);
    }
  }

  /** Every message a C structure can hold is encoded, and decoding the octets gives it back, with what the encoder
      leaves out at its default. */
  lemma {:induction false} MessageRoundTrip(fields: seq<Field>, slots: seq<Slot>)
    requires WellFormed(fields) && MessageOk(fields, slots)
    ensures EncodeMessage(fields, slots).Some?
    ensures Decode(fields, EncodeMessage(fields, slots).value) == Good(Normal(fields, slots))
    decreases fields, 10
  {
    hide StateAt, DecodeRecords, EncodeMessage, DistinctTags, RequiredBefore, CheckRequired, SlotOk, FieldOk, OneofsOk;
    SuffixRead(fields, slots, 0);
    assert fields[0..] == fields && slots[0..] == slots;
    StateAtStart(fields, slots);
    StateAtEnd(fields, slots);
    CheckMeaning(Count(fields), SeenBelow(Count(fields)));
  }

  lemma StateAtStart(fields: seq<Field>, slots: seq<Slot>)
    requires |fields| == |slots|
    ensures StateAt(fields, slots, 0) == State(Defaults(fields), {})
  {
    hide Normal, Defaults;
    assert Normal(fields, slots)[..0] + Defaults(fields)[0..] == Defaults(fields);
    assert SeenBelow(0) == {};
  }

  lemma StateAtEnd(fields: seq<Field>, slots: seq<Slot>)
    requires |fields| == |slots|
    ensures StateAt(fields, slots, |fields|) == State(Normal(fields, slots), SeenBelow(Count(fields)))
  {
    hide Normal, Defaults, RequiredBefore;
    var n := |fields|;
    assert Normal(fields, slots)[..n] + Defaults(fields)[n..] == Normal(fields, slots);
  }
}
