/** Descriptors and messages of the Protocol Buffers codec: what a generated field array says, and what the C structure
    it describes holds. Widths and sizes are those of a build with 32-bit field descriptors. */
module PbMessage {
  import opened Bytes
  import opened PbVarint

  datatype LType = Varint | Uvarint | Svarint | Fixed32 | Fixed64 | ByteArray | CString | Submessage | FixedBytes

  /** How often a field occurs. Fields of one oneof share their group number. */
  datatype HType = Required | Optional | Repeated | Oneof(group: nat)

  /** One entry of a field array. hasFlag says that an optional field has a has_ member; init is its default value. */
  datatype Field = Field(
    tag: nat, ltype: LType, htype: HType, hasFlag: bool, dataSize: nat, arraySize: nat, init: Value, sub: seq<Field>)

  /** The value of one item. A string is what precedes its terminator; a message has one slot for each field. */
  datatype Value = Int(i: int) | Octets(b: seq<Byte>) | Msg(slots: seq<Slot>)

  /** The storage of one field: a plain member, a member with its has_ flag, an array with its count, or a member of a
      union, which holds a value only while it is the one selected. */
  datatype Slot = One(v: Value) | Flagged(has: bool, v: Value) | Many(items: seq<Value>) | Alt(chosen: Option<Value>)

  // Offset of the data in a bytes array: the size of its count.
  const BYTES_OFFSET: nat := 4

  predicate Packable(l: LType) {
    l.Varint? || l.Uvarint? || l.Svarint? || l.Fixed32? || l.Fixed64?
  }

  // Wire types.
  const WT_VARINT: nat := 0
  const WT_64BIT: nat := 1
  const WT_STRING: nat := 2
  const WT_32BIT: nat := 5

  function WireType(l: LType): (w: nat)
    ensures w < 8
  {
    match l
    case Varint => WT_VARINT
    case Uvarint => WT_VARINT
    case Svarint => WT_VARINT
    case Fixed32 => WT_32BIT
    case Fixed64 => WT_64BIT
    case _ => WT_STRING
  }

  predicate IntSize(n: nat) {
    n == 1 || n == 2 || n == 4 || n == 8
  }

  // Defaults.

  function DefaultValue(f: Field): Value
    decreases f, 0
  {
    if f.ltype.Submessage? then Msg(Defaults(f.sub)) else f.init
  }

  function DefaultSlot(f: Field): Slot
    decreases f, 1
  {
    match f.htype
    case Required => One(DefaultValue(f))
    case Optional => if f.hasFlag then Flagged(false, DefaultValue(f)) else One(DefaultValue(f))
    case Repeated => Many([])
    case Oneof(_) => Alt(None)
  }

  /** A message with every field at its default. */
  function Defaults(fields: seq<Field>): (slots: seq<Slot>)
    ensures |slots| == |fields|
    decreases fields, 0
  {
    if |fields| == 0 then [] else [DefaultSlot(fields[0])] + Defaults(fields[1..])
  }

  lemma {:induction false} DefaultsAt(fields: seq<Field>, i: nat)
    requires i < |fields|
    ensures Defaults(fields)[i] == DefaultSlot(fields[i])
  {
    if i > 0 {
      DefaultsAt(fields[1..], i - 1);
    }
  }

  // Encoding.

  /** Where a C string in a buffer of the given size ends. */
  function Terminated(b: seq<Byte>, size: nat): (s: seq<Byte>)
    ensures |s| <= size && |s| <= |b|
  {
    if |b| == 0 || size == 0 || b[0] == 0 then [] else [b[0]] + Terminated(b[1..], size - 1)
  }

  function LengthPrefixed(b: seq<Byte>): seq<Byte> {
    VarintBytes(|b|) + b
  }

  function EncodeTag(tag: nat, wireType: nat): seq<Byte> {
    VarintBytes(tag * 8 + wireType)
  }

  function FieldTag(f: Field): seq<Byte> {
    EncodeTag(f.tag, WireType(f.ltype))
  }

  predicate InInt64(i: int) {
    -0x8000_0000_0000_0000 <= i < 0x8000_0000_0000_0000
  }

  /** The encoding of one item; None when the encoder refuses it. */
  function EncodeValue(f: Field, v: Value): (r: Option<seq<Byte>>)
    decreases f, 0
  {
    match f.ltype
    case Varint => if v.Int? && IntSize(f.dataSize) then Some(VarintBytes(ToBits(v.i, TWO_64))) else None
    case Uvarint => if v.Int? && IntSize(f.dataSize) then Some(VarintBytes(ToBits(v.i, TWO_64))) else None
    case Svarint =>
      if v.Int? && InInt64(v.i) && IntSize(f.dataSize) then Some(VarintBytes(ZigZag(v.i))) else None
    case Fixed32 => if v.Int? then Some(LittleEndian(ToBits(v.i, TWO_32), 4)) else None
    case Fixed64 => if v.Int? then Some(LittleEndian(ToBits(v.i, TWO_64), 8)) else None
    case ByteArray => if v.Octets? && |v.b| + BYTES_OFFSET <= f.dataSize then Some(LengthPrefixed(v.b)) else None
    case CString => if v.Octets? then Some(LengthPrefixed(Terminated(v.b, f.dataSize))) else None
    case FixedBytes => if v.Octets? && |v.b| == f.dataSize then Some(LengthPrefixed(v.b)) else None
    case Submessage =>
      if !v.Msg? then None
      else
        var e := EncodeMessage(f.sub, v.slots);
        if e.None? then None else Some(LengthPrefixed(e.value))
  }

  /** The items of an array one after another, each behind the given prefix. */
  function EncodeItems(f: Field, items: seq<Value>, prefix: seq<Byte>): (r: Option<seq<Byte>>)
    decreases f, 1, |items|
  {
    if |items| == 0 then Some([])
    else
      var front, last := EncodeItems(f, items[..|items| - 1], prefix), EncodeValue(f, items[|items| - 1]);
      if front.None? || last.None? then None else Some(front.value + prefix + last.value)
  }

  function EncodeArray(f: Field, items: seq<Value>): (r: Option<seq<Byte>>)
    decreases f, 2
  {
    if |items| == 0 then Some([])
    else if |items| > f.arraySize then None
    else if Packable(f.ltype) then
      var e := EncodeItems(f, items, []);
      if e.None? then None else Some(EncodeTag(f.tag, WT_STRING) + LengthPrefixed(e.value))
    else EncodeItems(f, items, FieldTag(f))
  }

  function EncodeTagged(f: Field, v: Value): (r: Option<seq<Byte>>)
    decreases f, 1
  {
    var e := EncodeValue(f, v);
    if e.None? then None else Some(FieldTag(f) + e.value)
  }

  /** Whether the encoder takes an optional field without a has_ flag for absent. An array counts by its first item
      alone, whatever its count; unused array items and unions hold zeros. */
  predicate LooksAbsent(f: Field, v: Value)
    decreases f, 0
  {
    match f.ltype
    case ByteArray => v.Octets? && |v.b| == 0
    case CString => v.Octets? && (|v.b| == 0 || v.b[0] == 0)
    case FixedBytes => f.dataSize == 0
    case Submessage => v.Msg? && AllLookAbsent(f.sub, v.slots)
    case _ => v == Int(0)
  }

  predicate SlotLooksAbsent(f: Field, s: Slot)
    decreases f, 1
  {
    match s
    case One(v) => LooksAbsent(f, v)
    case Flagged(_, v) => LooksAbsent(f, v)
    case Many(items) => |items| == 0 || LooksAbsent(f, items[0])
    case Alt(chosen) => chosen.None? || LooksAbsent(f, chosen.value)
  }

  predicate AllLookAbsent(fields: seq<Field>, slots: seq<Slot>)
    decreases fields, 0
  {
    |fields| == 0 || |slots| == 0 || (SlotLooksAbsent(fields[0], slots[0]) && AllLookAbsent(fields[1..], slots[1..]))
  }

  function EncodeSlot(f: Field, s: Slot): (r: Option<seq<Byte>>)
    decreases f, 3
  {
    match f.htype
    case Required => if s.One? then EncodeTagged(f, s.v) else None
    case Optional =>
      if f.hasFlag then
        if !s.Flagged? then None else if s.has then EncodeTagged(f, s.v) else Some([])
      else
        if !s.One? then None else if LooksAbsent(f, s.v) then Some([]) else EncodeTagged(f, s.v)
    case Repeated => if s.Many? then EncodeArray(f, s.items) else None
    case Oneof(_) => if !s.Alt? then None else if s.chosen.Some? then EncodeTagged(f, s.chosen.value) else Some([])
  }

  /** The encoding of a whole message: its fields in the order of the field array. */
  function EncodeMessage(fields: seq<Field>, slots: seq<Slot>): (r: Option<seq<Byte>>)
    decreases fields, 4
  {
    if |fields| != |slots| then None
    else if |fields| == 0 then Some([])
    else
      var first, rest := EncodeSlot(fields[0], slots[0]), EncodeMessage(fields[1..], slots[1..]);
      if first.None? || rest.None? then None else Some(first.value + rest.value)
  }
}
