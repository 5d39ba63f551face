/** What the Protocol Buffers decoder computes, as functions of the octets left in the stream. */
module PbDecoding {
  import opened Bytes
  import opened PbVarint
  import opened PbMessage

  /** A decoded item, a decoding error, or behaviour that C leaves undefined. */
  datatype Dec<+T> = Good(v: T) | Bad | Undefined

  const MAX_REQUIRED: nat := 64

  function Modulus(size: nat): (m: nat)
    ensures m >= 2
  {
    if size == 1 then 0x100 else if size == 2 then 0x1_0000 else if size == 4 then TWO_32 else TWO_64
  }

  /** Casting a decoded varint to a signed field, which must not lose anything; fields of 32 bits or less look at the low
      32 bits alone. */
  function CastSigned(n: nat, size: nat): (r: Dec<Value>) {
    if !IntSize(size) then Bad
    else
      var svalue := FromBits(n, if size == 8 then TWO_64 else TWO_32);
      var clamped := FromBits(ToBits(svalue, Modulus(size)), Modulus(size));
      if clamped == svalue then Good(Int(clamped)) else Bad
  }

  function CastUnsigned(n: nat, size: nat): (r: Dec<Value>) {
    if !IntSize(size) then Bad
    else if n % Modulus(size) == n then Good(Int(n)) else Bad
  }

  function CastZigZag(i: int, size: nat): (r: Dec<Value>) {
    if !IntSize(size) then Bad
    else
      var clamped := FromBits(ToBits(i, Modulus(size)), Modulus(size));
      if clamped == i then Good(Int(clamped)) else Bad
  }

  /** A length and as many octets: the substream of a string, and what follows it. */
  function Substream(s: seq<Byte>): (r: Option<(seq<Byte>, seq<Byte>)>)
    ensures r.Some? ==> |r.value.0| + |r.value.1| < |s| && r.value.1 == s[|s| - |r.value.1|..]
  {
    var (size, rest) := DecodeVarint32(s);
    if size.None? || |rest| < size.value then None else Some((rest[..size.value], rest[size.value..]))
  }

  function Zeros(n: nat): (s: seq<Byte>)
    ensures |s| == n
  {
    seq(n, i => 0)
  }

  /** Whether a payload of the given length fits a bytes, string or fixed-length field. */
  predicate Accepts(f: Field, size: nat) {
    match f.ltype
    case ByteArray => size + BYTES_OFFSET <= f.dataSize
    case CString => size + 1 < TWO_32 && size + 1 <= f.dataSize
    case _ => size == f.dataSize
  }

  function DecodeOctets(f: Field, s: seq<Byte>): (r: (Dec<Value>, seq<Byte>))
    ensures |r.1| <= |s| && (r.0.Good? ==> |r.1| < |s|)
  {
    var (size, rest) := DecodeVarint32(s);
    if size.None? then (Bad, rest)
    else if f.ltype.FixedBytes? && size.value == 0 then (Good(Octets(Zeros(f.dataSize))), rest)
    else if !Accepts(f, size.value) || |rest| < size.value then (Bad, rest)
    else (Good(Octets(rest[..size.value])), rest[size.value..])
  }

  function DecodeFixed(s: seq<Byte>, k: nat): (r: (Dec<Value>, seq<Byte>))
    requires k > 0
    ensures |r.1| <= |s| && (r.0.Good? ==> |r.1| < |s|)
  {
    if |s| < k then (Bad, s) else (Good(Int(FromLittleEndian(s[..k]))), s[k..])
  }

  function DecodeVarintValue(f: Field, s: seq<Byte>): (r: (Dec<Value>, seq<Byte>))
    ensures |r.1| <= |s| && (r.0.Good? ==> |r.1| < |s|)
  {
    var (n, rest) := DecodeVarint64(s);
    DecodedBounds(s);
    if n.None? then (Bad, rest)
    else if f.ltype.Varint? then (CastSigned(n.value, f.dataSize), rest)
    else if f.ltype.Uvarint? then (CastUnsigned(n.value, f.dataSize), rest)
    else (CastZigZag(UnZigZag(n.value), f.dataSize), rest)
  }

  /** The slots a submessage is decoded into: what is there already, or defaults. */
  function Base(f: Field, prior: Value): seq<Slot> {
    if prior.Msg? then prior.slots else Defaults(f.sub)
  }

  /** One item. A submessage is merged into the prior value. */
  function DecodeValue(f: Field, prior: Value, s: seq<Byte>): (r: (Dec<Value>, seq<Byte>))
    ensures |r.1| <= |s| && (r.0.Good? ==> |r.1| < |s|)
    decreases |s|, 0
  {
    match f.ltype
    case Varint => DecodeVarintValue(f, s)
    case Uvarint => DecodeVarintValue(f, s)
    case Svarint => DecodeVarintValue(f, s)
    case Fixed32 => DecodeFixed(s, 4)
    case Fixed64 => DecodeFixed(s, 8)
    case ByteArray => DecodeOctets(f, s)
    case CString => DecodeOctets(f, s)
    case FixedBytes => DecodeOctets(f, s)
    case Submessage =>
      var sub := Substream(s);
      if sub.None? then (Bad, [])
      else
        match DecodeMessage(f.sub, Base(f, prior), sub.value.0)
        case Good(slots) => (Good(Msg(slots)), sub.value.1)
        case Bad => (Bad, sub.value.1)
        case Undefined => (Undefined, sub.value.1)
  }

  /** The items of a packed array, as long as there is room for them. */
  function DecodeItems(f: Field, items: seq<Value>, s: seq<Byte>): (r: Dec<seq<Value>>)
    decreases |s|, 1
  {
    if |s| == 0 then Good(items)
    else if |items| >= f.arraySize then Bad
    else
      var (v, rest) := DecodeValue(f, DefaultValue(f), s);
      match v
      case Good(v) => DecodeItems(f, items + [v], rest)
      case Bad => Bad
      case Undefined => Undefined
  }

  /** The slot with a newly decoded item in it. */
  function Store(f: Field, slot: Slot, v: Value): Slot {
    match f.htype
    case Required => One(v)
    case Optional => if f.hasFlag then Flagged(true, v) else One(v)
    case Repeated => Many((if slot.Many? then slot.items else []) + [v])
    case Oneof(_) => Alt(Some(v))
  }

  /** What the slot holds before a single item is decoded into it. */
  function Before(f: Field, slot: Slot): Value {
    match slot
    case One(v) => v
    case Flagged(_, v) => v
    case _ => DefaultValue(f)
  }

  function Items(slot: Slot): seq<Value> {
    if slot.Many? then slot.items else []
  }

  /** One record of a field. */
  function DecodeSlot(f: Field, slot: Slot, wireType: nat, s: seq<Byte>): (r: (Dec<Slot>, seq<Byte>))
    ensures |r.1| <= |s|
    decreases |s|, 2
  {
    if f.htype.Repeated? && wireType == WT_STRING && Packable(f.ltype) then
      var sub := Substream(s);
      if sub.None? then (Bad, [])
      else
        match DecodeItems(f, Items(slot), sub.value.0)
        case Good(items) => (Good(Many(items)), sub.value.1)
        case Bad => (Bad, sub.value.1)
        case Undefined => (Undefined, sub.value.1)
    else if f.htype.Repeated? && |Items(slot)| >= f.arraySize then (Bad, s)
    else
      var (v, rest) := DecodeValue(f, Before(f, slot), s);
      match v
      case Good(v) => (Good(Store(f, slot, v)), rest)
      case Bad => (Bad, rest)
      case Undefined => (Undefined, rest)
  }

  // Skipping fields nobody knows.

  function SkipVarint(s: seq<Byte>): (r: Option<seq<Byte>>)
    ensures r.Some? ==> |r.value| < |s| && r.value == s[|s| - |r.value|..]
  {
    if |s| == 0 then None else if s[0] >= 128 then SkipVarint(s[1..]) else Some(s[1..])
  }

  function Skip(wireType: nat, s: seq<Byte>): (r: Option<seq<Byte>>)
    ensures r.Some? ==> |r.value| <= |s|
  {
    if wireType == WT_VARINT then SkipVarint(s)
    else if wireType == WT_64BIT then if |s| < 8 then None else Some(s[8..])
    else if wireType == WT_STRING then
      var sub := Substream(s);
      if sub.None? then None else Some(sub.value.1)
    else if wireType == WT_32BIT then if |s| < 4 then None else Some(s[4..])
    else None
  }

  // Messages.

  /** The first field with the given tag; |fields| when there is none. */
  function Find(fields: seq<Field>, tag: nat): (i: nat)
    ensures i <= |fields|
    ensures i < |fields| ==> fields[i].tag == tag
    ensures forall j :: 0 <= j < i ==> fields[j].tag != tag
  {
    if |fields| == 0 || fields[0].tag == tag then 0 else 1 + Find(fields[1..], tag)
  }

  /** How many of the first i fields are required. */
  function RequiredBefore(fields: seq<Field>, i: nat): (n: nat)
    requires i <= |fields|
    ensures n <= i
  {
    if i == 0 then 0 else RequiredBefore(fields, i - 1) + if fields[i - 1].htype.Required? then 1 else 0
  }

  /** The slots with slot i replaced; selecting a member of a oneof deselects the others. */
  function Replace(fields: seq<Field>, slots: seq<Slot>, i: nat, s: Slot): (r: seq<Slot>)
    requires |fields| == |slots| && i < |slots|
    ensures |r| == |slots|
    ensures forall j :: 0 <= j < |r| ==>
              r[j] == if j == i then s
                      else if fields[i].htype.Oneof? && fields[j].htype == fields[i].htype then Alt(None)
                      else slots[j]
  {
    seq(|slots|, j requires 0 <= j < |slots| =>
      if j == i then s
      else if fields[i].htype.Oneof? && fields[j].htype == fields[i].htype then Alt(None)
      else slots[j])
  }

  /** A message under decoding, and which of its required fields have been seen. */
  datatype State = State(slots: seq<Slot>, seen: set<nat>)

  /** The end of a run over the records of a stream: the octets ran out, an end marker was met, or decoding failed. */
  datatype Outcome = RanOut(st: State) | EndMark(st: State) | Broken | Unknowable

  /** The state after a record of field i. */
  function Stored(fields: seq<Field>, st: State, i: nat, slot: Slot): (r: State)
    requires |fields| == |st.slots| && i < |fields|
    ensures |r.slots| == |fields|
  {
    var k := RequiredBefore(fields, i);
    State(Replace(fields, st.slots, i, slot),
          if fields[i].htype.Required? && k < MAX_REQUIRED then st.seen + {k} else st.seen)
  }

  /** What one record leads to: a new state and the octets behind the record, or the end of the run. */
  datatype Progress = More(st: State, rest: seq<Byte>) | Stop(out: Outcome)

  /** Decodes one record. A tag that cannot be read because the octets run out, and a zero tag, both count as the end of
      the message. */
  function DecodeRecord(fields: seq<Field>, st: State, s: seq<Byte>): (r: Progress)
    requires |st.slots| == |fields| && |s| > 0
    ensures r.More? ==> |r.st.slots| == |fields| && |r.rest| < |s|
    ensures r.Stop? ==> r.out.Broken? || r.out.Unknowable? || r.out == EndMark(st)
    decreases |s|, 3
  {
    var (key, rest) := DecodeVarint32(s);
    if key.None? then Stop(if |rest| == 0 then EndMark(st) else Broken)
    else if key.value == 0 then Stop(EndMark(st))
    else
      var tag, wireType := key.value / 8, key.value % 8;
      var i := Find(fields, tag);
      if i == |fields| then
        if |fields| == 0 && tag == 0 then Stop(Broken)
        else
          var skipped := Skip(wireType, rest);
          if skipped.None? then Stop(Broken) else More(st, skipped.value)
      else
        var (slot, rest') := DecodeSlot(fields[i], st.slots[i], wireType, rest);
        match slot
        case Good(slot) => More(Stored(fields, st, i, slot), rest')
        case Bad => Stop(Broken)
        case Undefined => Stop(Unknowable)
  }

  /** Decodes record after record. */
  function DecodeRecords(fields: seq<Field>, st: State, s: seq<Byte>): (r: Outcome)
    requires |st.slots| == |fields|
    ensures r.RanOut? || r.EndMark? ==> |r.st.slots| == |fields|
    decreases |s|, 4
  {
    if |s| == 0 then RanOut(st)
    else
      match DecodeRecord(fields, st, s)
      case More(st', rest) => DecodeRecords(fields, st', rest)
      case Stop(out) => out
  }

  datatype Check = Pass | Missing | OutOfRange

  /** All 32 bits of a word of the seen-bitmap. */
  predicate WordFull(seen: set<nat>, w: nat) {
    forall k :: 32 * w <= k < 32 * w + 32 ==> k in seen
  }

  /** Exactly the low n bits of a word. */
  predicate WordLow(seen: set<nat>, w: nat, n: nat) {
    forall k :: 32 * w <= k < 32 * w + 32 ==> (k in seen <==> k < 32 * w + n)
  }

  /** The check of the required fields, over a bitmap of two words. It goes out of range, or shifts a word by its whole
      width, unless the count is below 64 and no multiple of 32. */
  function CheckWords(count: nat, seen: set<nat>, w: nat): (c: Check)
    requires w <= count / 32
    decreases count / 32 - w
  {
    if w >= 2 then OutOfRange
    else if w < count / 32 then if WordFull(seen, w) then CheckWords(count, seen, w + 1) else Missing
    else if count % 32 == 0 then OutOfRange
    else if WordLow(seen, w, count % 32) then Pass
    else Missing
  }

  function CheckRequired(count: nat, seen: set<nat>): (c: Check) {
    if count == 0 then Pass else CheckWords(count, seen, 0)
  }

  /** Decodes a message into the given slots. */
  function DecodeMessage(fields: seq<Field>, slots: seq<Slot>, s: seq<Byte>): (r: Dec<seq<Slot>>)
    ensures r.Good? ==> |r.v| == |fields|
    decreases |s|, 5
  {
    if |slots| != |fields| then Bad
    else
      match DecodeRecords(fields, State(slots, {}), s)
      case Broken => Bad
      case Unknowable => Undefined
      case RanOut(st) => Checked(fields, st)
      case EndMark(st) => Checked(fields, st)
  }

  function Checked(fields: seq<Field>, st: State): (r: Dec<seq<Slot>>)
  {
    match CheckRequired(RequiredBefore(fields, |fields|), st.seen)
    case Pass => Good(st.slots)
    case Missing => Bad
    case OutOfRange => Undefined
  }

  /** pb_decode: into defaults. */
  function Decode(fields: seq<Field>, s: seq<Byte>): (r: Dec<seq<Slot>>) {
    DecodeMessage(fields, Defaults(fields), s)
  }
}
