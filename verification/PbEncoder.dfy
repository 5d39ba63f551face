/** The encoder: methods that write a message to a stream field by field. Each succeeds exactly when the encoding exists
    and fits the room left in the stream, and has then written exactly the encoding; so the size that a counting stream
    finds for a submessage is the size that is written, at every depth. */
module PbEncoder {
  import opened Bytes
  import opened PbVarint
  import opened PbMessage
  import PbDecoding
  import opened PbIter
  import opened PbStreams

  // C types.

  predicate Sized(e: Option<seq<Byte>>) {
    e.Some? ==> |e.value| < TWO_64
  }

  /** Values of the C types a field array describes, none of them so large that its length overflows a size_t. */
  predicate Typed(f: Field, v: Value)
    decreases f, 0
  {
    match f.ltype
    case Varint => v.Int? && InInt64(v.i)
    case Svarint => v.Int? && InInt64(v.i)
    case Uvarint => v.Int?
    case Fixed32 => v.Int?
    case Fixed64 => v.Int?
    case Submessage => v.Msg? && AllTyped(f.sub, v.slots) && Sized(EncodeMessage(f.sub, v.slots))
    case FixedBytes => v.Octets? && |v.b| == f.dataSize && |v.b| < TWO_64
    case _ => v.Octets? && |v.b| < TWO_64
  }

  predicate TypedSlot(f: Field, s: Slot)
    decreases f, 1
  {
    match f.htype
    case Required => s.One? && Typed(f, s.v)
    case Optional => if f.hasFlag then s.Flagged? && Typed(f, s.v) else s.One? && Typed(f, s.v)
    case Repeated => s.Many? && Sized(EncodeItems(f, s.items, [])) && forall i :: 0 <= i < |s.items| ==> Typed(f, s.items[i])
    case Oneof(_) => s.Alt? && (s.chosen.Some? ==> Typed(f, s.chosen.value))
  }

  predicate AllTyped(fields: seq<Field>, slots: seq<Slot>)
    decreases fields, 2
  {
    |fields| == |slots| && forall i :: 0 <= i < |fields| ==> TypedSlot(fields[i], slots[i])
  }

  // Integers.

  lemma {:induction false} VarintLength(v: nat, k: nat)
    requires v < Pow2(7 * k) && k > 0
    ensures |VarintBytes(v)| <= k
    decreases k
  {
    if v > 0x7f {
      assert Pow2(7) == 128 by { Pow2Values(); }
      Pow2Sum(7 * (k - 1), 7);
      assert k > 1;
      VarintLength(v / 128, k - 1);
    }
  }

  /** The groups of seven bits of a number, all of them marked as continued. */
  function Groups(v: nat): (s: seq<Byte>) {
    if v == 0 then [] else [v % 128 + 128] + Groups(v / 128)
  }

  lemma {:induction false} GroupsAreVarint(v: nat)
    requires v > 0
    ensures var g := Groups(v); |g| > 0 && g[|g| - 1] >= 128
    ensures var g := Groups(v); g[|g| - 1 := g[|g| - 1] - 128] == VarintBytes(v)
    decreases v
  {
    if v > 0x7f {
      GroupsAreVarint(v / 128);
      var g, h := Groups(v), Groups(v / 128);
      assert g == [v % 128 + 128] + h;
      assert g[|g| - 1 := g[|g| - 1] - 128] == [v % 128 + 128] + h[|h| - 1 := h[|h| - 1] - 128];
    } else {
      assert Groups(v) == [v + 128];
    }
  }

  lemma GroupsFit(v: nat)
    requires v < TWO_64
    ensures |Groups(v)| <= 10
  {
    if v > 0 {
      GroupsAreVarint(v);
      VarintFits(v);
    }
  }

  lemma VarintFits(v: nat)
    requires v < TWO_64
    ensures |VarintBytes(v)| <= 10
  {
    Pow2Values();
    Pow2Grows(64, 70);
    VarintLength(v, 10);
  }

  lemma GroupsStep(v: nat)
    requires v > 0
    ensures Groups(v) == [v % 128 + 128] + Groups(v / 128)
  {
  }

  method EncodeVarint(stream: OStream, value: nat) returns (ok: bool)
    requires stream.Valid() && value < TWO_64
    modifies stream`state, stream`bytesWritten, stream.buf
    ensures stream.Valid() && Done(old(stream.View()), Some(VarintBytes(value)), ok, stream.View())
  {
    hide Groups, VarintBytes, Done;
    if value <= 0x7f {
      assert VarintBytes(value) == [value] by { SmallVarint(value); }
      ok := stream.Write([value]);
      return;
    }
    var buffer := new Byte[10];
    var i, v := 0, value;
    GroupsFit(value);
    GroupsAreVarint(value);
    while v != 0
      invariant 0 <= i <= 10 && 0 <= v
      invariant stream.Valid() && stream.View() == old(stream.View())
      invariant Groups(value) == buffer[..i] + Groups(v)
      decreases v
    {
      GroupsStep(v);
      buffer[i] := v % 128 + 128;
      v := v / 128;
      i := i + 1;
      assert buffer[..i] == buffer[..i - 1] + [buffer[i - 1]];
    }
    assert Groups(value) == buffer[..i] by { NoGroups(); }
    buffer[i - 1] := buffer[i - 1] - 128;
    ok := stream.Write(buffer[..i]);
  }

  lemma SmallVarint(v: nat)
    requires v <= 0x7f
    ensures VarintBytes(v) == [v]
  {
  }

  lemma NoGroups()
    ensures Groups(0) == []
  {
  }

  method EncodeSvarint(stream: OStream, value: int) returns (ok: bool)
    requires stream.Valid() && InInt64(value)
    modifies stream`state, stream`bytesWritten, stream.buf
    ensures stream.Valid() && Done(old(stream.View()), Some(VarintBytes(ZigZag(value))), ok, stream.View())
  {
    hide VarintBytes, Done, ToBits;
    var bits := ToBits(value, TWO_64);
    var zigzagged := if value < 0 then TWO_64 - 1 - ToBits(2 * bits, TWO_64) else 2 * value;
    ok := EncodeVarint(stream, zigzagged);
  }

  method EncodeFixed32(stream: OStream, val: nat) returns (ok: bool)
    requires stream.Valid() && val < TWO_32
    modifies stream`state, stream`bytesWritten, stream.buf
    ensures stream.Valid() && Done(old(stream.View()), Some(LittleEndian(val, 4)), ok, stream.View())
  {
    hide Done;
    var bytes := [val % 256, val / 0x100 % 256, val / 0x1_0000 % 256, val / 0x100_0000 % 256];
    assert LittleEndian(val, 4) == bytes by { FourOctets(val); }
    ok := stream.Write(bytes);
  }

  lemma FourOctets(v: nat)
    ensures LittleEndian(v, 4) == [v % 256, v / 0x100 % 256, v / 0x1_0000 % 256, v / 0x100_0000 % 256]
  {
    var a := v / 256;
    var b := a / 256;
    var c := b / 256;
    assert b == v / 0x1_0000 && c == v / 0x100_0000;
    LittleEndianStep(v, 3);
    LittleEndianStep(a, 2);
    LittleEndianStep(b, 1);
    LittleEndianStep(c, 0);
  }

  lemma LittleEndianStep(v: nat, k: nat)
    ensures LittleEndian(v, k + 1) == [v % 256] + LittleEndian(v / 256, k)
  {
  }

  method EncodeFixed64(stream: OStream, val: nat) returns (ok: bool)
    requires stream.Valid() && val < TWO_64
    modifies stream`state, stream`bytesWritten, stream.buf
    ensures stream.Valid() && Done(old(stream.View()), Some(LittleEndian(val, 8)), ok, stream.View())
  {
    hide Done, LittleEndian;
    var high := val / TWO_32;
    var bytes :=
      [val % 256, val / 0x100 % 256, val / 0x1_0000 % 256, val / 0x100_0000 % 256,
       high % 256, high / 0x100 % 256, high / 0x1_0000 % 256, high / 0x100_0000 % 256];
    EightOctets(val);
    FourOctets(high);
    assert bytes == LittleEndian(val, 8);
    ok := stream.Write(bytes);
  }

  lemma EightOctets(v: nat)
    ensures LittleEndian(v, 8) ==
            [v % 256, v / 0x100 % 256, v / 0x1_0000 % 256, v / 0x100_0000 % 256] + LittleEndian(v / TWO_32, 4)
  {
    var a := v / 256;
    var b := a / 256;
    var c := b / 256;
    assert b == v / 0x1_0000 && c == v / 0x100_0000 && c / 256 == v / TWO_32;
    LittleEndianStep(v, 7);
    LittleEndianStep(a, 6);
    LittleEndianStep(b, 5);
    LittleEndianStep(c, 4);
  }

  method EncodeTagTo(stream: OStream, wireType: nat, fieldNumber: nat) returns (ok: bool)
    requires stream.Valid() && wireType < 8 && fieldNumber < TWO_32
    modifies stream`state, stream`bytesWritten, stream.buf
    ensures stream.Valid() && Done(old(stream.View()), Some(EncodeTag(fieldNumber, wireType)), ok, stream.View())
  {
    hide Done, VarintBytes;
    ok := EncodeVarint(stream, fieldNumber * 8 + wireType);
  }

  method EncodeTagForField(stream: OStream, f: Field) returns (ok: bool)
    requires stream.Valid() && f.tag < TWO_32
    modifies stream`state, stream`bytesWritten, stream.buf
    ensures stream.Valid() && Done(old(stream.View()), Some(FieldTag(f)), ok, stream.View())
  {
    hide Done, EncodeTag;
    var wireType: nat;
    match f.ltype {
      case Varint => wireType := WT_VARINT;
      case Uvarint => wireType := WT_VARINT;
      case Svarint => wireType := WT_VARINT;
      case Fixed32 => wireType := WT_32BIT;
      case Fixed64 => wireType := WT_64BIT;
      case ByteArray => wireType := WT_STRING;
      case CString => wireType := WT_STRING;
      case Submessage => wireType := WT_STRING;
      case FixedBytes => wireType := WT_STRING;
    }
    ok := EncodeTagTo(stream, wireType, f.tag);
  }

  method EncodeString(stream: OStream, b: seq<Byte>) returns (ok: bool)
    requires stream.Valid() && |b| < TWO_64
    modifies stream`state, stream`bytesWritten, stream.buf
    ensures stream.Valid() && Done(old(stream.View()), Some(LengthPrefixed(b)), ok, stream.View())
  {
    hide Done, VarintBytes;
    ghost var v0 := stream.View();
    ok := EncodeVarint(stream, |b|);
    ghost var v1 := stream.View();
    if !ok {
      PartFails(v0, Some(VarintBytes(|b|)), v1, Some(LengthPrefixed(b)));
      return;
    }
    ok := stream.Write(b);
    DoneBoth(v0, VarintBytes(|b|), v1, Some(b), ok, stream.View());
  }

  /** The octets of a string field: up to its terminator, or all of the buffer. */
  method StringLength(b: seq<Byte>, maxSize: nat) returns (size: nat)
    ensures size <= |b| && b[..size] == Terminated(b, maxSize)
  {
    size := 0;
    while size < maxSize && size < |b| && b[size] != 0
      invariant size <= |b| && size <= maxSize
      invariant Terminated(b, maxSize) == b[..size] + Terminated(b[size..], maxSize - size)
    {
      TerminatedStep(b[size..], maxSize - size);
      assert b[size..][1..] == b[size + 1..];
      assert b[..size + 1] == b[..size] + [b[size]];
      size := size + 1;
    }
    assert Terminated(b[size..], maxSize - size) == [];
  }

  lemma TerminatedStep(b: seq<Byte>, size: nat)
    requires |b| > 0 && size > 0 && b[0] != 0
    ensures Terminated(b, size) == [b[0]] + Terminated(b[1..], size - 1)
  {
  }

  // Fields.

  /** The number of a field, and of those of its submessages, fits the 32 bits of a tag. */
  predicate Numbered(f: Field)
    decreases f, 0
  {
    f.tag < TWO_32 && AllNumbered(f.sub)
  }

  predicate AllNumbered(fields: seq<Field>)
    decreases fields, 1
  {
    forall i :: 0 <= i < |fields| ==> Numbered(fields[i])
  }

  lemma {:induction false} ItemsStep(f: Field, items: seq<Value>, i: nat, prefix: seq<Byte>)
    requires i < |items|
    ensures EncodeItems(f, items[..i + 1], prefix) ==
            var front, last := EncodeItems(f, items[..i], prefix), EncodeValue(f, items[i]);
            if front.None? || last.None? then None else Some(front.value + prefix + last.value)
  {
    hide EncodeValue;
    assert items[..i + 1][..i] == items[..i];
  }

  /** The encoding of some of the items is no longer than that of all of them. */
  lemma {:induction false} ItemsPart(f: Field, items: seq<Value>, i: nat, prefix: seq<Byte>)
    requires i <= |items|
    ensures EncodeItems(f, items, prefix).Some? ==>
              EncodeItems(f, items[..i], prefix).Some? &&
              |EncodeItems(f, items[..i], prefix).value| <= |EncodeItems(f, items, prefix).value|
    decreases |items|
  {
    hide EncodeValue;
    if i == |items| {
      assert items[..i] == items;
    } else {
      var front := items[..|items| - 1];
      assert front[..i] == items[..i];
      ItemsPart(f, front, i, prefix);
    }
  }

  lemma {:induction false} FixedItemsLength(f: Field, items: seq<Value>)
    requires f.ltype.Fixed32? || f.ltype.Fixed64?
    requires forall i :: 0 <= i < |items| ==> Typed(f, items[i])
    ensures var e := EncodeItems(f, items, []);
            e.Some? && |e.value| == (if f.ltype.Fixed32? then 4 else 8) * |items|
    decreases |items|
  {
    hide ToBits, LittleEndian;
    if |items| > 0 {
      FixedItemsLength(f, items[..|items| - 1]);
    }
  }

  /** Items one after another, without tags. */
  method EncodeEach(stream: OStream, f: Field, items: seq<Value>) returns (ok: bool)
    requires stream.Valid() && Numbered(f) && forall i :: 0 <= i < |items| ==> Typed(f, items[i])
    modifies stream`state, stream`bytesWritten, stream.buf
    ensures stream.Valid() && Done(old(stream.View()), EncodeItems(f, items, []), ok, stream.View())
    decreases f, 1
  {
    hide Done, EncodeValue, EncodeItems, Typed, Numbered;
    ghost var v0 := stream.View();
    NothingDone(v0);
    NoItemsEncoded(f, []);
    assert items[..0] == [];
    var i := 0;
    while i < |items|
      invariant i <= |items| && stream.Valid()
      invariant EncodeItems(f, items[..i], []).Some?
      invariant Done(v0, EncodeItems(f, items[..i], []), true, stream.View())
    {
      ghost var v1, front := stream.View(), EncodeItems(f, items[..i], []).value;
      ItemsStep(f, items, i, []);
      assert front + [] == front;
      ItemsPart(f, items, i + 1, []);
      ok := EncodeValueTo(stream, f, items[i]);
      DoneBoth(v0, front, v1, EncodeValue(f, items[i]), ok, stream.View());
      if !ok {
        PartFails(v0, EncodeItems(f, items[..i + 1], []), stream.View(), EncodeItems(f, items, []));
        return;
      }
      i := i + 1;
    }
    assert items[..i] == items;
    return true;
  }

  lemma NoItemsEncoded(f: Field, prefix: seq<Byte>)
    ensures EncodeItems(f, [], prefix) == Some([])
  {
  }

  /** Items one after another, each behind its tag. */
  method EncodeEachTagged(stream: OStream, f: Field, items: seq<Value>) returns (ok: bool)
    requires stream.Valid() && Numbered(f) && forall i :: 0 <= i < |items| ==> Typed(f, items[i])
    modifies stream`state, stream`bytesWritten, stream.buf
    ensures stream.Valid() && Done(old(stream.View()), EncodeItems(f, items, FieldTag(f)), ok, stream.View())
    decreases f, 2
  {
    hide Done, EncodeValue, EncodeItems, Typed, Numbered, FieldTag;
    ghost var v0, tag := stream.View(), FieldTag(f);
    NothingDone(v0);
    NoItemsEncoded(f, tag);
    assert items[..0] == [];
    var i := 0;
    while i < |items|
      invariant i <= |items| && stream.Valid()
      invariant EncodeItems(f, items[..i], tag).Some?
      invariant Done(v0, EncodeItems(f, items[..i], tag), true, stream.View())
    {
      ghost var v1, front := stream.View(), EncodeItems(f, items[..i], tag).value;
      ItemsStep(f, items, i, tag);
      ItemsPart(f, items, i + 1, tag);
      ok := EncodeTaggedTo(stream, f, items[i]);
      DoneBoth(v0, front, v1, EncodeTagged(f, items[i]), ok, stream.View());
      assert EncodeItems(f, items[..i + 1], tag) == if EncodeTagged(f, items[i]).None? then None
        else Some(front + EncodeTagged(f, items[i]).value) by {
        if EncodeValue(f, items[i]).Some? {
          var e := EncodeValue(f, items[i]).value;
          assert front + (tag + e) == front + tag + e;
        }
      }
      if !ok {
        PartFails(v0, EncodeItems(f, items[..i + 1], tag), stream.View(), EncodeItems(f, items, tag));
        return;
      }
      i := i + 1;
    }
    assert items[..i] == items;
    return true;
  }

  /** The tag of a field and one value. */
  method EncodeTaggedTo(stream: OStream, f: Field, v: Value) returns (ok: bool)
    requires stream.Valid() && Numbered(f) && Typed(f, v)
    modifies stream`state, stream`bytesWritten, stream.buf
    ensures stream.Valid() && Done(old(stream.View()), EncodeTagged(f, v), ok, stream.View())
    decreases f, 1
  {
    hide Done, EncodeValue, Typed, FieldTag, AllNumbered;
    ghost var v0 := stream.View();
    ok := EncodeTagForField(stream, f);
    ghost var v1 := stream.View();
    if !ok {
      PartFails(v0, Some(FieldTag(f)), v1, EncodeTagged(f, v));
      return;
    }
    ok := EncodeValueTo(stream, f, v);
    DoneBoth(v0, FieldTag(f), v1, EncodeValue(f, v), ok, stream.View());
  }

  method EncodeArrayTo(stream: OStream, f: Field, items: seq<Value>) returns (ok: bool)
    requires stream.Valid() && Numbered(f) && (forall i :: 0 <= i < |items| ==> Typed(f, items[i]))
    requires Sized(EncodeItems(f, items, []))
    modifies stream`state, stream`bytesWritten, stream.buf
    ensures stream.Valid() && Done(old(stream.View()), EncodeArray(f, items), ok, stream.View())
    decreases f, 4
  {
    hide Done, EncodeItems, Typed, FieldTag, EncodeTag, Numbered, VarintBytes;
    ghost var v0 := stream.View();
    NothingDone(v0);
    if |items| == 0 {
      return true;
    }
    if |items| > f.arraySize {
      NothingToDo(v0);
      return false;
    }
    if !(f.ltype.Varint? || f.ltype.Uvarint? || f.ltype.Svarint? || f.ltype.Fixed32? || f.ltype.Fixed64?) {
      ok := EncodeEachTagged(stream, f, items);
      return;
    }
    ok := EncodePackedTo(stream, f, items);
  }

  lemma NothingToDo(v: View)
    requires Sound(v)
    ensures Done(v, None, false, v)
  {
  }

  /** The number of octets of a packed array. */
  method PackedSize(f: Field, items: seq<Value>) returns (size: Option<nat>)
    requires Numbered(f) && forall i :: 0 <= i < |items| ==> Typed(f, items[i])
    ensures var e := EncodeItems(f, items, []); size == if e.None? then None else Some(|e.value|)
    decreases f, 2
  {
    hide Done, EncodeItems, Typed, Numbered;
    if f.ltype.Fixed32? {
      FixedItemsLength(f, items);
      return Some(4 * |items|);
    } else if f.ltype.Fixed64? {
      FixedItemsLength(f, items);
      return Some(8 * |items|);
    }
    var sizestream := new OStream.Sizing();
    ghost var v := sizestream.View();
    var ok := EncodeEach(sizestream, f, items);
    SizingDone(v, EncodeItems(f, items, []), ok, sizestream.View());
    size := if ok then Some(sizestream.bytesWritten) else None;
  }

  method EncodePackedTo(stream: OStream, f: Field, items: seq<Value>) returns (ok: bool)
    requires stream.Valid() && Numbered(f) && (forall i :: 0 <= i < |items| ==> Typed(f, items[i]))
    requires Sized(EncodeItems(f, items, [])) && 0 < |items| <= f.arraySize && Packable(f.ltype)
    modifies stream`state, stream`bytesWritten, stream.buf
    ensures stream.Valid() && Done(old(stream.View()), EncodeArray(f, items), ok, stream.View())
    decreases f, 3
  {
    hide Done, EncodeItems, Typed, FieldTag, EncodeTag, Numbered, VarintBytes;
    ghost var v0, tag, e := stream.View(), EncodeTag(f.tag, WT_STRING), EncodeItems(f, items, []);
    assert f.tag < TWO_32 by { TagOf(f); }
    ok := EncodeTagTo(stream, WT_STRING, f.tag);
    ghost var v1 := stream.View();
    if !ok {
      PartFails(v0, Some(tag), v1, EncodeArray(f, items));
      return;
    }
    var counted := PackedSize(f, items);
    if counted.None? {
      NothingToDo(v1);
      DoneBoth(v0, tag, v1, None, false, v1);
      return false;
    }
    var size := counted.value;
    ok := EncodeVarint(stream, size);
    ghost var v2 := stream.View();
    DoneBoth(v0, tag, v1, Some(VarintBytes(size)), ok, v2);
    if !ok {
      PartFails(v0, Some(tag + VarintBytes(size)), v2, EncodeArray(f, items));
      return;
    }
    if stream.sizing {
      ok := stream.Count(size, e.value);
    } else {
      ok := EncodeEach(stream, f, items);
    }
    DoneBoth(v0, tag + VarintBytes(size), v2, e, ok, stream.View());
    assert tag + VarintBytes(size) + e.value == tag + (VarintBytes(size) + e.value);
  }

  lemma TagOf(f: Field)
    requires Numbered(f)
    ensures f.tag < TWO_32
  {
  }

  /** A counting stream takes any encoding there is, and counts its octets. */
  lemma SizingDone(v: View, e: Option<seq<Byte>>, ok: bool, after: View)
    requires Done(v, e, ok, after) && v.sizing && v.written == 0
    ensures ok <==> e.Some?
    ensures ok ==> after.written == |e.value|
  {
  }

  method EncodeValueTo(stream: OStream, f: Field, v: Value) returns (ok: bool)
    requires stream.Valid() && Numbered(f) && Typed(f, v)
    modifies stream`state, stream`bytesWritten, stream.buf
    ensures stream.Valid() && Done(old(stream.View()), EncodeValue(f, v), ok, stream.View())
    decreases f, 0
  {
    hide Done, EncodeMessage, AllTyped, AllNumbered, Sized, LengthPrefixed, VarintBytes, ZigZag, LittleEndian, ToBits, Terminated;
    ghost var v0 := stream.View();
    NothingToDo(v0);
    match f.ltype {
      case Varint =>
        if !IntSize(f.dataSize) { return false; }
        ok := EncodeVarint(stream, ToBits(v.i, TWO_64));
      case Uvarint =>
        if !IntSize(f.dataSize) { return false; }
        ok := EncodeVarint(stream, ToBits(v.i, TWO_64));
      case Svarint =>
        if !IntSize(f.dataSize) { return false; }
        ok := EncodeSvarint(stream, v.i);
      case Fixed32 => ok := EncodeFixed32(stream, ToBits(v.i, TWO_32));
      case Fixed64 => ok := EncodeFixed64(stream, ToBits(v.i, TWO_64));
      case ByteArray =>
        if |v.b| + BYTES_OFFSET > f.dataSize { return false; }
        ok := EncodeString(stream, v.b);
      case CString =>
        var size := StringLength(v.b, f.dataSize);
        ok := EncodeString(stream, v.b[..size]);
      case FixedBytes => ok := EncodeString(stream, v.b);
      case Submessage => ok := EncodeSubmessage(stream, f.sub, v.slots);
    }
  }

  /** The encoding of a submessage behind its length. */
  function Prefixed(e: Option<seq<Byte>>): Option<seq<Byte>> {
    if e.None? then None else Some(LengthPrefixed(e.value))
  }

  /** Encodes a submessage twice: once to find its size, once to write it. The size cannot change in between. */
  method EncodeSubmessage(stream: OStream, fields: seq<Field>, slots: seq<Slot>) returns (ok: bool)
    requires stream.Valid() && AllNumbered(fields) && AllTyped(fields, slots) && Sized(EncodeMessage(fields, slots))
    modifies stream`state, stream`bytesWritten, stream.buf
    ensures stream.Valid() && Done(old(stream.View()), Prefixed(EncodeMessage(fields, slots)), ok, stream.View())
    decreases fields, 8
  {
    hide Done, EncodeMessage, AllTyped, AllNumbered, VarintBytes;
    ghost var v0, e := stream.View(), EncodeMessage(fields, slots);
    var counted := GetEncodedSize(fields, slots);
    if counted.None? {
      NothingToDo(v0);
      return false;
    }
    var size := counted.value;
    ok := EncodeVarint(stream, size);
    ghost var v1 := stream.View();
    if !ok {
      PartFails(v0, Some(VarintBytes(size)), v1, Prefixed(e));
      return;
    }
    if stream.sizing {
      ok := stream.Count(size, e.value);
      DoneBoth(v0, VarintBytes(size), v1, e, ok, stream.View());
      return;
    }
    if stream.bytesWritten + size > stream.maxSize {
      NoRoom(v1, e);
      DoneBoth(v0, VarintBytes(size), v1, e, false, v1);
      return false;
    }
    var substream := new OStream.FromBuffer(stream.buf, stream.state, size);
    ghost var s1 := substream.View();
    var status := EncodeFields(substream, fields, slots);
    WrittenInFull(s1, e.value, status, substream.View());
    stream.bytesWritten := stream.bytesWritten + substream.bytesWritten;
    stream.state := substream.state;
    SameOctets(v1, s1, e.value, substream.View(), stream.View());
    if substream.bytesWritten != size {
      assert false;
    }
    ok := status;
    DoneBoth(v0, VarintBytes(size), v1, e, ok, stream.View());
  }

  lemma NoRoom(v: View, e: Option<seq<Byte>>)
    requires Sound(v) && e.Some? && !Fits(v, |e.value|)
    ensures Done(v, e, false, v)
  {
  }

  /** A stream with exactly the room for an encoding takes it. */
  lemma WrittenInFull(s: View, e: seq<Byte>, ok: bool, after: View)
    requires Done(s, Some(e), ok, after) && !s.sizing && s.written == 0 && s.limit == |e|
    ensures ok && after.written == |e| && after.out == s.out + e && after.behind == s.behind[|e|..]
  {
  }

  lemma SameOctets(v: View, s: View, e: seq<Byte>, after: View, r: View)
    requires Sound(v) && !v.sizing && Fits(v, |e|)
    requires s.out == v.out && s.behind == v.behind && |e| <= |s.behind|
    requires after.written == |e| && after.out == s.out + e && after.behind == s.behind[|e|..]
    requires r == v.(written := v.written + after.written, out := after.out, behind := after.behind)
    ensures Done(v, Some(e), true, r)
  {
  }

  /** Whether an optional field without a has_ flag is left out. */
  method CheckProto3Default(f: Field, v: Value) returns (isDefault: bool)
    requires Typed(f, v)
    ensures isDefault == LooksAbsent(f, v)
    decreases f, 0
  {
    match f.ltype {
      case ByteArray => return |v.b| == 0;
      case CString => return |v.b| == 0 || v.b[0] == 0;
      case FixedBytes => return f.dataSize == 0;
      case Submessage =>
        var i := 0;
        while i < |f.sub|
          invariant i <= |f.sub| && AllLookAbsent(f.sub, v.slots) == AllLookAbsent(f.sub[i..], v.slots[i..])
        {
          assert f.sub[i..][1..] == f.sub[i + 1..] && v.slots[i..][1..] == v.slots[i + 1..];
          var absent := SlotIsDefault(f.sub[i], v.slots[i]);
          if !absent {
            return false;
          }
          i := i + 1;
        }
        return true;
      case _ => return v == Int(0);
    }
  }

  method SlotIsDefault(f: Field, s: Slot) returns (isDefault: bool)
    requires TypedSlot(f, s)
    ensures isDefault == SlotLooksAbsent(f, s)
    decreases f, 1
  {
    match s {
      case One(v) => isDefault := CheckProto3Default(f, v);
      case Flagged(_, v) => isDefault := CheckProto3Default(f, v);
      case Many(items) =>
        if |items| == 0 { return true; }
        isDefault := CheckProto3Default(f, items[0]);
      case Alt(chosen) =>
        if chosen.None? { return true; }
        isDefault := CheckProto3Default(f, chosen.value);
    }
  }

  method EncodeBasicField(stream: OStream, f: Field, s: Slot) returns (ok: bool)
    requires stream.Valid() && Numbered(f) && TypedSlot(f, s)
    modifies stream`state, stream`bytesWritten, stream.buf
    ensures stream.Valid() && Done(old(stream.View()), EncodeSlot(f, s), ok, stream.View())
    decreases f, 5
  {
    hide Done, EncodeTagged, EncodeArray, Typed, Numbered, LooksAbsent, Sized, EncodeItems;
    NothingDone(stream.View());
    match f.htype {
      case Required => ok := EncodeTaggedTo(stream, f, s.v);
      case Optional =>
        var has: bool;
        if f.hasFlag {
          has := s.has;
        } else {
          var absent := CheckProto3Default(f, s.v);
          has := !absent;
        }
        if !has { return true; }
        ok := EncodeTaggedTo(stream, f, s.v);
      case Repeated => ok := EncodeArrayTo(stream, f, s.items);
      case Oneof(_) =>
        if s.chosen.None? { return true; }
        ok := EncodeTaggedTo(stream, f, s.chosen.value);
    }
  }

  /** What the fields before i and those from i on encode to. */
  ghost predicate Halfway(fields: seq<Field>, slots: seq<Slot>, i: nat, front: seq<Byte>)
    requires i <= |fields| == |slots|
  {
    var rest := EncodeMessage(fields[i..], slots[i..]);
    EncodeMessage(fields, slots) == if rest.None? then None else Some(front + rest.value)
  }

  lemma HalfwayStep(fields: seq<Field>, slots: seq<Slot>, i: nat, front: seq<Byte>)
    requires i < |fields| == |slots| && Halfway(fields, slots, i, front)
    ensures var e := EncodeSlot(fields[i], slots[i]);
            if e.None? then EncodeMessage(fields, slots).None? else
              && Halfway(fields, slots, i + 1, front + e.value)
              && (EncodeMessage(fields, slots).Some? ==>
                  |front + e.value| <= |EncodeMessage(fields, slots).value|)
  {
    hide EncodeSlot;
    assert fields[i..][1..] == fields[i + 1..] && slots[i..][1..] == slots[i + 1..];
    var e, rest := EncodeSlot(fields[i], slots[i]), EncodeMessage(fields[i + 1..], slots[i + 1..]);
    if e.Some? && rest.Some? {
      assert front + (e.value + rest.value) == front + e.value + rest.value;
    }
  }

  lemma HalfwayStart(fields: seq<Field>, slots: seq<Slot>)
    requires |fields| == |slots|
    ensures Halfway(fields, slots, 0, [])
  {
    hide EncodeMessage;
    assert fields[0..] == fields && slots[0..] == slots;
    var e := EncodeMessage(fields, slots);
    if e.Some? {
      assert [] + e.value == e.value;
    }
  }

  lemma HalfwayEnd(fields: seq<Field>, slots: seq<Slot>, front: seq<Byte>)
    requires |fields| == |slots| && Halfway(fields, slots, |fields|, front)
    ensures EncodeMessage(fields, slots) == Some(front)
  {
    assert front + [] == front;
  }

  /** Encodes the fields of a message in the order of the field array. */
  method EncodeFields(stream: OStream, fields: seq<Field>, slots: seq<Slot>) returns (ok: bool)
    requires stream.Valid() && AllNumbered(fields) && AllTyped(fields, slots)
    modifies stream`state, stream`bytesWritten, stream.buf
    ensures stream.Valid() && Done(old(stream.View()), EncodeMessage(fields, slots), ok, stream.View())
    decreases fields, 6
  {
    hide Done, EncodeMessage, EncodeSlot, TypedSlot, Numbered, Halfway, PbDecoding.RequiredBefore;
    var iter := new FieldIter(fields);
    ghost var v0, front := stream.View(), [];
    HalfwayStart(fields, slots);
    NothingDone(v0);
    var more := iter.Begin();
    if !more {
      HalfwayEnd(fields, slots, []);
      return true;
    }
    while more
      invariant stream.Valid() && iter.Valid() && iter.start == fields && |fields| > 0
      invariant more ==> Halfway(fields, slots, iter.pos, front)
      invariant !more ==> Halfway(fields, slots, |fields|, front)
      invariant Done(v0, Some(front), true, stream.View())
      decreases if more then |fields| - iter.pos else 0
    {
      ghost var i, v1 := iter.pos, stream.View();
      ok := EncodeBasicField(stream, fields[iter.pos], slots[iter.pos]);
      ghost var e := EncodeSlot(fields[i], slots[i]);
      HalfwayStep(fields, slots, i, front);
      DoneBoth(v0, front, v1, e, ok, stream.View());
      if !ok {
        PartFails(v0, if e.Some? then Some(front + e.value) else None, stream.View(), EncodeMessage(fields, slots));
        return;
      }
      DoneIsThere(v1, e, stream.View());
      front := front + e.value;
      more := iter.Next();
    }
    HalfwayEnd(fields, slots, front);
    return true;
  }

  lemma DoneIsThere(v: View, e: Option<seq<Byte>>, after: View)
    requires Done(v, e, true, after)
    ensures e.Some?
  {
  }

  /** The size of the encoding of a message, without writing it. */
  method GetEncodedSize(fields: seq<Field>, slots: seq<Slot>) returns (size: Option<nat>)
    requires AllNumbered(fields) && AllTyped(fields, slots)
    ensures var e := EncodeMessage(fields, slots); size == if e.None? then None else Some(|e.value|)
    decreases fields, 7
  {
    hide Done, EncodeMessage, AllNumbered, AllTyped;
    var stream := new OStream.Sizing();
    ghost var v := stream.View();
    var ok := EncodeFields(stream, fields, slots);
    SizingDone(v, EncodeMessage(fields, slots), ok, stream.View());
    size := if ok then Some(stream.bytesWritten) else None;
  }
}
