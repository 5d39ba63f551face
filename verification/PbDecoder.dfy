/** The input stream of the decoder and the methods that read a message from it. */
module PbDecoder {
  import opened Bytes
  import opened PbVarint
  import opened PbMessage
  import opened PbDecoding
  import opened PbFold
  import opened PbRequired
  import opened PbRoundTrip
  import opened PbIter

  /** A stream over a buffer; bytesLeft octets from state on are still to be read. */
  class IStream {
    const source: seq<Byte>
    var state: nat
    var bytesLeft: nat

    ghost predicate Valid()
      reads this
    {
      state + bytesLeft <= |source|
    }

    ghost function Left(): (s: seq<Byte>)
      requires Valid()
      reads this
      ensures |s| == bytesLeft
    {
      source[state..state + bytesLeft]
    }

    /** Where the stream ends in its buffer. */
    ghost function End(): nat
      reads this
    {
      state + bytesLeft
    }

    constructor (buf: seq<Byte>)
      ensures Valid() && Left() == buf
    {
      source := buf;
      state := 0;
      bytesLeft := |buf|;
    }

    constructor Copy(from: seq<Byte>, at: nat, size: nat)
      requires at + size <= |from|
      ensures Valid() && source == from && state == at && bytesLeft == size
    {
      source := from;
      state := at;
      bytesLeft := size;
    }

    method Read(count: nat) returns (b: Option<seq<Byte>>)
      requires Valid()
      modifies this
      ensures Valid() && End() == old(End())
      ensures b.Some? <==> count <= old(bytesLeft)
      ensures b.Some? ==> b.value == old(Left())[..count] && Left() == old(Left())[count..]
      ensures b.None? ==> Left() == old(Left())
    {
      if bytesLeft < count {
        return None;
      }
      b := Some(source[state..state + count]);
      state := state + count;
      bytesLeft := bytesLeft - count;
    }

    method ReadByte() returns (b: Option<Byte>)
      requires Valid()
      modifies this
      ensures Valid() && End() == old(End())
      ensures b.Some? <==> old(bytesLeft) > 0
      ensures b.Some? ==> b.value == old(Left())[0] && Left() == old(Left())[1..]
      ensures b.None? ==> Left() == old(Left())
    {
      if bytesLeft == 0 {
        return None;
      }
      b := Some(source[state]);
      state := state + 1;
      bytesLeft := bytesLeft - 1;
    }

    method Varint32() returns (r: Option<nat>)
      requires Valid()
      modifies this
      ensures Valid() && End() == old(End())
      ensures (r, Left()) == DecodeVarint32(old(Left()))
    {
      hide Pow2, Place, ReadVarint;
      ghost var s := Left();
      ReadVarintCases(s, 32, 0, 0);
      var first := ReadByte();
      if first.None? {
        return None;
      }
      var byte := first.value;
      FirstSeven(byte, 32);
      if byte < 0x80 {
        return Some(byte);
      }
      var bitpos: nat, result: nat := 7, byte % 0x80;
      while true
        invariant Valid() && End() == old(End()) && bitpos >= 7
        invariant DecodeVarint32(s) == ReadVarint(Left(), 32, bitpos, result)
        decreases bytesLeft
      {
        ReadVarintCases(Left(), 32, bitpos, result);
        if bitpos >= 32 {
          return None;
        }
        var next := ReadByte();
        if next.None? {
          return None;
        }
        byte := next.value;
        result := (result + Place(byte % 0x80, bitpos)) % Pow2(32);
        bitpos := bitpos + 7;
        if byte < 0x80 {
          return Some(result);
        }
      }
    }

    method Varint64() returns (r: Option<nat>)
      requires Valid()
      modifies this
      ensures Valid() && End() == old(End())
      ensures (r, Left()) == DecodeVarint64(old(Left()))
    {
      hide Pow2, Place, ReadVarint;
      ghost var s := Left();
      var bitpos: nat, result: nat := 0, 0;
      while true
        invariant Valid() && End() == old(End()) && bitpos >= 0
        invariant DecodeVarint64(s) == ReadVarint(Left(), 64, bitpos, result)
        decreases bytesLeft
      {
        ReadVarintCases(Left(), 64, bitpos, result);
        if bitpos >= 64 {
          return None;
        }
        var next := ReadByte();
        if next.None? {
          return None;
        }
        var byte := next.value;
        result := (result + Place(byte % 0x80, bitpos)) % Pow2(64);
        bitpos := bitpos + 7;
        if byte < 0x80 {
          return Some(result);
        }
      }
    }

    method SkipVarint() returns (ok: bool)
      requires Valid()
      modifies this
      ensures Valid() && End() == old(End())
      ensures var r := PbDecoding.SkipVarint(old(Left())); (ok <==> r.Some?) && (ok ==> Left() == r.value)
    {
      ghost var s := Left();
      while true
        invariant Valid() && End() == old(End())
        invariant PbDecoding.SkipVarint(s) == PbDecoding.SkipVarint(Left())
        decreases bytesLeft
      {
        var byte := Read(1);
        if byte.None? {
          return false;
        }
        if byte.value[0] < 0x80 {
          return true;
        }
      }
    }

    method SkipString() returns (ok: bool)
      requires Valid()
      modifies this
      ensures Valid() && End() == old(End())
      ensures var r := Substream(old(Left())); (ok <==> r.Some?) && (ok ==> Left() == r.value.1)
    {
      hide ReadVarint;
      var length := Varint32();
      if length.None? {
        return false;
      }
      var skipped := Read(length.value);
      ok := skipped.Some?;
    }

    method SkipField(wireType: nat) returns (ok: bool)
      requires Valid()
      modifies this
      ensures Valid() && End() == old(End())
      ensures var r := Skip(wireType, old(Left())); (ok <==> r.Some?) && (ok ==> Left() == r.value)
    {
      hide PbDecoding.SkipVarint, Substream;
      var skipped: Option<seq<Byte>>;
      if wireType == WT_VARINT {
        ok := SkipVarint();
      } else if wireType == WT_64BIT {
        skipped := Read(8);
        ok := skipped.Some?;
      } else if wireType == WT_STRING {
        ok := SkipString();
      } else if wireType == WT_32BIT {
        skipped := Read(4);
        ok := skipped.Some?;
      } else {
        ok := false;
      }
    }

    /** The tag and wire type of a record; eof when the message ends here. */
    method DecodeTag() returns (ok: bool, wireType: nat, tag: nat, eof: bool)
      requires Valid()
      modifies this
      ensures Valid() && End() == old(End())
      ensures var (key, rest) := DecodeVarint32(old(Left()));
              && Left() == rest
              && (ok <==> key.Some? && key.value != 0)
              && (ok ==> tag == key.value / 8 && wireType == key.value % 8)
              && (!ok ==> (eof <==> key == Some(0) || |rest| == 0))
    {
      hide DecodeVarint32;
      eof, wireType, tag := false, 0, 0;
      var temp := Varint32();
      if temp.None? {
        if bytesLeft == 0 {
          eof := true;
        }
        return false, wireType, tag, eof;
      }
      if temp.value == 0 {
        eof := true;
        return false, wireType, tag, eof;
      }
      return true, temp.value % 8, temp.value / 8, eof;
    }

    /** Splits the octets of a length-prefixed item off into a stream of their own. Until that is closed, this stream
        keeps only the number of octets behind them. */
    method MakeSubstream() returns (sub: IStream?)
      requires Valid()
      modifies this
      ensures sub != null <==> Substream(old(Left())).Some?
      ensures sub != null ==>
                && fresh(sub) && sub.Valid() && sub.source == source && sub.bytesLeft < old(bytesLeft)
                && sub.Left() == Substream(old(Left())).value.0
                && sub.End() + bytesLeft == old(End()) && sub.state == state && sub.End() <= old(End()) <= |source|
                && source[sub.End()..old(End())] == Substream(old(Left())).value.1
      ensures sub == null ==> Valid() && End() == old(End())
    {
      hide DecodeVarint32;
      var size := Varint32();
      if size.None? || bytesLeft < size.value {
        return null;
      }
      sub := new IStream.Copy(source, state, size.value);
      bytesLeft := bytesLeft - size.value;
    }

    method CloseSubstream(sub: IStream)
      requires sub != this && sub.Valid() && sub.source == source && sub.End() + bytesLeft <= |source|
      modifies this, sub
      ensures Valid() && bytesLeft == old(bytesLeft) && state == old(sub.End())
    {
      if sub.bytesLeft != 0 {
        var _ := sub.Read(sub.bytesLeft);
      }
      state := sub.state;
    }
  }

  lemma ReadVarintCases(s: seq<Byte>, width: nat, pos: nat, acc: nat)
    ensures ReadVarint(s, width, pos, acc) ==
            if pos >= width || |s| == 0 then (None, s)
            else
              var acc' := (acc + Place(s[0] % 128, pos)) % Pow2(width);
              if s[0] < 128 then (Some(acc'), s[1..]) else ReadVarint(s[1..], width, pos + 7, acc')
  {
    hide Pow2, Place;
  }

  lemma FirstSeven(b: Byte, width: nat)
    requires width >= 8
    ensures (0 + Place(b % 128, 0)) % Pow2(width) == b % 128
  {
    Pow2Grows(8, width);
    assert Pow2(8) == 256;
    assert Place(b % 128, 0) == b % 128;
    hide Pow2;
    SmallMod(b % 128, Pow2(width));
  }

  // Items.

  /** What a method that reads an item says about it: the value or error the stream holds, and on success the octets that
      follow. */
  ghost predicate Reads<T>(expected: (Dec<T>, seq<Byte>), r: Dec<T>, left: seq<Byte>) {
    r == expected.0 && (r.Good? ==> left == expected.1)
  }

  method DecodeVarintFrom(stream: IStream, f: Field) returns (r: Dec<Value>)
    requires stream.Valid()
    modifies stream
    ensures stream.Valid() && stream.End() == old(stream.End())
    ensures Reads(DecodeVarintValue(f, old(stream.Left())), r, stream.Left())
  {
    hide DecodeVarint64, CastSigned, CastUnsigned, CastZigZag, UnZigZag;
    DecodedBounds(stream.Left());
    var value := stream.Varint64();
    if value.None? {
      return Bad;
    }
    match f.ltype {
      case Varint => r := ToSigned(value.value, f.dataSize);
      case Uvarint => r := CastUnsigned(value.value, f.dataSize);
      case _ => r := CastZigZag(UnZigZag(value.value), f.dataSize);
    }
  }

  /** A varint as a signed integer of the size of the field. */
  method ToSigned(value: nat, dataSize: nat) returns (r: Dec<Value>)
    ensures r == CastSigned(value, dataSize)
  {
    hide FromBits, ToBits;
    var svalue := if dataSize == 8 then FromBits(value, TWO_64) else FromBits(value, TWO_32);
    var clamped: int;
    if dataSize == 8 {
      clamped := FromBits(ToBits(svalue, TWO_64), TWO_64);
    } else if dataSize == 4 {
      clamped := FromBits(ToBits(svalue, TWO_32), TWO_32);
    } else if dataSize == 2 {
      clamped := FromBits(ToBits(svalue, 0x1_0000), 0x1_0000);
    } else if dataSize == 1 {
      clamped := FromBits(ToBits(svalue, 0x100), 0x100);
    } else {
      return Bad;
    }
    if clamped != svalue {
      return Bad;
    }
    return Good(Int(clamped));
  }

  method DecodeFixedFrom(stream: IStream, k: nat) returns (r: Dec<Value>)
    requires stream.Valid() && k > 0
    modifies stream
    ensures stream.Valid() && stream.End() == old(stream.End())
    ensures Reads(DecodeFixed(old(stream.Left()), k), r, stream.Left())
  {
    var bytes := stream.Read(k);
    if bytes.None? {
      return Bad;
    }
    return Good(Int(FromLittleEndian(bytes.value)));
  }

  method DecodeOctetsFrom(stream: IStream, f: Field) returns (r: Dec<Value>)
    requires stream.Valid() && (f.ltype.ByteArray? || f.ltype.CString? || f.ltype.FixedBytes?)
    modifies stream
    ensures stream.Valid() && stream.End() == old(stream.End())
    ensures Reads(DecodeOctets(f, old(stream.Left())), r, stream.Left())
  {
    hide DecodeVarint32;
    DecodedBoundsIn(stream.Left());
    var size := stream.Varint32();
    if size.None? {
      return Bad;
    }
    match f.ltype {
      case ByteArray =>
        if size.value + BYTES_OFFSET > f.dataSize { return Bad; }
      case CString =>
        var allocSize := (size.value + 1) % TWO_32;
        if allocSize < size.value || allocSize > f.dataSize { return Bad; }
      case FixedBytes =>
        if size.value == 0 { return Good(Octets(Zeros(f.dataSize))); }
        if size.value != f.dataSize { return Bad; }
    }
    var bytes := stream.Read(size.value);
    if bytes.None? {
      return Bad;
    }
    return Good(Octets(bytes.value));
  }

  lemma DecodedBoundsIn(s: seq<Byte>)
    ensures DecodeVarint32(s).0.Some? ==> DecodeVarint32(s).0.value < TWO_32
  {
    hide DecodeVarint32, DecodeVarint64;
    DecodedBounds(s);
  }

  // Fields and messages.

  /** The field arrays of a message and of its submessages have distinct tags. */
  predicate AllDistinct(fields: seq<Field>)
    decreases fields, 1
  {
    DistinctTags(fields) && forall i :: 0 <= i < |fields| ==> SubDistinct(fields[i])
  }

  predicate SubDistinct(f: Field)
    decreases f, 0
  {
    AllDistinct(f.sub)
  }

  method DecodeValueFrom(stream: IStream, f: Field, prior: Value) returns (r: Dec<Value>)
    requires stream.Valid() && SubDistinct(f)
    modifies stream
    ensures stream.Valid() && stream.End() <= old(stream.End()) && (r.Good? ==> stream.End() == old(stream.End()))
    ensures Reads(DecodeValue(f, prior, old(stream.Left())), r, stream.Left())
    decreases stream.bytesLeft, 0
  {
    hide Substream, DecodeMessage, DecodeOctets, DecodeFixed, DecodeVarintValue, AllDistinct, Base;
    match f.ltype {
      case Varint => r := DecodeVarintFrom(stream, f);
      case Uvarint => r := DecodeVarintFrom(stream, f);
      case Svarint => r := DecodeVarintFrom(stream, f);
      case Fixed32 => r := DecodeFixedFrom(stream, 4);
      case Fixed64 => r := DecodeFixedFrom(stream, 8);
      case ByteArray => r := DecodeOctetsFrom(stream, f);
      case CString => r := DecodeOctetsFrom(stream, f);
      case FixedBytes => r := DecodeOctetsFrom(stream, f);
      case Submessage =>
        var sub := stream.MakeSubstream();
        if sub == null {
          return Bad;
        }
        var m := DecodeNoInit(sub, f.sub, Base(f, prior));
        stream.CloseSubstream(sub);
        match m {
          case Good(slots) => r := Good(Msg(slots));
          case Bad => r := Bad;
          case Undefined => r := Undefined;
        }
    }
  }

  /** The items of a packed array, up to the number there is room for. */
  method DecodePacked(stream: IStream, f: Field, slot: Slot) returns (r: Dec<Slot>)
    requires stream.Valid() && SubDistinct(f) && f.htype.Repeated? && Packable(f.ltype)
    modifies stream
    ensures stream.Valid() && stream.End() <= old(stream.End()) && (r.Good? ==> stream.End() == old(stream.End()))
    ensures Reads(DecodeSlot(f, slot, WT_STRING, old(stream.Left())), r, stream.Left())
    decreases stream.bytesLeft, 1
  {
    hide Substream, DecodeValue, SubDistinct, DefaultValue, Packable;
    var sub := stream.MakeSubstream();
    if sub == null {
      return Bad;
    }
    var items, status := Items(slot), true;
    ghost var all, end, at := DecodeItems(f, items, sub.Left()), sub.End(), stream.state;
    while sub.bytesLeft > 0 && |items| < f.arraySize && status
      invariant sub.Valid() && sub.End() <= end && sub != stream
      invariant stream.bytesLeft + end == old(stream.End()) && stream.state == at <= end
      invariant if status then sub.End() == end && all == DecodeItems(f, items, sub.Left()) else all.Bad?
      decreases status, sub.bytesLeft
    {
      PackableIsScalar(f, DefaultValue(f), sub.Left());
      var v := DecodeValueFrom(sub, f, DefaultValue(f));
      if v.Good? {
        items := items + [v.v];
      } else {
        status := false;
      }
    }
    if sub.bytesLeft != 0 {
      return Bad;
    }
    stream.CloseSubstream(sub);
    r := if status then Good(Many(items)) else Bad;
  }

  lemma PackableIsScalar(f: Field, prior: Value, s: seq<Byte>)
    requires Packable(f.ltype)
    ensures !DecodeValue(f, prior, s).0.Undefined?
  {
    hide DecodeVarint64, FromLittleEndian, FromBits, ToBits, UnZigZag;
  }

  method DecodeField(stream: IStream, f: Field, slot: Slot, wireType: nat) returns (r: Dec<Slot>)
    requires stream.Valid() && SubDistinct(f)
    modifies stream
    ensures stream.Valid() && stream.End() <= old(stream.End()) && (r.Good? ==> stream.End() == old(stream.End()))
    ensures Reads(DecodeSlot(f, slot, wireType, old(stream.Left())), r, stream.Left())
    decreases stream.bytesLeft, 2
  {
    hide Substream, DecodeValue, DecodeItems, SubDistinct, DefaultValue, Store, Before, Items;
    if f.htype.Repeated? && wireType == WT_STRING && Packable(f.ltype) {
      r := DecodePacked(stream, f, slot);
      return;
    }
    if f.htype.Repeated? && |Items(slot)| >= f.arraySize {
      return Bad;
    }
    var v := DecodeValueFrom(stream, f, Before(f, slot));
    match v {
      case Good(v) => r := Good(Store(f, slot, v));
      case Bad => r := Bad;
      case Undefined => r := Undefined;
    }
  }

  // The bitmap of required fields: two words of 32 bits.

  function LowBits(n: nat): (w: seq<bool>)
    ensures |w| == 32 && forall k :: 0 <= k < 32 ==> (w[k] <==> k < n)
  {
    seq(32, k => k < n)
  }

  ghost predicate Bitmap(words: seq<seq<bool>>, seen: set<nat>) {
    && |words| == 2 && |words[0]| == 32 && |words[1]| == 32
    && (forall k :: 0 <= k < 32 ==> (words[0][k] <==> k in seen))
    && (forall k :: 32 <= k < 64 ==> (words[1][k - 32] <==> k in seen))
  }

  lemma WordCompares(words: seq<seq<bool>>, seen: set<nat>, w: nat, n: nat)
    requires Bitmap(words, seen) && w < 2 && n < 32
    ensures words[w] == LowBits(32) <==> WordFull(seen, w)
    ensures words[w] == LowBits(n) <==> WordLow(seen, w, n)
  {
    var word := words[w];
    assert forall k :: 0 <= k < 32 ==> (word[k] <==> 32 * w + k in seen) by {
      forall k | 0 <= k < 32 ensures word[k] <==> 32 * w + k in seen {
        if w == 1 { assert words[1][32 + k - 32] <==> 32 + k in seen; }
      }
    }
    if WordFull(seen, w) {
      assert forall k :: 0 <= k < 32 ==> word[k];
    }
    if word == LowBits(32) {
      forall k | 32 * w <= k < 32 * w + 32 ensures k in seen {
        assert word[k - 32 * w];
      }
    }
    if WordLow(seen, w, n) {
      forall k | 0 <= k < 32 ensures word[k] <==> k < n {
        assert 32 * w + k in seen <==> 32 * w + k < 32 * w + n;
      }
    }
    if word == LowBits(n) {
      forall k | 32 * w <= k < 32 * w + 32 ensures k in seen <==> k < 32 * w + n {
        assert word[k - 32 * w] <==> k - 32 * w < n;
      }
    }
  }

  /** Sets the bit of a required field. */
  method MarkSeen(words: seq<seq<bool>>, k: nat, ghost seen: set<nat>) returns (r: seq<seq<bool>>)
    requires Bitmap(words, seen) && k < MAX_REQUIRED
    ensures Bitmap(r, seen + {k})
  {
    var w, b := k / 32, k % 32;
    r := words[w := words[w][b := true]];
  }

  /** The final check. It leaves C's defined behaviour when it shifts a word by all its 32 bits or goes past the second
      word. */
  method CheckSeen(words: seq<seq<bool>>, reqFieldCount: nat, ghost seen: set<nat>) returns (c: Check)
    requires Bitmap(words, seen)
    ensures c == CheckRequired(reqFieldCount, seen)
  {
    hide Bitmap, WordFull, WordLow;
    if reqFieldCount == 0 {
      return Pass;
    }
    var i := 0;
    while i < reqFieldCount / 32
      invariant i <= reqFieldCount / 32 && CheckRequired(reqFieldCount, seen) == CheckWords(reqFieldCount, seen, i)
    {
      if i >= 2 {
        return OutOfRange;
      }
      WordCompares(words, seen, i, 0);
      assert |words| == 2 by { assert Bitmap(words, seen); TwoWordsLong(words, seen); }
      if words[i] != LowBits(32) {
        return Missing;
      }
      i := i + 1;
    }
    if i >= 2 || reqFieldCount % 32 == 0 {
      return OutOfRange;
    }
    WordCompares(words, seen, i, reqFieldCount % 32);
    TwoWordsLong(words, seen);
    c := if words[i] == LowBits(reqFieldCount % 32) then Pass else Missing;
  }

  lemma TwoWordsLong(words: seq<seq<bool>>, seen: set<nat>)
    requires Bitmap(words, seen)
    ensures |words| == 2
  {
  }

  /** The number of required fields, found by stepping on to the end of the field array. */
  method CountRequired(iter: FieldIter) returns (count: nat)
    requires iter.Valid()
    modifies iter
    ensures iter.Valid() && count == Count(iter.start)
  {
    var lastRequired, more := false, true;
    count := 0;
    while more
      invariant iter.Valid()
      invariant !more ==> |iter.start| > 0 ==> count == RequiredBefore(iter.start, |iter.start| - 1)
      invariant !more ==> |iter.start| > 0 ==> lastRequired == iter.start[|iter.start| - 1].htype.Required?
      invariant !more ==> |iter.start| == 0 ==> count == 0
      decreases if more then 1 + |iter.start| - iter.pos else 0
    {
      count := iter.requiredFieldIndex;
      lastRequired := |iter.start| > 0 && iter.start[iter.pos].htype.Required?;
      more := iter.Next();
    }
    if lastRequired && |iter.start| > 0 {
      count := count + 1;
    }
  }

  /** How the loop over the records goes on. */
  datatype Next = Continue | Finish | Fail | Lost

  /** What a round of the loop says about the record it met. */
  ghost predicate Leads(p: Progress, next: Next, st: State, left: seq<Byte>) {
    match next
    case Continue => p == More(st, left)
    case Finish => p == Stop(EndMark(st))
    case Fail => p == Stop(Broken)
    case Lost => p == Stop(Unknowable)
  }

  /** One round of the loop over the records: a tag, the search for its field, and the field. */
  method DecodeOne(stream: IStream, iter: FieldIter, slots: seq<Slot>, words: seq<seq<bool>>, ghost seen: set<nat>)
    returns (next: Next, slots': seq<Slot>, words': seq<seq<bool>>, ghost seen': set<nat>)
    requires stream.Valid() && stream.bytesLeft > 0 && iter.Valid()
    requires AllDistinct(iter.start) && |slots| == |iter.start| && Bitmap(words, seen)
    modifies stream, iter
    ensures stream.Valid() && stream.End() <= old(stream.End()) && iter.Valid()
    ensures next.Continue? || next.Finish? ==> stream.End() == old(stream.End()) && stream.bytesLeft <= old(stream.bytesLeft)
    ensures |slots'| == |iter.start| && Bitmap(words', seen')
    ensures Leads(DecodeRecord(iter.start, State(slots, seen), old(stream.Left())), next, State(slots', seen'), stream.Left())
    decreases stream.bytesLeft, 3
  {
    hide DecodeSlot, Skip, PbDecoding.Find, DecodeVarint32, Bitmap, RequiredBefore, Replace, SubDistinct;
    slots', words', seen' := slots, words, seen;
    var fields := iter.start;
    var ok, wireType, tag, eof := stream.DecodeTag();
    if !ok {
      next := if eof then Finish else Fail;
      return;
    }
    ghost var first := iter.pos;
    var found, steps := iter.Find(tag);
    if |fields| > 0 {
      iter.FindIsLinearSearch(first, iter.pos, found, steps, tag);
    }
    if !found {
      var skipped := stream.SkipField(wireType);
      next := if skipped then Continue else Fail;
      return;
    }
    if |fields| == 0 {
      // The terminator has no size a varint could be stored in.
      next := Fail;
      return;
    }
    var i := iter.pos;
    assert PbDecoding.Find(fields, tag) == i;
    if fields[i].htype.Required? && iter.requiredFieldIndex < MAX_REQUIRED {
      words' := MarkSeen(words, iter.requiredFieldIndex, seen);
      seen' := seen + {iter.requiredFieldIndex};
    }
    assert SubDistinct(fields[i]);
    var slot := DecodeField(stream, fields[i], slots[i], wireType);
    if slot.Good? {
      slots' := Replace(fields, slots, i, slot.v);
      next := Continue;
    } else {
      next := if slot.Bad? then Fail else Lost;
    }
  }

  lemma RecordsUnfold(fields: seq<Field>, st: State, s: seq<Byte>)
    requires |st.slots| == |fields|
    ensures DecodeRecords(fields, st, s) ==
            if |s| == 0 then RanOut(st)
            else
              var p := DecodeRecord(fields, st, s);
              if p.More? then DecodeRecords(fields, p.st, p.rest) else p.out
  {
    hide DecodeRecord;
  }

  /** Decodes all records into the message, then checks that the required ones were there. */
  method DecodeNoInit(stream: IStream, fields: seq<Field>, slots: seq<Slot>) returns (r: Dec<seq<Slot>>)
    requires stream.Valid() && AllDistinct(fields)
    modifies stream
    ensures stream.Valid() && stream.End() <= old(stream.End()) && (r.Good? ==> stream.End() == old(stream.End()))
    ensures r == DecodeMessage(fields, slots, old(stream.Left()))
    decreases stream.bytesLeft, 4
  {
    hide DecodeRecords, DecodeRecord, Bitmap, CheckRequired, AllDistinct, RequiredBefore;
    if |slots| != |fields| {
      // Not a structure of this type.
      return Bad;
    }
    var iter := new FieldIter(fields);
    var dest, words, ended := slots, [LowBits(0), LowBits(0)], false;
    ghost var seen: set<nat>, out := {}, DecodeRecords(fields, State(slots, {}), stream.Left());
    NoneSeen();
    while stream.bytesLeft > 0 && !ended
      invariant stream.Valid() && stream.End() == old(stream.End()) && stream.bytesLeft <= old(stream.bytesLeft)
      invariant iter.Valid() && iter.start == fields && fresh(iter)
      invariant |dest| == |fields| && Bitmap(words, seen)
      invariant out == if ended then EndMark(State(dest, seen)) else DecodeRecords(fields, State(dest, seen), stream.Left())
      decreases !ended, stream.bytesLeft
    {
      RecordsUnfold(fields, State(dest, seen), stream.Left());
      var next, dest', words', seen' := DecodeOne(stream, iter, dest, words, seen);
      if next == Fail {
        return Bad;
      }
      if next == Lost {
        return Undefined;
      }
      dest, words, seen, ended := dest', words', seen', next == Finish;
    }
    RecordsUnfold(fields, State(dest, seen), stream.Left());
    var count := CountRequired(iter);
    var check := CheckSeen(words, count, seen);
    match check {
      case Pass => r := Good(dest);
      case Missing => r := Bad;
      case OutOfRange => r := Undefined;
    }
  }

  lemma NoneSeen()
    ensures Bitmap([LowBits(0), LowBits(0)], {})
  {
  }

  /** Decodes a message into defaults. */
  method DecodeFrom(stream: IStream, fields: seq<Field>) returns (r: Dec<seq<Slot>>)
    requires stream.Valid() && AllDistinct(fields)
    modifies stream
    ensures r == Decode(fields, old(stream.Left()))
  {
    hide DecodeMessage, AllDistinct, Defaults;
    r := DecodeNoInit(stream, fields, Defaults(fields));
  }
}
