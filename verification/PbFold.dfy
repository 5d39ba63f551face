/** Decoding is a left fold over records: no decoder looks past the item it decodes, so octets that decode fully can be
    followed by anything, and records of unknown fields change nothing. */
module PbFold {
  import opened Bytes
  import opened PbVarint
  import opened PbMessage
  import opened PbDecoding

  lemma Varint32Extends(s: seq<Byte>, t: seq<Byte>)
    requires DecodeVarint32(s).0.Some?
    ensures DecodeVarint32(s + t) == (DecodeVarint32(s).0, DecodeVarint32(s).1 + t)
  {
    ReadVarintExtends(s, 32, 0, 0, t);
  }

  lemma Varint64Extends(s: seq<Byte>, t: seq<Byte>)
    requires DecodeVarint64(s).0.Some?
    ensures DecodeVarint64(s + t) == (DecodeVarint64(s).0, DecodeVarint64(s).1 + t)
  {
    ReadVarintExtends(s, 64, 0, 0, t);
  }

  lemma SubstreamExtends(s: seq<Byte>, t: seq<Byte>)
    requires Substream(s).Some?
    ensures Substream(s + t) == Some((Substream(s).value.0, Substream(s).value.1 + t))
  {
    hide DecodeVarint32;
    Varint32Extends(s, t);
    var (size, rest) := DecodeVarint32(s);
    assert (rest + t)[..size.value] == rest[..size.value];
    assert (rest + t)[size.value..] == rest[size.value..] + t;
  }

  lemma OctetsExtends(f: Field, s: seq<Byte>, t: seq<Byte>)
    requires DecodeOctets(f, s).0.Good?
    ensures DecodeOctets(f, s + t) == (DecodeOctets(f, s).0, DecodeOctets(f, s).1 + t)
  {
    hide DecodeVarint32;
    Varint32Extends(s, t);
    var (size, rest) := DecodeVarint32(s);
    if size.value <= |rest| {
      assert (rest + t)[..size.value] == rest[..size.value];
      assert (rest + t)[size.value..] == rest[size.value..] + t;
    }
  }

  lemma FixedExtends(s: seq<Byte>, k: nat, t: seq<Byte>)
    requires k > 0 && DecodeFixed(s, k).0.Good?
    ensures DecodeFixed(s + t, k) == (DecodeFixed(s, k).0, DecodeFixed(s, k).1 + t)
  {
    assert (s + t)[..k] == s[..k];
    assert (s + t)[k..] == s[k..] + t;
  }

  lemma ValueExtends(f: Field, prior: Value, s: seq<Byte>, t: seq<Byte>)
    requires DecodeValue(f, prior, s).0.Good?
    ensures DecodeValue(f, prior, s + t) == (DecodeValue(f, prior, s).0, DecodeValue(f, prior, s).1 + t)
  {
    hide DecodeMessage, DecodeOctets, DecodeFixed, Substream, DecodeVarint64, CastSigned, CastUnsigned, CastZigZag;
    match f.ltype
    case Varint => Varint64Extends(s, t);
    case Uvarint => Varint64Extends(s, t);
    case Svarint => Varint64Extends(s, t);
    case Fixed32 => FixedExtends(s, 4, t);
    case Fixed64 => FixedExtends(s, 8, t);
    case Submessage => SubstreamExtends(s, t);
    case _ => OctetsExtends(f, s, t);
  }

  lemma SlotExtends(f: Field, slot: Slot, wireType: nat, s: seq<Byte>, t: seq<Byte>)
    requires DecodeSlot(f, slot, wireType, s).0.Good?
    ensures DecodeSlot(f, slot, wireType, s + t) ==
            (DecodeSlot(f, slot, wireType, s).0, DecodeSlot(f, slot, wireType, s).1 + t)
  {
    hide DecodeValue, DecodeItems, Substream, Store, Before;
    if f.htype.Repeated? && wireType == WT_STRING && Packable(f.ltype) {
      SubstreamExtends(s, t);
    } else {
      ValueExtends(f, Before(f, slot), s, t);
    }
  }

  lemma {:induction false} SkipVarintExtends(s: seq<Byte>, t: seq<Byte>)
    requires SkipVarint(s).Some?
    ensures SkipVarint(s + t) == Some(SkipVarint(s).value + t)
    decreases |s|
  {
    assert (s + t)[1..] == s[1..] + t;
    if s[0] >= 128 {
      SkipVarintExtends(s[1..], t);
    }
  }

  lemma SkipExtends(wireType: nat, s: seq<Byte>, t: seq<Byte>)
    requires Skip(wireType, s).Some?
    ensures Skip(wireType, s + t) == Some(Skip(wireType, s).value + t)
  {
    hide SkipVarint, Substream;
    if wireType == WT_VARINT {
      SkipVarintExtends(s, t);
    } else if wireType == WT_64BIT {
      assert (s + t)[8..] == s[8..] + t;
    } else if wireType == WT_STRING {
      SubstreamExtends(s, t);
    } else {
      assert (s + t)[4..] == s[4..] + t;
    }
  }

  lemma RecordExtends(fields: seq<Field>, st: State, s: seq<Byte>, t: seq<Byte>)
    requires |st.slots| == |fields| && |s| > 0 && DecodeRecord(fields, st, s).More?
    ensures var r := DecodeRecord(fields, st, s); DecodeRecord(fields, st, s + t) == More(r.st, r.rest + t)
  {
    hide DecodeSlot, Skip, Find, Stored, DecodeVarint32;
    Varint32Extends(s, t);
    var (key, rest) := DecodeVarint32(s);
    var tag, wireType := key.value / 8, key.value % 8;
    var i := Find(fields, tag);
    if i == |fields| {
      SkipExtends(wireType, rest, t);
    } else {
      SlotExtends(fields[i], st.slots[i], wireType, rest, t);
    }
  }

  /** Octets that decode fully, with no early end, can be followed by anything: decoding goes on from the state they
      leave. */
  lemma {:induction false} RecordsFold(fields: seq<Field>, st: State, a: seq<Byte>, b: seq<Byte>)
    requires |st.slots| == |fields| && DecodeRecords(fields, st, a).RanOut?
    ensures DecodeRecords(fields, st, a + b) == DecodeRecords(fields, DecodeRecords(fields, st, a).st, b)
    decreases |a|
  {
    hide DecodeRecord;
    if |a| == 0 {
      assert a + b == b;
    } else {
      RecordExtends(fields, st, a, b);
      var r := DecodeRecord(fields, st, a);
      RecordsFold(fields, r.st, r.rest, b);
    }
  }

  /** A record of a field that is not in the field array. */
  predicate UnknownRecord(fields: seq<Field>, tag: nat, wireType: nat, payload: seq<Byte>) {
    && wireType < 8 && 0 < tag * 8 + wireType < TWO_32
    && Find(fields, tag) == |fields| && (|fields| > 0 || tag > 0)
    && Skip(wireType, payload) == Some([])
  }

  lemma UnknownRecordSkipped(fields: seq<Field>, st: State, tag: nat, wireType: nat, payload: seq<Byte>, b: seq<Byte>)
    requires |st.slots| == |fields| && UnknownRecord(fields, tag, wireType, payload)
    ensures DecodeRecords(fields, st, EncodeTag(tag, wireType) + payload + b) == DecodeRecords(fields, st, b)
  {
    hide DecodeSlot, Skip, Find, Stored, DecodeVarint32, VarintBytes, DecodeRecords;
    var s := EncodeTag(tag, wireType) + payload + b;
    assert s == VarintBytes(tag * 8 + wireType) + (payload + b);
    Varint32RoundTrip(tag * 8 + wireType, payload + b);
    SkipExtends(wireType, payload, b);
    assert [] + b == b;
    assert DecodeRecord(fields, st, s) == More(st, b);
    RecordsStep(fields, st, s);
  }

  lemma RecordsStep(fields: seq<Field>, st: State, s: seq<Byte>)
    requires |st.slots| == |fields| && |s| > 0 && DecodeRecord(fields, st, s).More?
    ensures var r := DecodeRecord(fields, st, s); DecodeRecords(fields, st, s) == DecodeRecords(fields, r.st, r.rest)
  {
    hide DecodeRecord;
  }

  /** An unknown record put between any two records is consumed exactly and changes nothing. */
  lemma UnknownRecordAnywhere(fields: seq<Field>, slots: seq<Slot>, a: seq<Byte>, tag: nat, wireType: nat,
                              payload: seq<Byte>, b: seq<Byte>)
    requires |slots| == |fields| && UnknownRecord(fields, tag, wireType, payload)
    requires DecodeRecords(fields, State(slots, {}), a).RanOut?
    ensures DecodeMessage(fields, slots, a + (EncodeTag(tag, wireType) + payload + b)) == DecodeMessage(fields, slots, a + b)
  {
    hide DecodeRecords, UnknownRecord, EncodeTag, Checked;
    var st := DecodeRecords(fields, State(slots, {}), a).st;
    RecordsFold(fields, State(slots, {}), a, EncodeTag(tag, wireType) + payload + b);
    RecordsFold(fields, State(slots, {}), a, b);
    UnknownRecordSkipped(fields, st, tag, wireType, payload, b);
  }

  /** Decoding a + b is decoding a and then merging b into the result, as far as the fields go. */
  lemma ConcatenationMerges(fields: seq<Field>, slots: seq<Slot>, a: seq<Byte>, b: seq<Byte>)
    requires |slots| == |fields| && DecodeRecords(fields, State(slots, {}), a).RanOut?
    ensures var mid := DecodeRecords(fields, State(slots, {}), a).st;
            SameFields(DecodeRecords(fields, State(slots, {}), a + b), DecodeRecords(fields, State(mid.slots, {}), b), mid.seen)
  {
    RecordsFold(fields, State(slots, {}), a, b);
    var mid := DecodeRecords(fields, State(slots, {}), a).st;
    SeenOnlyGrows(fields, mid.slots, mid.seen, b);
  }

  /** The same outcome, but for the required fields already seen. */
  predicate SameFields(x: Outcome, y: Outcome, seen: set<nat>) {
    match x
    case RanOut(st) => y == RanOut(State(st.slots, if y.RanOut? then y.st.seen else {})) && st.seen == seen + y.st.seen
    case EndMark(st) => y == EndMark(State(st.slots, if y.EndMark? then y.st.seen else {})) && st.seen == seen + y.st.seen
    case _ => x == y
  }

  /** What has been seen does not influence what is decoded. */
  lemma SeenOnlyGrows(fields: seq<Field>, slots: seq<Slot>, seen: set<nat>, s: seq<Byte>)
    requires |slots| == |fields|
    ensures SameFields(DecodeRecords(fields, State(slots, seen), s), DecodeRecords(fields, State(slots, {}), s), seen)
  {
    hide DecodeRecords, SameFields;
    assert seen + {} == seen;
    SeenDiffers(fields, slots, seen, {}, s);
  }

  lemma RecordSeenDiffers(fields: seq<Field>, slots: seq<Slot>, seen: set<nat>, local: set<nat>, s: seq<Byte>)
    requires |slots| == |fields| && |s| > 0
    ensures var x, y := DecodeRecord(fields, State(slots, seen + local), s), DecodeRecord(fields, State(slots, local), s);
            if x.More? then y.More? && x.rest == y.rest && x.st == State(y.st.slots, seen + y.st.seen)
            else y.Stop? && SameFields(x.out, y.out, seen)
  {
    hide DecodeSlot, Skip, Find, DecodeVarint32, Replace;
    var (key, rest) := DecodeVarint32(s);
    if key.Some? && key.value != 0 {
      var tag, wireType := key.value / 8, key.value % 8;
      var i := Find(fields, tag);
      if i < |fields| {
        var (slot, rest') := DecodeSlot(fields[i], slots[i], wireType, rest);
        if slot.Good? {
          var st := Stored(fields, State(slots, local), i, slot.v);
          assert Stored(fields, State(slots, seen + local), i, slot.v) == State(st.slots, seen + st.seen);
        }
      }
    }
  }

  lemma {:induction false} SeenDiffers(fields: seq<Field>, slots: seq<Slot>, seen: set<nat>, local: set<nat>, s: seq<Byte>)
    requires |slots| == |fields|
    ensures SameFields(DecodeRecords(fields, State(slots, seen + local), s),
                       DecodeRecords(fields, State(slots, local), s), seen)
    decreases |s|
  {
    hide DecodeRecord;
    if |s| > 0 {
      RecordSeenDiffers(fields, slots, seen, local, s);
      var y := DecodeRecord(fields, State(slots, local), s);
      if y.More? {
        SeenDiffers(fields, y.st.slots, seen, y.st.seen, y.rest);
      }
    }
  }
}
