/** What a second record of a field does: a singular submessage is merged into what the first one left, a singular scalar
    is replaced, and in an array or a oneof the second submessage starts from defaults. */
module PbMerge {
  import opened Bytes
  import opened PbVarint
  import opened PbMessage
  import opened PbDecoding
  import opened PbFold
  import opened PbRequired
  import opened PbRoundTrip

  predicate Singular(f: Field) {
    f.htype.Required? || f.htype.Optional?
  }

  /** The slot of a singular field. */
  function Holding(f: Field, has: bool, v: Value): Slot {
    if f.htype.Optional? && f.hasFlag then Flagged(has, v) else One(v)
  }

  /** A record of a singular submessage is decoded into what the slot holds. */
  lemma SubmessageRecord(f: Field, has: bool, base: seq<Slot>, wireType: nat, p: seq<Byte>)
    requires f.ltype.Submessage? && Singular(f) && |p| < TWO_32
    ensures DecodeSlot(f, Holding(f, has, Msg(base)), wireType, LengthPrefixed(p)) ==
            (match DecodeMessage(f.sub, base, p)
             case Good(slots) => (Good(Holding(f, true, Msg(slots))), [])
             case Bad => (Bad, [])
             case Undefined => (Undefined, []))
  {
    hide DecodeMessage, Substream, LengthPrefixed;
    SubstreamRoundTrip(p, []);
    assert LengthPrefixed(p) + [] == LengthPrefixed(p);
  }

  /** The octets bring every required field of a submessage. */
  ghost predicate BringsRequired(fields: seq<Field>, slots: seq<Slot>, s: seq<Byte>)
    requires |fields| == |slots|
  {
    RequiredOccur(fields, Occurring(fields, State(slots, {}), s), Count(fields))
  }

  lemma SeenBelow(fields: seq<Field>, slots: seq<Slot>, s: seq<Byte>)
    requires |slots| == |fields| && Ended(DecodeRecords(fields, State(slots, {}), s))
    ensures OnlyBelow(DecodeRecords(fields, State(slots, {}), s).st.seen, Count(fields))
  {
    hide DecodeRecords, Occurring, Marked, RequiredBefore, OnlyBelow;
    var st := State(slots, {});
    var seen, v := DecodeRecords(fields, st, s).st.seen, Occurring(fields, st, s);
    forall k: nat ensures k in seen <==> Marked(fields, v, k) {
      SeenIsOccurring(fields, st, s, k);
    }
    SeenBelowCount(fields, seen, v);
  }

  lemma MoreSeen(count: nat, seen: set<nat>, more: set<nat>)
    requires OnlyBelow(seen, count) && OnlyBelow(more, count) && CheckRequired(count, seen) == Pass
    ensures count < 64 && count != 32 && CheckRequired(count, seen + more) == Pass
  {
    hide CheckRequired;
    CheckMeaning(count, seen);
    CheckMeaning(count, seen + more);
  }

  /** Decoding a message and then merging another into it, against decoding both as one. */
  lemma MessagesMerge(fields: seq<Field>, base: seq<Slot>, a: seq<Byte>, b: seq<Byte>)
    requires |base| == |fields| && DecodeRecords(fields, State(base, {}), a).RanOut?
    requires DecodeMessage(fields, base, a).Good?
    ensures var mid := DecodeMessage(fields, base, a).v;
            var once := DecodeMessage(fields, base, a + b);
            && |mid| == |fields|
            && DecodeMessage(fields, mid, b) == if once.Good? && !BringsRequired(fields, mid, b) then Bad else once
  {
    hide DecodeRecords, SameFields, Occurring, RequiredOccur, RequiredBefore, OnlyBelow, CheckRequired;
    var st := DecodeRecords(fields, State(base, {}), a).st;
    RecordsFold(fields, State(base, {}), a, b);
    SeenOnlyGrows(fields, st.slots, st.seen, b);
    var x, y := DecodeRecords(fields, st, b), DecodeRecords(fields, State(st.slots, {}), b);
    assert State(st.slots, st.seen) == st;
    SameOutcome(x, y, st.seen);
    if Ended(y) {
      SeenBelow(fields, base, a);
      SeenBelow(fields, st.slots, b);
      MoreSeen(Count(fields), st.seen, y.st.seen);
      RequiredTracking(fields, st.slots, b);
    }
  }

  lemma SameOutcome(x: Outcome, y: Outcome, seen: set<nat>)
    requires SameFields(x, y, seen)
    ensures Ended(x) <==> Ended(y)
    ensures Ended(x) ==> x.st.slots == y.st.slots && x.st.seen == seen + y.st.seen
    ensures x.Broken? <==> y.Broken?
    ensures x.Unknowable? <==> y.Unknowable?
  {
  }

  /** Two records of one singular submessage, with payloads a and b, leave what one record with payload a + b leaves. Only
      the required fields of the submessage are asked of each record by itself. */
  lemma RecordsMerge(f: Field, has: bool, base: seq<Slot>, wireType: nat, a: seq<Byte>, b: seq<Byte>)
    requires f.ltype.Submessage? && Singular(f) && |base| == |f.sub| && |a + b| < TWO_32
    requires DecodeRecords(f.sub, State(base, {}), a).RanOut?
    requires DecodeSlot(f, Holding(f, has, Msg(base)), wireType, LengthPrefixed(a)).0.Good?
    ensures var first := DecodeSlot(f, Holding(f, has, Msg(base)), wireType, LengthPrefixed(a)).0.v;
            var once := DecodeSlot(f, Holding(f, has, Msg(base)), wireType, LengthPrefixed(a + b));
            var mid := DecodeRecords(f.sub, State(base, {}), a).st.slots;
            DecodeSlot(f, first, wireType, LengthPrefixed(b))
            == if once.0.Good? && !BringsRequired(f.sub, mid, b) then (Bad, []) else once
  {
    hide DecodeMessage, DecodeSlot, DecodeRecords, BringsRequired, LengthPrefixed;
    SubmessageRecord(f, has, base, wireType, a);
    SubmessageRecord(f, has, base, wireType, a + b);
    MidSlots(f.sub, base, a);
    var mid := DecodeRecords(f.sub, State(base, {}), a).st.slots;
    SubmessageRecord(f, true, mid, wireType, b);
    MessagesMerge(f.sub, base, a, b);
  }

  lemma MidSlots(fields: seq<Field>, base: seq<Slot>, a: seq<Byte>)
    requires |base| == |fields| && DecodeRecords(fields, State(base, {}), a).RanOut?
    requires DecodeMessage(fields, base, a).Good?
    ensures DecodeMessage(fields, base, a).v == DecodeRecords(fields, State(base, {}), a).st.slots
  {
    hide DecodeRecords, CheckRequired;
  }

  /** Without required fields the two are the same in every case. */
  lemma RecordsMergeExactly(f: Field, has: bool, base: seq<Slot>, wireType: nat, a: seq<Byte>, b: seq<Byte>)
    requires f.ltype.Submessage? && Singular(f) && |base| == |f.sub| && |a + b| < TWO_32 && Count(f.sub) == 0
    requires DecodeRecords(f.sub, State(base, {}), a).RanOut?
    ensures var first := DecodeSlot(f, Holding(f, has, Msg(base)), wireType, LengthPrefixed(a)).0;
            && first.Good?
            && DecodeSlot(f, first.v, wireType, LengthPrefixed(b))
               == DecodeSlot(f, Holding(f, has, Msg(base)), wireType, LengthPrefixed(a + b))
  {
    hide DecodeSlot, DecodeRecords, LengthPrefixed, Occurring;
    SubmessageRecord(f, has, base, wireType, a);
    RecordsMerge(f, has, base, wireType, a, b);
  }

  /** In an array or a oneof every submessage record starts from defaults, whatever the slot holds; an array takes it only
      while there is room. */
  lemma StartsFromDefaults(f: Field, slot: Slot, wireType: nat, p: seq<Byte>)
    requires f.ltype.Submessage? && |p| < TWO_32
    requires (f.htype.Repeated? && slot.Many?) || (f.htype.Oneof? && slot.Alt?)
    ensures var m := Decode(f.sub, p);
            var r := DecodeSlot(f, slot, wireType, LengthPrefixed(p)).0;
            if f.htype.Oneof? then
              if m.Good? then r == Good(Alt(Some(Msg(m.v)))) else !r.Good?
            else if m.Good? && |slot.items| < f.arraySize then r == Good(Many(slot.items + [Msg(m.v)])) else !r.Good?
  {
    hide DecodeMessage, Substream, LengthPrefixed;
    SubstreamRoundTrip(p, []);
    assert LengthPrefixed(p) + [] == LengthPrefixed(p);
  }

  // Scalars.

  /** What a singular scalar held before makes no difference. */
  lemma ScalarForgets(f: Field, one: Slot, other: Slot, wireType: nat, s: seq<Byte>)
    requires !f.ltype.Submessage? && Singular(f)
    ensures DecodeSlot(f, one, wireType, s) == DecodeSlot(f, other, wireType, s)
  {
    hide DecodeOctets, DecodeVarintValue, DecodeFixed, DecodeMessage, Substream, DecodeItems, Before;
  }

  /** The last record of a singular scalar wins: two of them leave what the second alone leaves, its value. */
  lemma LastScalarWins(fields: seq<Field>, st: State, i: nat, v: Value, w: Value)
    requires |st.slots| == |fields| && i < |fields| && DistinctTags(fields) && FieldOk(fields[i])
    requires Singular(fields[i]) && !fields[i].ltype.Submessage? && ValueOk(fields[i], v) && ValueOk(fields[i], w)
    ensures EncodeTagged(fields[i], v).Some? && EncodeTagged(fields[i], w).Some?
    ensures var f := fields[i];
            var both := DecodeRecords(fields, st, EncodeTagged(f, v).value + EncodeTagged(f, w).value);
            && both == DecodeRecords(fields, st, EncodeTagged(f, w).value)
            && both == RanOut(Stored(fields, st, i, Holding(f, true, NormalValue(f, w))))
            && both.st.slots[i] == Holding(f, true, NormalValue(f, w))
  {
    hide DecodeRecords, Stored, EncodeTagged, DistinctTags, ValueOk, NormalValue;
    var f := fields[i];
    ScalarRead(fields, st, i, v);
    ScalarRead(fields, st, i, w);
    var mid := Stored(fields, st, i, Holding(f, true, NormalValue(f, v)));
    ScalarRead(fields, mid, i, w);
    RecordsFold(fields, st, EncodeTagged(f, v).value, EncodeTagged(f, w).value);
    StoredTwice(fields, st, i, Holding(f, true, NormalValue(f, v)), Holding(f, true, NormalValue(f, w)));
  }

  lemma StoredTwice(fields: seq<Field>, st: State, i: nat, s: Slot, t: Slot)
    requires |st.slots| == |fields| && i < |fields|
    ensures Stored(fields, Stored(fields, st, i, s), i, t) == Stored(fields, st, i, t)
    ensures Stored(fields, st, i, t).slots[i] == t
  {
    hide RequiredBefore;
    assert Replace(fields, Replace(fields, st.slots, i, s), i, t) == Replace(fields, st.slots, i, t);
  }

  lemma ScalarRead(fields: seq<Field>, st: State, i: nat, v: Value)
    requires |st.slots| == |fields| && i < |fields| && DistinctTags(fields) && FieldOk(fields[i])
    requires Singular(fields[i]) && !fields[i].ltype.Submessage? && ValueOk(fields[i], v)
    ensures EncodeTagged(fields[i], v).Some?
    ensures DecodeRecords(fields, st, EncodeTagged(fields[i], v).value)
            == RanOut(Stored(fields, st, i, Holding(fields[i], true, NormalValue(fields[i], v))))
  {
    hide DecodeRecords, Stored, DistinctTags, ValueOk, NormalValue, DecodeSlot, EncodeValue, EncodeTag, DecodeValue, Before, DefaultValue;
    var f := fields[i];
    ValueRoundTrip(f, v, []);
    var e := EncodeValue(f, v).value;
    assert e + [] == e;
    var unset := Holding(f, false, DefaultValue(f));
    assert Before(f, unset) == DefaultValue(f) by { HeldBefore(f, false, DefaultValue(f)); }
    SingleRead(f, unset, WireType(f.ltype), e, NormalValue(f, v));
    ScalarForgets(f, unset, st.slots[i], WireType(f.ltype), e);
    RecordRead(fields, st, i, WireType(f.ltype), e, Holding(f, true, NormalValue(f, v)));
  }

  lemma HeldBefore(f: Field, has: bool, v: Value)
    ensures Before(f, Holding(f, has, v)) == v
  {
  }

  /** Two records of a singular submessage anywhere in a message, against one with both payloads. */
  lemma RecordsMergeInMessage(fields: seq<Field>, st: State, i: nat, has: bool, base: seq<Slot>, a: seq<Byte>, b: seq<Byte>)
    requires |st.slots| == |fields| && i < |fields| && DistinctTags(fields) && 0 < fields[i].tag < 0x2000_0000
    requires fields[i].ltype.Submessage? && Singular(fields[i]) && Count(fields[i].sub) == 0
    requires st.slots[i] == Holding(fields[i], has, Msg(base)) && |base| == |fields[i].sub| && |a + b| < TWO_32
    requires DecodeRecords(fields[i].sub, State(base, {}), a).RanOut? && Decodable(fields[i].sub, base, a + b)
    ensures var tag := FieldTag(fields[i]);
            DecodeRecords(fields, st, (tag + LengthPrefixed(a)) + (tag + LengthPrefixed(b)))
            == DecodeRecords(fields, st, tag + LengthPrefixed(a + b))
  {
    hide DecodeRecords, DecodeSlot, DecodeMessage, Stored, LengthPrefixed, DistinctTags, EncodeTag;
    var f := fields[i];
    RecordsMergeExactly(f, has, base, WT_STRING, a, b);
    SubmessageRecord(f, has, base, WT_STRING, a);
    SubmessageRecord(f, has, base, WT_STRING, a + b);
    var first := DecodeSlot(f, st.slots[i], WT_STRING, LengthPrefixed(a)).0.v;
    var both := DecodeSlot(f, st.slots[i], WT_STRING, LengthPrefixed(a + b)).0.v;
    RecordRead(fields, st, i, WT_STRING, LengthPrefixed(a), first);
    RecordRead(fields, st, i, WT_STRING, LengthPrefixed(a + b), both);
    var mid := Stored(fields, st, i, first);
    StoredTwice(fields, st, i, first, both);
    assert mid.slots[i] == first by { StoredTwice(fields, st, i, first, first); }
    RecordRead(fields, mid, i, WT_STRING, LengthPrefixed(b), both);
    RecordsFold(fields, st, FieldTag(f) + LengthPrefixed(a), FieldTag(f) + LengthPrefixed(b));
  }

  predicate Decodable(fields: seq<Field>, base: seq<Slot>, s: seq<Byte>) {
    DecodeMessage(fields, base, s).Good?
  }
}
