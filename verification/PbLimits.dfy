/** Where the codec gives something other than the message it was given, and exactly when. */
module PbLimits {
  import opened Bytes
  import opened PbVarint
  import opened PbMessage
  import opened PbDecoding
  import opened PbFold
  import opened PbRoundTrip

  // What a round trip changes.

  predicate SettledValue(f: Field, v: Value)
    decreases f, 0
  {
    match f.ltype
    case CString => v.Octets? ==> 0 !in v.b && |v.b| <= f.dataSize
    case Submessage => v.Msg? ==> Settled(f.sub, v.slots)
    case _ => true
  }

  /** What is not written holds its default already; strings have no octets behind a zero. An array in an implicitly
      present submessage does not count as something to write, so such a submessage holds no array items. */
  predicate SettledSlot(f: Field, s: Slot)
    decreases f, 1
  {
    match s
    case One(v) =>
      if f.htype.Optional? && LooksAbsent(f, v) then s == DefaultSlot(f) else SettledValue(f, v)
    case Flagged(has, v) => if has then SettledValue(f, v) else s == DefaultSlot(f)
    case Many(items) => forall i :: 0 <= i < |items| ==> SettledValue(f, items[i])
    case Alt(chosen) => chosen.Some? ==> SettledValue(f, chosen.value)
  }

  predicate Settled(fields: seq<Field>, slots: seq<Slot>)
    decreases fields, 2
  {
    |fields| == |slots| && forall i :: 0 <= i < |fields| ==> SettledSlot(fields[i], slots[i])
  }

  lemma {:induction false} TerminatedIsSame(b: seq<Byte>, size: nat)
    ensures Terminated(b, size) == b <==> 0 !in b && |b| <= size
    decreases size
  {
    if |b| > 0 && size > 0 && b[0] != 0 {
      TerminatedIsSame(b[1..], size - 1);
      assert b == [b[0]] + b[1..];
    }
  }

  lemma {:induction false} ValueUnchanged(f: Field, v: Value)
    requires ValueOk(f, v)
    ensures NormalValue(f, v) == v <==> SettledValue(f, v)
    decreases f, 0
  {
    hide Normal, Settled, Terminated, EncodeMessage, MessageOk, Fits, Signed, Unsigned;
    if f.ltype.CString? {
      TerminatedIsSame(v.b, f.dataSize);
    } else if f.ltype.Submessage? {
      MessageUnchanged(f.sub, v.slots);
    }
  }

  lemma {:induction false} ItemsUnchanged(f: Field, items: seq<Value>)
    requires ItemsOk(f, items)
    ensures NormalItems(f, items) == items <==> AllSettled(f, items)
    decreases f, 1, |items|
  {
    hide ValueOk, SettledValue, NormalValue;
    if |items| > 0 {
      var n := |items| - 1;
      ItemsUnchanged(f, items[..n]);
      ValueUnchanged(f, items[n]);
      assert items == items[..n] + [items[n]];
      AllSettledSplit(f, items);
    }
  }

  predicate AllSettled(f: Field, items: seq<Value>) {
    forall i :: 0 <= i < |items| ==> SettledValue(f, items[i])
  }

  lemma AllSettledSplit(f: Field, items: seq<Value>)
    requires |items| > 0
    ensures AllSettled(f, items) <==> AllSettled(f, items[..|items| - 1]) && SettledValue(f, items[|items| - 1])
  {
    hide SettledValue;
    var n := |items| - 1;
    assert forall i :: 0 <= i < n ==> items[..n][i] == items[i];
  }

  lemma {:induction false} SlotUnchanged(f: Field, s: Slot)
    requires SlotOk(f, s)
    ensures NormalSlot(f, s) == s <==> SettledSlot(f, s)
    decreases f, 2
  {
    hide ValueOk, SettledValue, NormalValue, NormalItems, ItemsOk, LooksAbsent, Fits, EncodeItems, DefaultValue;
    match s
    case One(v) => ValueUnchanged(f, v);
    case Flagged(has, v) => if has { ValueUnchanged(f, v); }
    case Many(items) => ItemsUnchanged(f, items);
    case Alt(chosen) => if chosen.Some? { ValueUnchanged(f, chosen.value); }
  }

  /** A round trip gives back the very same message exactly when everything it does not write is settled. */
  lemma {:induction false} MessageUnchanged(fields: seq<Field>, slots: seq<Slot>)
    requires MessageOk(fields, slots)
    ensures Normal(fields, slots) == slots <==> Settled(fields, slots)
    decreases fields, 3
  {
    hide SlotOk, SettledSlot, NormalSlot, Normal, OneofsOk;
    var n := Normal(fields, slots);
    forall i | 0 <= i < |fields| ensures n[i] == slots[i] <==> SettledSlot(fields[i], slots[i]) {
      NormalAt(fields, slots, i);
      SlotUnchanged(fields[i], slots[i]);
    }
  }

  /** Encoding and decoding give back exactly the message, if and only if it is settled. */
  lemma LosslessIffSettled(fields: seq<Field>, slots: seq<Slot>)
    requires WellFormed(fields) && MessageOk(fields, slots)
    ensures EncodeMessage(fields, slots).Some?
    ensures Decode(fields, EncodeMessage(fields, slots).value) == Good(slots) <==> Settled(fields, slots)
  {
    hide WellFormed, MessageOk, EncodeMessage, Decode, Normal, Settled;
    MessageRoundTrip(fields, slots);
    MessageUnchanged(fields, slots);
  }

  /** An array inside an implicitly present submessage is lost when its first item is zero, whatever the others are. */
  lemma ImplicitSubmessageLosesArray(outer: Field, item: Field, items: seq<Value>)
    requires outer.htype.Optional? && !outer.hasFlag && outer.ltype.Submessage? && outer.sub == [item]
    requires item.htype.Repeated? && Packable(item.ltype) && |items| > 0 && items[0] == Int(0)
    requires WellFormed([outer]) && MessageOk([outer], [One(Msg([Many(items)]))])
    ensures EncodeMessage([outer], [One(Msg([Many(items)]))]) == Some([])
    ensures Decode([outer], []) == Good([One(Msg([Many([])]))])
  {
    hide WellFormed, MessageOk, Decode, DecodeMessage;
    var inner, m := [Many(items)], [One(Msg([Many(items)]))];
    assert inner[1..] == [] && m[1..] == [] && [item][1..] == [] && [outer][1..] == [];
    assert SlotLooksAbsent(item, inner[0]);
    assert AllLookAbsent([item], inner);
    assert LooksAbsent(outer, Msg(inner));
    assert EncodeSlot(outer, m[0]) == Some([]);
    var nothing: seq<Byte> := [];
    assert EncodeMessage([outer][1..], m[1..]) == Some(nothing);
    assert nothing + nothing == nothing;
    MessageRoundTrip([outer], m);
    assert Defaults([item]) == [Many([])];
    assert Normal([outer], m) == [DefaultSlot(outer)];
  }

  // The end of a stream inside a tag.

  /** A varint that the stream cuts off: continuation octets to the end, not enough of them to overflow. */
  predicate CutOff(s: seq<Byte>, most: nat) {
    |s| <= most && forall k :: 0 <= k < |s| ==> s[k] >= 128
  }

  lemma {:induction false} CutOffMeaning(s: seq<Byte>, width: nat, pos: nat, acc: nat)
    requires pos <= width + 6
    ensures var (r, rest) := ReadVarint(s, width, pos, acc);
            r.None? && |rest| == 0 <==> CutOff(s, (width + 6 - pos) / 7)
    decreases |s|
  {
    hide Pow2, Place;
    if pos < width && |s| > 0 {
      if s[0] >= 128 {
        CutOffMeaning(s[1..], width, pos + 7, (acc + Place(s[0] % 128, pos)) % Pow2(width));
        assert CutOff(s, (width + 6 - pos) / 7) <==> CutOff(s[1..], (width + 6 - (pos + 7)) / 7) by {
          CutOffStep(s, (width + 6 - pos) / 7);
        }
      }
    }
  }

  lemma CutOffStep(s: seq<Byte>, most: nat)
    requires |s| > 0 && s[0] >= 128 && most > 0
    ensures CutOff(s, most) <==> CutOff(s[1..], most - 1)
  {
    assert forall k :: 1 <= k < |s| ==> s[1..][k - 1] == s[k];
  }

  /** A tag that the stream cuts off ends the message without an error; so up to five octets are ignored silently. */
  lemma CutOffTagEndsMessage(fields: seq<Field>, slots: seq<Slot>, a: seq<Byte>, cut: seq<Byte>)
    requires |slots| == |fields| && DecodeRecords(fields, State(slots, {}), a).RanOut?
    requires CutOff(cut, 5)
    ensures DecodeMessage(fields, slots, a + cut) == DecodeMessage(fields, slots, a)
  {
    hide Checked;
    var st := DecodeRecords(fields, State(slots, {}), a).st;
    CutOffEnds(fields, st, cut);
    hide DecodeRecords, CutOff;
    RecordsFold(fields, State(slots, {}), a, cut);
  }

  lemma CutOffEnds(fields: seq<Field>, st: State, cut: seq<Byte>)
    requires |st.slots| == |fields| && CutOff(cut, 5)
    ensures DecodeRecords(fields, st, cut) == if |cut| == 0 then RanOut(st) else EndMark(st)
  {
    hide CutOff, DecodeSlot, Skip, Find, ReadVarint;
    CutOffMeaning(cut, 32, 0, 0);
  }

  /** Exactly a cut-off tag and a zero tag end a message early; any other tag that cannot be read is an error. */
  lemma EarlyEndIff(fields: seq<Field>, st: State, s: seq<Byte>)
    requires |st.slots| == |fields| && |s| > 0
    ensures DecodeRecord(fields, st, s) == Stop(EndMark(st)) <==>
            CutOff(s, 5) || DecodeVarint32(s).0 == Some(0)
  {
    hide CutOff, DecodeSlot, Skip, Find, ReadVarint;
    CutOffMeaning(s, 32, 0, 0);
  }
}
