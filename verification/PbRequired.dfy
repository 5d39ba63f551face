/** Tracking required fields: the bitmap of two words holds exactly the required fields that occurred, and what the
    final check makes of it for every number of required fields. */
module PbRequired {
  import opened Bytes
  import opened PbVarint
  import opened PbMessage
  import opened PbDecoding

  /** The field whose record comes first in the stream; |fields| when it is unknown or there is no record. */
  function RecordField(fields: seq<Field>, s: seq<Byte>): (i: nat)
    ensures i <= |fields|
  {
    var key := DecodeVarint32(s).0;
    if key.None? || key.value == 0 then |fields| else Find(fields, key.value / 8)
  }

  /** The fields of which a record is decoded in the course of a run. */
  function Occurring(fields: seq<Field>, st: State, s: seq<Byte>): (v: set<nat>)
    requires |st.slots| == |fields|
    decreases |s|
  {
    if |s| == 0 then {}
    else
      match DecodeRecord(fields, st, s)
      case More(st', rest) => {RecordField(fields, s)} + Occurring(fields, st', rest)
      case Stop(_) => {}
  }

  predicate IsRequired(fields: seq<Field>, i: nat) {
    i < |fields| && fields[i].htype.Required?
  }

  function Count(fields: seq<Field>): nat {
    RequiredBefore(fields, |fields|)
  }

  /** The bits that stand for a set of fields. */
  ghost predicate Marked(fields: seq<Field>, v: set<nat>, k: nat) {
    k < MAX_REQUIRED && exists i :: i in v && IsRequired(fields, i) && RequiredBefore(fields, i) == k
  }

  lemma {:induction false} RequiredGrows(fields: seq<Field>, i: nat, j: nat)
    requires i < j <= |fields|
    ensures RequiredBefore(fields, i) <= RequiredBefore(fields, j)
    ensures IsRequired(fields, i) ==> RequiredBefore(fields, i) < RequiredBefore(fields, j)
    decreases j
  {
    if i < j - 1 {
      RequiredGrows(fields, i, j - 1);
    }
  }

  /** Every bit below the count stands for a field. */
  lemma {:induction false} HasField(fields: seq<Field>, j: nat, k: nat) returns (i: nat)
    requires j <= |fields| && k < RequiredBefore(fields, j)
    ensures i < j && IsRequired(fields, i) && RequiredBefore(fields, i) == k
    decreases j
  {
    if IsRequired(fields, j - 1) && RequiredBefore(fields, j - 1) == k {
      i := j - 1;
    } else {
      i := HasField(fields, j - 1, k);
    }
  }

  lemma SameField(fields: seq<Field>, i: nat, j: nat)
    requires IsRequired(fields, i) && IsRequired(fields, j) && RequiredBefore(fields, i) == RequiredBefore(fields, j)
    ensures i == j
  {
    if i < j {
      RequiredGrows(fields, i, j);
    } else if j < i {
      RequiredGrows(fields, j, i);
    }
  }

  lemma RecordMarks(fields: seq<Field>, st: State, s: seq<Byte>, k: nat)
    requires |st.slots| == |fields| && |s| > 0 && DecodeRecord(fields, st, s).More?
    ensures k in DecodeRecord(fields, st, s).st.seen <==> k in st.seen || Marked(fields, {RecordField(fields, s)}, k)
  {
    hide DecodeSlot, Skip, Find, DecodeVarint32, Replace, RequiredBefore;
    var i := RecordField(fields, s);
    if i < |fields| {
      assert DecodeRecord(fields, st, s).st.seen == Stored(fields, st, i, st.slots[i]).seen;
      assert IsRequired(fields, i) && RequiredBefore(fields, i) == k ==> i in {i};
    }
  }

  lemma MarkedUnion(fields: seq<Field>, v: set<nat>, w: set<nat>, k: nat)
    ensures Marked(fields, v + w, k) <==> Marked(fields, v, k) || Marked(fields, w, k)
  {
    hide RequiredBefore;
    if Marked(fields, v + w, k) {
      var i :| i in v + w && IsRequired(fields, i) && RequiredBefore(fields, i) == k;
      assert i in v || i in w;
    }
    if Marked(fields, v, k) {
      var i :| i in v && IsRequired(fields, i) && RequiredBefore(fields, i) == k;
      assert i in v + w;
    }
    if Marked(fields, w, k) {
      var i :| i in w && IsRequired(fields, i) && RequiredBefore(fields, i) == k;
      assert i in v + w;
    }
  }

  predicate Ended(out: Outcome) {
    out.RanOut? || out.EndMark?
  }

  /** After any run the bitmap holds what it held before and one bit for each required field that occurred. */
  lemma {:induction false} SeenIsOccurring(fields: seq<Field>, st: State, s: seq<Byte>, k: nat)
    requires |st.slots| == |fields| && Ended(DecodeRecords(fields, st, s))
    ensures k in DecodeRecords(fields, st, s).st.seen <==> k in st.seen || Marked(fields, Occurring(fields, st, s), k)
    decreases |s|
  {
    hide DecodeRecord, RecordField, Marked;
    if |s| > 0 && DecodeRecord(fields, st, s).More? {
      var r := DecodeRecord(fields, st, s);
      RecordMarks(fields, st, s, k);
      SeenIsOccurring(fields, r.st, r.rest, k);
      MarkedUnion(fields, {RecordField(fields, s)}, Occurring(fields, r.st, r.rest), k);
    } else {
      assert !Marked(fields, {}, k) by { NothingMarked(fields, k); }
    }
  }

  lemma NothingMarked(fields: seq<Field>, k: nat)
    ensures !Marked(fields, {}, k)
  {
  }

  // The final check.

  predicate AllBelow(seen: set<nat>, n: nat) {
    forall k :: 0 <= k < n ==> k in seen
  }

  predicate OnlyBelow(seen: set<nat>, n: nat) {
    forall k :: k in seen ==> k < n
  }

  lemma WordFullMeaning(seen: set<nat>, w: nat)
    ensures AllBelow(seen, 32 * w) && WordFull(seen, w) <==> AllBelow(seen, 32 * w + 32)
  {
  }

  lemma WordLowMeaning(seen: set<nat>, w: nat, n: nat)
    requires n < 32 && OnlyBelow(seen, 32 * w + n)
    ensures AllBelow(seen, 32 * w) && WordLow(seen, w, n) <==> AllBelow(seen, 32 * w + n)
  {
    if WordLow(seen, w, n) && AllBelow(seen, 32 * w) {
      forall k | 0 <= k < 32 * w + n ensures k in seen {
        if k >= 32 * w {
          assert 32 * w <= k < 32 * w + 32;
        }
      }
    }
  }

  /** With bits only below the count, the check passes when all of them are there, provided the count is below 64 and
      not 32. A count of 32, or of 64 and more, is never checked to the end. */
  lemma CheckMeaning(count: nat, seen: set<nat>)
    requires OnlyBelow(seen, count)
    ensures count < 64 && count != 32 ==> CheckRequired(count, seen) == if AllBelow(seen, count) then Pass else Missing
    ensures count == 32 ==> CheckRequired(count, seen) == if AllBelow(seen, 32) then OutOfRange else Missing
    ensures count >= 64 ==> CheckRequired(count, seen) == if AllBelow(seen, 64) then OutOfRange else Missing
  {
    hide WordFull, WordLow, AllBelow, OnlyBelow;
    assert AllBelow(seen, 0) by { NoneBelow(seen); }
    WordFullMeaning(seen, 0);
    WordFullMeaning(seen, 1);
    if count < 32 {
      WordLowMeaning(seen, 0, count);
    } else if 32 < count < 64 {
      WordLowMeaning(seen, 1, count - 32);
      assert AllBelow(seen, count) ==> AllBelow(seen, 32) by { FewerBelow(seen, 32, count); }
      assert count % 32 == count - 32 && count / 32 == 1;
      OneWord(count, seen);
    } else if count == 32 {
      OneWord(count, seen);
    } else if count >= 64 {
      assert AllBelow(seen, 64) ==> AllBelow(seen, 32) by { FewerBelow(seen, 32, 64); }
      OneWord(count, seen);
      TwoWords(count, seen);
    }
  }

  lemma NoneBelow(seen: set<nat>)
    ensures AllBelow(seen, 0)
  {
  }

  lemma FewerBelow(seen: set<nat>, m: nat, n: nat)
    requires m <= n
    ensures AllBelow(seen, n) ==> AllBelow(seen, m)
  {
  }

  lemma OneWord(count: nat, seen: set<nat>)
    requires count >= 32
    ensures CheckRequired(count, seen) == if WordFull(seen, 0) then CheckWords(count, seen, 1) else Missing
  {
    hide WordFull, WordLow;
  }

  lemma TwoWords(count: nat, seen: set<nat>)
    requires count >= 64
    ensures CheckWords(count, seen, 1) == if WordFull(seen, 1) then OutOfRange else Missing
  {
    hide WordFull, WordLow;
  }

  /** Every required field among the first n required ones occurred. */
  ghost predicate RequiredOccur(fields: seq<Field>, v: set<nat>, n: nat) {
    forall i :: IsRequired(fields, i) && RequiredBefore(fields, i) < n ==> i in v
  }

  lemma AllBelowIsOccurring(fields: seq<Field>, seen: set<nat>, v: set<nat>, n: nat)
    requires n <= Count(fields) && n <= MAX_REQUIRED
    requires forall k: nat :: k in seen <==> Marked(fields, v, k)
    ensures AllBelow(seen, n) <==> RequiredOccur(fields, v, n)
  {
    hide RequiredBefore;
    if RequiredOccur(fields, v, n) {
      forall k | 0 <= k < n ensures k in seen {
        var i := HasField(fields, |fields|, k);
        assert i in v;
        assert Marked(fields, v, k);
      }
    }
    if AllBelow(seen, n) {
      forall i | IsRequired(fields, i) && RequiredBefore(fields, i) < n ensures i in v {
        var k := RequiredBefore(fields, i);
        assert k in seen;
        assert Marked(fields, v, k);
        var j :| j in v && IsRequired(fields, j) && RequiredBefore(fields, j) == k;
        SameField(fields, i, j);
      }
    }
  }

  lemma SeenBelowCount(fields: seq<Field>, seen: set<nat>, v: set<nat>)
    requires forall k: nat :: k in seen <==> Marked(fields, v, k)
    ensures OnlyBelow(seen, Count(fields))
  {
    hide RequiredBefore;
    forall k | k in seen ensures k < Count(fields) {
      assert Marked(fields, v, k);
      var i :| i in v && IsRequired(fields, i) && RequiredBefore(fields, i) == k;
      RequiredGrows(fields, i, |fields|);
    }
  }

  /** A run that comes to an end succeeds exactly when every required field occurred, as long as there are fewer than
      64 of them and not 32. With 32, or with 64 and more, it never succeeds: the check fails, or, once the 32 or the
      first 64 of them have all occurred, shifts by the width of a word or reads behind the bitmap. */
  lemma RequiredTracking(fields: seq<Field>, slots: seq<Slot>, s: seq<Byte>)
    requires |slots| == |fields| && Ended(DecodeRecords(fields, State(slots, {}), s))
    ensures var v, n := Occurring(fields, State(slots, {}), s), Count(fields);
            var r := DecodeMessage(fields, slots, s);
            && (n < 64 && n != 32 ==> if RequiredOccur(fields, v, n) then r.Good? else r.Bad?)
            && (n == 32 ==> if RequiredOccur(fields, v, 32) then r.Undefined? else r.Bad?)
            && (n >= 64 ==> if RequiredOccur(fields, v, 64) then r.Undefined? else r.Bad?)
  {
    hide DecodeRecords, Occurring, Marked, RequiredBefore, RequiredOccur, AllBelow, OnlyBelow, CheckRequired;
    var st := State(slots, {});
    var seen, v, n := DecodeRecords(fields, st, s).st.seen, Occurring(fields, st, s), Count(fields);
    forall k: nat ensures k in seen <==> Marked(fields, v, k) {
      SeenIsOccurring(fields, st, s, k);
    }
    SeenBelowCount(fields, seen, v);
    CheckMeaning(n, seen);
    if n < 64 {
      AllBelowIsOccurring(fields, seen, v, n);
    } else {
      AllBelowIsOccurring(fields, seen, v, 64);
    }
  }
}
