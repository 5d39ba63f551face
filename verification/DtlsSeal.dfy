/** Write epochs and record numbers (RFC 6347 section 4.1): records are sealed under the current epoch or, for
    retransmissions, the one before it, and no two of them may share an epoch and number. */
module DtlsSeal {
  import opened Bytes
  import opened DtlsRecord

  const NUMBERS: nat := 0x1_0000_0000_0000
  const EPOCHS: nat := 0x1_0000

  datatype Sealed = Sealed(epoch: nat, number: nat, contentType: Byte, version: nat, plain: seq<Byte>, payload: seq<Byte>)

  function WireRecord(s: Sealed): Record {
    Record(s.contentType, s.version, Sequence(s.epoch, s.number), s.payload)
  }

  function WireLength(s: Sealed): nat {
    RECORD_HEADER_LENGTH + |s.payload|
  }

  /** The write state: epoch, next record number and cipher, the same of the previous epoch, and what was sealed so far.
      exhausted says that a counter has wrapped. */
  datatype Writer = Writer(
    epoch: nat, number: nat, lastNumber: nat, cur: Aead, prev: Aead, sealed: seq<Sealed>, exhausted: bool)

  function UsedAead(w: Writer, previous: bool): Aead {
    if previous then w.prev else w.cur
  }

  function UsedEpoch(w: Writer, previous: bool): nat
    requires previous ==> w.epoch >= 1
  {
    if previous then w.epoch - 1 else w.epoch
  }

  function UsedNumber(w: Writer, previous: bool): nat {
    if previous then w.lastNumber else w.number
  }

  /** The counter after one more record, wrapping at its width. */
  function Bump(w: Writer, previous: bool): Writer {
    var next := (UsedNumber(w, previous) + 1) % NUMBERS;
    if previous then w.(lastNumber := next, exhausted := w.exhausted || next == 0)
    else w.(number := next, exhausted := w.exhausted || next == 0)
  }

  ghost predicate SameCiphers(w: Writer, v: Writer) {
    w.epoch == v.epoch && w.cur == v.cur && w.prev == v.prev
  }

  /** Seals one record into at most maxOut octets; None when it fails. A record that fails only because its counter
      wrapped or its payload is too long has used up its number. */
  function SealRecord(w: Writer, previous: bool, maxOut: nat, contentType: Byte, plain: seq<Byte>)
    : (res: (Writer, Option<Sealed>))
    requires previous ==> w.epoch >= 1
    ensures res.1.Some? ==> WireLength(res.1.value) <= maxOut
    ensures SameCiphers(res.0, w)
    ensures res.1.Some? ==>
              var s := res.1.value;
              s.epoch == UsedEpoch(w, previous) && s.contentType == contentType && s.plain == plain
  {
    if maxOut < RECORD_HEADER_LENGTH then (w, None)
    else
      var epoch, number := UsedEpoch(w, previous), UsedNumber(w, previous);
      var version := w.cur.recordVersion;
      var payload := UsedAead(w, previous).seal(contentType, version, Sequence(epoch, number), plain);
      if |payload| > maxOut - RECORD_HEADER_LENGTH then (w, None)
      else
        var w' := Bump(w, previous);
        if (number + 1) % NUMBERS == 0 || |payload| >= 0x1_0000 then (w', None)
        else
          var s := Sealed(epoch, number, contentType, version, plain, payload);
          (w'.(sealed := w'.sealed + [s]), Some(s))
  }

  /** A new write cipher: the old one stays usable for retransmissions. */
  function NextWriteState(w: Writer, aead: Aead): Writer {
    var epoch := (w.epoch + 1) % EPOCHS;
    Writer(epoch, 0, w.number, aead, w.cur, w.sealed, w.exhausted || epoch == 0)
  }

  // Uniqueness.

  ghost predicate Distinct(log: seq<Sealed>) {
    forall i, j :: 0 <= i < j < |log| ==> log[i].epoch != log[j].epoch || log[i].number != log[j].number
  }

  /** Nothing sealed so far can be met again by a counter: its epoch is past, or its number is below the counter. */
  ghost predicate Ahead(w: Writer) {
    && w.epoch < EPOCHS && w.number < NUMBERS && w.lastNumber < NUMBERS
    && forall i :: 0 <= i < |w.sealed| ==>
         var s := w.sealed[i];
         && s.epoch <= w.epoch && s.number < NUMBERS
         && (s.epoch == w.epoch ==> s.number < w.number)
         && (s.epoch + 1 == w.epoch ==> s.number < w.lastNumber)
  }

  ghost predicate Fresh(w: Writer) {
    w.exhausted || (Distinct(w.sealed) && Ahead(w))
  }

  lemma SealKeepsFresh(w: Writer, previous: bool, maxOut: nat, contentType: Byte, plain: seq<Byte>)
    requires Fresh(w) && (previous ==> w.epoch >= 1)
    ensures Fresh(SealRecord(w, previous, maxOut, contentType, plain).0)
  {
    var (w', s) := SealRecord(w, previous, maxOut, contentType, plain);
    if !w'.exhausted {
      if s.Some? {
        NumberedKeepsFresh(w, previous, s.value);
      } else if w' != w {
        BumpKeepsFresh(w, previous);
      }
    }
  }

  lemma BumpKeepsFresh(w: Writer, previous: bool)
    requires Fresh(w)
    ensures Fresh(Bump(w, previous))
  {
  }

  lemma NumberedKeepsFresh(w: Writer, previous: bool, s: Sealed)
    requires Distinct(w.sealed) && Ahead(w) && (previous ==> w.epoch >= 1)
    requires s.epoch == UsedEpoch(w, previous) && s.number == UsedNumber(w, previous)
    ensures var w' := Bump(w, previous); Fresh(w'.(sealed := w'.sealed + [s]))
  {
  }

  lemma NextWriteStateKeepsFresh(w: Writer, aead: Aead)
    requires Fresh(w)
    ensures Fresh(NextWriteState(w, aead))
  {
  }

  /** After a change of cipher the new epoch starts at record number zero, while the old one goes on where it was: what is
      sent again carries the epoch and the next number it would have carried before the change. */
  lemma ChangeMeaning(w: Writer, aead: Aead, maxOut: nat, contentType: Byte, plain: seq<Byte>)
    requires w.epoch + 1 < EPOCHS
    ensures var w' := NextWriteState(w, aead);
            var now := SealRecord(w', false, maxOut, contentType, plain).1;
            var again := SealRecord(w', true, maxOut, contentType, plain).1;
            && (now.Some? ==>
                  now.value.epoch == w.epoch + 1 && now.value.number == 0
                  && now.value.payload == aead.seal(contentType, aead.recordVersion, Sequence(w.epoch + 1, 0), plain))
            && (again.Some? ==>
                  again.value.epoch == w.epoch && again.value.number == w.number
                  && again.value.payload == w.cur.seal(contentType, aead.recordVersion, Sequence(w.epoch, w.number), plain))
  {
    hide Sequence;
  }

  datatype Step =
    | Seal(previous: bool, maxOut: nat, contentType: Byte, plain: seq<Byte>)
    | ChangeCipher(aead: Aead)

  function Apply(w: Writer, step: Step): Writer {
    match step
    case Seal(previous, maxOut, contentType, plain) =>
      if previous && w.epoch == 0 then w else SealRecord(w, previous, maxOut, contentType, plain).0
    case ChangeCipher(aead) => NextWriteState(w, aead)
  }

  function Run(w: Writer, steps: seq<Step>): Writer {
    if |steps| == 0 then w else Apply(Run(w, steps[..|steps| - 1]), steps[|steps| - 1])
  }

  function FirstWriter(nullCipher: Aead): Writer {
    Writer(0, 0, 0, nullCipher, nullCipher, [], false)
  }

  lemma {:induction false} RunIsFresh(nullCipher: Aead, steps: seq<Step>)
    ensures Fresh(Run(FirstWriter(nullCipher), steps))
  {
    if |steps| > 0 {
      var before := Run(FirstWriter(nullCipher), steps[..|steps| - 1]);
      RunIsFresh(nullCipher, steps[..|steps| - 1]);
      match steps[|steps| - 1]
      case Seal(previous, maxOut, contentType, plain) =>
        if !(previous && before.epoch == 0) {
          SealKeepsFresh(before, previous, maxOut, contentType, plain);
        }
      case ChangeCipher(aead) =>
        NextWriteStateKeepsFresh(before, aead);
    }
  }

  /** Over every interleaving of seals under either epoch and of cipher changes, as long as no counter has wrapped, no
      two sealed records carry the same epoch and number: not as integers, and not as the eight octets on the wire. */
  lemma SealedRecordsUnique(nullCipher: Aead, steps: seq<Step>, i: nat, j: nat)
    requires i < j < |Run(FirstWriter(nullCipher), steps).sealed|
    requires !Run(FirstWriter(nullCipher), steps).exhausted
    ensures var log := Run(FirstWriter(nullCipher), steps).sealed;
            && (log[i].epoch != log[j].epoch || log[i].number != log[j].number)
            && WireRecord(log[i]).sequence != WireRecord(log[j]).sequence
  {
    RunIsFresh(nullCipher, steps);
    var log := Run(FirstWriter(nullCipher), steps).sealed;
    if Sequence(log[i].epoch, log[i].number) == Sequence(log[j].epoch, log[j].number) {
      SequenceInjective(log[i].epoch, log[i].number, log[j].epoch, log[j].number);
    }
  }

  /** The limit is real: the seal that wraps the counter fails, but leaves the counter at zero, and a seal after it
      carries record number 0 of the epoch once more. */
  lemma WrappedCounterRepeats(w: Writer, contentType: Byte, plain: seq<Byte>, maxOut: nat)
    requires w.number == NUMBERS - 1 && Sound(w.cur)
    requires maxOut >= RECORD_HEADER_LENGTH + |plain| + w.cur.maxOverhead && |plain| + w.cur.maxOverhead < 0x1_0000
    ensures var (w1, first) := SealRecord(w, false, maxOut, contentType, plain);
            var (w2, second) := SealRecord(w1, false, maxOut, contentType, plain);
            && first.None? && w1.number == 0
            && second.Some? && second.value.epoch == w.epoch && second.value.number == 0
  {
    var payload := w.cur.seal(contentType, w.cur.recordVersion, Sequence(w.epoch, w.number), plain);
    assert |payload| <= |plain| + w.cur.maxOverhead;
    var payload2 := w.cur.seal(contentType, w.cur.recordVersion, Sequence(w.epoch, 0), plain);
    assert |payload2| <= |plain| + w.cur.maxOverhead;
  }
}
