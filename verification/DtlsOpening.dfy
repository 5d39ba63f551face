/** Which records a receiver opens and what an opened record does, told from the octets on the wire and from the set of
    numbers that were recorded before. */
module DtlsOpening {
  import opened Bytes
  import opened HandshakeHeader
  import opened IncomingMessage
  import opened IncomingRing
  import opened DtlsRecord
  import opened DtlsSeal
  import opened DtlsReader
  import ReplayWindow

  /** The number the replay window knows a record by: epoch and record number in one. */
  function WindowNumber(epoch: nat, number: nat): nat {
    epoch * 0x1_0000_0000_0000 + number
  }

  /** The versions a receiver takes: under the null cipher all whose major octet is that of DTLS, else the cipher's own. */
  predicate GoodVersion(aead: Aead, version: nat) {
    if aead.isNull then 0xfe00 <= version <= 0xfeff else version == aead.recordVersion
  }

  /** A record that gets as far as its cipher and is authentic. */
  ghost predicate Authentic(epoch: nat, window: ReplayWindow.Window, recorded: set<nat>, aead: Aead, r: Record)
    requires FitsWire(r)
  {
    && |r.payload| <= 16384 + 256 + 64
    && GoodVersion(aead, r.version)
    && Epoch(r) == epoch
    && Value(r.sequence) !in recorded && !ReplayWindow.Stale(Value(r.sequence), window.max)
    && aead.open(r.contentType, r.version, r.sequence, r.payload).Some?
  }

  /** Exactly the authentic records of the epoch with a new number are opened: they bring their plaintext and are
      recorded, unless the plaintext is too long. Of all others nothing remains, and only a record that is too long or of
      a foreign version takes the rest of its packet with it. */
  lemma OpensIff(epoch: nat, window: ReplayWindow.Window, recorded: set<nat>, aead: Aead, r: Record, rest: seq<Byte>)
    requires FitsWire(r) && ReplayWindow.Represents(window, recorded)
    ensures var input := RecordBytes(r) + rest;
            var res := OpenRecord(epoch, window, aead, input);
            var text := aead.open(r.contentType, r.version, r.sequence, r.payload);
            && (if !Authentic(epoch, window, recorded, aead, r) then res.status == Discarded
                else if |text.value| > 16384 then res.status == Failed(RecordOverflow)
                else
                  && res.status == (if r.contentType == 21 then AlertReceived else Opened)
                  && res.contentType == r.contentType && Some(res.plain) == text
                  && ReplayWindow.Represents(res.window, recorded + {Value(r.sequence)}))
            && (res.status.Discarded? || res.status.Failed? ==> res.window == window)
            && input[res.consumed..] ==
               if |r.payload| > 16384 + 256 + 64 || !GoodVersion(aead, r.version) then [] else rest
  {
    var input := RecordBytes(r) + rest;
    assert |input| > 0;
    assert input[|input|..] == [] && input[|input| - |rest|..] == rest;
    if |r.payload| > MAX_ENCRYPTED_LENGTH {
      TooLong(r, rest);
      hide ParseRecord, RecordBytes, Epoch, FitsWire;
    } else {
      RecordRoundTrip(r, rest);
      ReplayWindow.DiscardMeaning(window, recorded, Value(r.sequence));
      ReplayWindow.RecordMeaning(window, recorded, Value(r.sequence));
      hide ParseRecord, RecordBytes, Epoch, FitsWire, ReplayWindow.Record, ReplayWindow.ShouldDiscard,
           ReplayWindow.Represents, Value;
    }
  }

  /** A record longer than any may be does not parse. */
  lemma TooLong(r: Record, rest: seq<Byte>)
    requires FitsWire(r) && |r.payload| > MAX_ENCRYPTED_LENGTH
    ensures ParseRecord(RecordBytes(r) + rest) == None
  {
    Pow256Values();
    var s := RecordBytes(r) + rest;
    assert s[11..13] == BigEndian(|r.payload|, 2);
    ValueOfBigEndian(|r.payload|, 2);
  }

  /** A record whose end is missing is dropped, however much of it there is. */
  lemma CutShortIsDropped(epoch: nat, window: ReplayWindow.Window, aead: Aead, r: Record, n: nat)
    requires FitsWire(r) && 0 < n < |RecordBytes(r)|
    ensures OpenRecord(epoch, window, aead, RecordBytes(r)[..n]) == OpenResult(Discarded, n, 0, [], window)
  {
    Pow256Values();
    var s := RecordBytes(r)[..n];
    if n >= RECORD_HEADER_LENGTH {
      assert s[11..13] == BigEndian(|r.payload|, 2);
      ValueOfBigEndian(|r.payload|, 2);
    }
  }

  lemma NumberOfSequence(epoch: nat, number: nat)
    requires epoch < EPOCHS && number < NUMBERS
    ensures Value(Sequence(epoch, number)) == WindowNumber(epoch, number)
  {
    Pow256Values();
    ValueOfBigEndian(epoch, 2);
    ValueOfBigEndian(number, 6);
    ValueConcat(BigEndian(epoch, 2), BigEndian(number, 6));
  }

  lemma {:induction false} ValueConcat(a: seq<Byte>, b: seq<Byte>)
    ensures Value(a + b) == Value(a) * Pow256(|b|) + Value(b)
    decreases |b|
  {
    if |b| == 0 {
      assert a + b == a;
    } else {
      var n := |b| - 1;
      ValueConcat(a, b[..n]);
      assert (a + b)[..|a + b| - 1] == a + b[..n];
      Regroup(Value(a), Pow256(n), Value(b[..n]), b[n]);
    }
  }

  lemma Regroup(a: nat, p: nat, v: nat, x: nat)
    ensures 256 * (a * p + v) + x == a * (256 * p) + (256 * v + x)
  {
  }

  /** What one end seals, the other end opens: a record sealed under the current or the previous epoch, with the version of
      the current cipher, is opened by a receiver in that epoch that takes the version and has not met the number, and
      exactly that record is consumed. */
  lemma SealedIsOpened(w: Writer, previous: bool, maxOut: nat, contentType: Byte, plain: seq<Byte>,
                       window: ReplayWindow.Window, recorded: set<nat>, rest: seq<Byte>)
    requires (previous ==> w.epoch >= 1) && w.epoch < EPOCHS && UsedNumber(w, previous) < NUMBERS
    requires Sound(UsedAead(w, previous)) && w.cur.recordVersion < 0x1_0000
    requires SealRecord(w, previous, maxOut, contentType, plain).1.Some?
    requires |plain| <= 16384 && |SealRecord(w, previous, maxOut, contentType, plain).1.value.payload| <= 16704
    requires GoodVersion(UsedAead(w, previous), w.cur.recordVersion)
    requires ReplayWindow.Represents(window, recorded)
    requires var n := WindowNumber(UsedEpoch(w, previous), UsedNumber(w, previous));
             n !in recorded && n + 64 > window.max
    ensures var s := SealRecord(w, previous, maxOut, contentType, plain).1.value;
            var n := WindowNumber(UsedEpoch(w, previous), UsedNumber(w, previous));
            var bytes := RecordBytes(WireRecord(s));
            var res := OpenRecord(UsedEpoch(w, previous), window, UsedAead(w, previous), bytes + rest);
            && res.status == (if contentType == ALERT then AlertReceived else Opened)
            && res.contentType == contentType && res.plain == plain
            && (bytes + rest)[res.consumed..] == rest
            && ReplayWindow.Represents(res.window, recorded + {n})
  {
    var s := SealRecord(w, previous, maxOut, contentType, plain).1.value;
    var aead, epoch := UsedAead(w, previous), UsedEpoch(w, previous);
    NumberOfSequence(epoch, UsedNumber(w, previous));
    EpochOfSequence(epoch, UsedNumber(w, previous));
    assert aead.open(contentType, s.version, WireRecord(s).sequence, s.payload) == Some(plain);
    OpensIff(epoch, window, recorded, aead, WireRecord(s), rest);
    hide OpenRecord, RecordBytes, Sequence, Value, Sound, SealRecord, ReplayWindow.Represents, Epoch;
  }

  // What an opened record does.

  /** Sends one fragment after another into the ring, until one is refused. */
  function AcceptEach(r: Ring, fs: seq<Fragment>, maxLen: nat, epoch: nat): (res: (Ring, Option<Alert>))
    requires WellPlaced(r) && AllFit(fs)
    ensures WellPlaced(res.0)
    decreases |fs|
  {
    if |fs| == 0 then (r, None)
    else
      var (r', alert) := Accept(r, fs[0], maxLen, epoch);
      if alert.Some? then (r', alert) else AcceptEach(r', fs[1..], maxLen, epoch)
  }

  predicate AllFit(fs: seq<Fragment>) {
    forall k :: 0 <= k < |fs| ==> Fits(fs[k].hdr) && fs[k].hdr.fragLen == |fs[k].body|
  }

  function FragmentsBytes(fs: seq<Fragment>): seq<Byte> {
    if |fs| == 0 then [] else FragmentBytes(fs[0]) + FragmentsBytes(fs[1..])
  }

  /** A handshake record holds any number of fragments, which all go into the ring; what follows them and is no fragment
      is an error, but does not undo them. */
  lemma {:induction false} AcceptsAllFragments(r: Ring, fs: seq<Fragment>, tail: seq<Byte>, maxLen: nat, epoch: nat)
    requires WellPlaced(r) && AllFit(fs) && ParseFragment(tail).None?
    ensures var (r', alert) := AcceptEach(r, fs, maxLen, epoch);
            AcceptAll(r, FragmentsBytes(fs) + tail, maxLen, epoch) ==
            (r', if alert.Some? then alert else if tail == [] then None else Some(DecodeError))
    decreases |fs|
  {
    hide Accept, ParseFragment, FragmentBytes, WellPlaced;
    if |fs| == 0 {
      assert FragmentsBytes(fs) + tail == tail;
    } else {
      assert AllFit(fs[1..]);
      FragmentRoundTrip(fs[0], FragmentsBytes(fs[1..]) + tail);
      var input := FragmentsBytes(fs) + tail;
      assert input == FragmentBytes(fs[0]) + (FragmentsBytes(fs[1..]) + tail);
      var (r', alert) := Accept(r, fs[0], maxLen, epoch);
      assert WellPlaced(r') by { AcceptPlaced(r, fs[0], maxLen, epoch); }
      if alert.None? {
        AcceptsAllFragments(r', fs[1..], tail, maxLen, epoch);
      }
    }
  }

  lemma AcceptPlaced(r: Ring, f: Fragment, maxLen: nat, epoch: nat)
    requires WellPlaced(r) && Fits(f.hdr) && |f.body| == f.hdr.fragLen
    ensures WellPlaced(Accept(r, f, maxLen, epoch).0)
  {
  }

  /** Only handshake records reach the ring, and only a ChangeCipherSpec of the one right form, before encryption, is
      noted as one. Anything else changes nothing and is ignored only if it is encrypted application data. */
  lemma DispatchMeaning(rx: Reader, aead: Aead, contentType: Byte, plain: seq<Byte>, maxLen: nat)
    requires WellPlaced(rx.ring)
    ensures var (rx', status) := Dispatch(rx, aead, contentType, plain, maxLen);
            && rx'.epoch == rx.epoch && rx'.window == rx.window
            && (rx'.ring != rx.ring ==> contentType == 22)
            && (contentType == 22 ==> rx'.ring == AcceptAll(rx.ring, plain, maxLen, rx.epoch).0)
            && (rx'.hasCcs <==> rx.hasCcs || (contentType == 20 && aead.isNull && plain == [1]))
            && (status == Discarded <==> contentType == 23 && !aead.isNull)
            && (status == Opened <==>
                  (contentType == 20 && aead.isNull && plain == [1])
                  || (contentType == 22 && AcceptAll(rx.ring, plain, maxLen, rx.epoch).1.None?))
  {
    hide AcceptAll;
  }

  // Moving on to the next epoch.

  /** The epoch changes, with a new window, exactly if nothing is held but octets of the message being processed: no
      ChangeCipherSpec, and no fragment of any other message. */
  lemma EpochChangesIff(rx: Reader)
    requires WellPlaced(rx.ring)
    ensures var (rx', ok) := NextEpoch(rx);
            && (ok <==> !rx.hasCcs && forall i :: 0 <= i < SLOTS && rx.ring.slots[i].Some? ==>
                                          rx.ring.hasMessage && rx.ring.slots[i].value.seqNum == rx.ring.readSeq)
            && rx'.ring == rx.ring && rx'.hasCcs == rx.hasCcs
            && (ok ==> rx'.epoch == (rx.epoch + 1) % 0x1_0000
                       && ReplayWindow.Represents(rx'.window, {}) && rx'.window.max == 0)
            && (!ok ==> rx' == rx)
  {
    forall i | 0 <= i < SLOTS && rx.ring.slots[i].Some?
      ensures rx.ring.slots[i].value.seqNum == rx.ring.readSeq <==> i == rx.ring.readSeq % SLOTS
    {
      if i == rx.ring.readSeq % SLOTS {
        SameWindowSlot(rx.ring.readSeq, rx.ring.readSeq, rx.ring.slots[i].value.seqNum);
      }
    }
  }
}
