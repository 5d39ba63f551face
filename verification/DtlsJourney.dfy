/** A flight over a network that loses nothing: it is written to its end, every record of it is opened, and its messages are
    delivered. */
module DtlsJourney {
  import opened Bytes
  import opened HandshakeHeader
  import opened IncomingRing
  import opened DtlsRecord
  import opened DtlsSeal
  import opened DtlsFlight
  import opened FlightProofs
  import opened DtlsReader
  import opened DtlsOpening
  import opened DtlsProtocol
  import opened DtlsProgress
  import opened DtlsLedger
  import opened DtlsArrival
  import FlightCompletion
  import ReplayWindow

  /** All messages of the flight were queued under the current cipher. */
  predicate Current(t: Flight) {
    forall i :: 0 <= i < |t.messages| ==> t.messages[i].epoch == t.writer.epoch
  }

  /** The next record the writer seals, within the limits. */
  predicate IsNext(w: Writer, s: Sealed, most: nat) {
    s.epoch == w.epoch && s.number == w.number && |s.plain| <= most && |s.payload| <= most
  }

  /** The writer after one more record. */
  predicate OneOn(w: Writer, w': Writer) {
    w'.epoch == w.epoch && w'.number == w.number + 1 && w'.lastNumber == w.lastNumber && w'.exhausted == w.exhausted
  }

  lemma SealIsNext(w: Writer, maxOut: nat, contentType: Byte, plain: seq<Byte>)
    requires w.number + 1 < NUMBERS && |plain| <= maxOut
    ensures var (w', s) := SealRecord(w, false, maxOut, contentType, plain);
            s.Some? ==> IsNext(w, s.value, maxOut) && OneOn(w, w')
  {
    FlightCompletion.SmallNumber(w.number + 1);
  }

  lemma SealNextIsNext(t: Flight, maxOut: nat)
    requires FlightCompletion.Sendable(t) && Current(t) && t.written < |t.messages|
    ensures var (t', p) := SealNextMessage(t, maxOut);
            p.PartlySealed? || p.WhollySealed? ==>
              IsNext(t.writer, p.emission.sealed, maxOut) && OneOn(t.writer, t'.writer)
  {
    hide FlightCompletion.Sendable, SealRecord, IsRaw, ParseFragment, FragmentBytes, IsNext, OneOn;
    FlightCompletion.Unfolded(t, false);
    var msg := t.messages[t.written];
    assert t.writer.number + 1 < NUMBERS;
    var overhead := RECORD_HEADER_LENGTH + t.writer.cur.maxOverhead;
    if msg.isCcs {
      if maxOut >= 1 + overhead {
        SealIsNext(t.writer, maxOut, CHANGE_CIPHER_SPEC, CCS_BODY);
      }
    } else {
      var whole := Whole(msg);
      if maxOut >= HEADER_LENGTH + 1 + overhead {
        var todo := Todo(|whole.body| - t.offset, maxOut, overhead);
        SealIsNext(t.writer, maxOut, HANDSHAKE, FragmentBytes(Cut(whole, t.offset, todo)));
      }
    }
  }

  /** The emissions carry the numbers from that of w on, up to that of w', in the epoch of both. */
  ghost predicate Numbered(w: Writer, es: seq<Emission>, w': Writer, most: nat) {
    && w'.epoch == w.epoch && w'.number == w.number + |es| && w'.exhausted == w.exhausted
    && forall k :: 0 <= k < |es| ==>
         && es[k].sealed.epoch == w.epoch && es[k].sealed.number == w.number + k
         && |es[k].sealed.plain| <= most && |es[k].sealed.payload| <= most
  }

  lemma NumberedSnoc(w: Writer, es: seq<Emission>, w': Writer, e: Emission, w'': Writer, most: nat, maxOut: nat)
    requires Numbered(w, es, w', most) && IsNext(w', e.sealed, maxOut) && OneOn(w', w'') && maxOut <= most
    ensures Numbered(w, es + [e], w'', most)
  {
  }

  lemma NumberedConcat(w: Writer, es: seq<Emission>, w': Writer, fs: seq<Emission>, w'': Writer, most: nat)
    requires Numbered(w, es, w', most) && Numbered(w', fs, w'', most)
    ensures Numbered(w, es + fs, w'', most)
  {
  }

  ghost predicate PacketNumbered(w: Writer, r: (Flight, Option<seq<Emission>>), most: nat) {
    Current(r.0) && (r.1.Some? ==> Numbered(w, r.1.value, r.0.writer, most))
  }

  lemma {:induction false} SealPacketNumbered(t: Flight, room: nat, acc: seq<Emission>, w: Writer, most: nat)
    requires t.written <= |t.messages| && FlightCompletion.Sendable(t) && Current(t)
    requires Numbered(w, acc, t.writer, most) && room <= most < RECORD_HEADER_LENGTH + 0x1_0000
    ensures PacketNumbered(w, SealPacket(t, room, acc), most)
    decreases |t.messages| - t.written
  {
    hide SealNextMessage, SealPacket, FlightCompletion.Sendable, Numbered, IsNext;
    SealPacketUnfolded(t, room, acc);
    if t.written < |t.messages| {
      FlightCompletion.SealNextSucceeds(t, room);
      SealNextIsNext(t, room);
      var (t', p) := SealNextMessage(t, room);
      if p.WhollySealed? || p.PartlySealed? {
        NumberedSnoc(w, acc, t.writer, p.emission, t'.writer, most, room);
        if p.WhollySealed? {
          SealPacketNumbered(t'.(written := t'.written + 1), room - WireLength(p.emission.sealed), acc + [p.emission], w, most);
        }
      }
    }
  }

  lemma NoneNumbered(w: Writer, most: nat)
    ensures Numbered(w, [], w, most)
  {
  }

  /** A flight that is written to its end carries consecutive numbers, in records no longer than the MTU. */
  lemma {:induction false} FlightNumbered(t: Flight, mtu: nat, writes: seq<int>)
    requires FlightCompletion.Sendable(t) && FlightCompletion.Roomy(t.writer, mtu) && Current(t) && t.written <= |t.messages|
    requires FlightCompletion.Accepting(writes, FlightCompletion.Left(t))
    ensures var r := SendLoop(t, mtu, writes);
            r.outcome.Done? && Numbered(t.writer, Flatten(r.packets), r.flight.writer, mtu)
    decreases FlightCompletion.Left(t)
  {
    hide SealPacket, FlightCompletion.Left, Numbered;
    NoneNumbered(t.writer, mtu);
    if t.written < |t.messages| {
      FlightCompletion.PacketSucceeds(t, mtu);
      SealPacketNumbered(t, mtu, [], t.writer, mtu);
      hide FlightCompletion.Sendable;
      var (t', packet) := SealPacket(t, mtu, []);
      FlightNumbered(t', mtu, LaterWrites(writes));
      var later := SendLoop(t', mtu, LaterWrites(writes));
      NumberedConcat(t.writer, packet.value, t'.writer, Flatten(later.packets), later.flight.writer, mtu);
      assert ([packet.value] + later.packets)[1..] == later.packets;
    }
  }

  // In order and without loss, every record is in time.

  /** The window has met nothing of the epoch from the given number on. */
  predicate Ahead(window: ReplayWindow.Window, epoch: nat, number: nat) {
    window == ReplayWindow.EMPTY || window.max < WindowNumber(epoch, number)
  }

  lemma {:induction false} WindowStaysBehind(keys: Keys, sent: seq<Message>, rx: Reader, es: seq<Emission>, maxLen: nat, w: Writer,
                                             w': Writer, most: nat, k: nat)
    requires DtlsArrival.Sendable(sent) && FaithfulRing(sent, rx.ring) && AllGenuine(keys, sent, es)
    requires Numbered(w, es, w', most) && rx.epoch == w.epoch && Ahead(rx.window, w.epoch, w.number) && k <= |es|
    ensures var window := TakenAll(keys, sent, rx, es[..k], maxLen).window;
            window == ReplayWindow.EMPTY || window.max < WindowNumber(w.epoch, w.number + k)
    decreases k
  {
    hide FaithfulRing, Genuine, AllBuildable, Accept, ReplayWindow.ShouldDiscard;
    if k > 0 {
      WindowStaysBehind(keys, sent, rx, es, maxLen, w, w', most, k - 1);
      assert es[..k][..k - 1] == es[..k - 1];
      var before := TakenAll(keys, sent, rx, es[..k - 1], maxLen);
      RecordMax(before.window, NumberOf(es[k - 1].sealed));
      hide ReplayWindow.Record;
    }
  }

  lemma RecordMax(window: ReplayWindow.Window, n: nat)
    ensures ReplayWindow.Record(window, n).max == if n > window.max then n else window.max
  {
  }

  lemma AheadAdmits(rx: Reader, s: Sealed)
    requires s.epoch == rx.epoch && (rx.window == ReplayWindow.EMPTY || rx.window.max < NumberOf(s))
    ensures Admits(rx, s)
  {
  }

  lemma InOrderComes(keys: Keys, sent: seq<Message>, rx: Reader, es: seq<Emission>, maxLen: nat, w: Writer, w': Writer, most: nat)
    requires DtlsArrival.Sendable(sent) && FaithfulRing(sent, rx.ring) && AllGenuine(keys, sent, es)
    requires Numbered(w, es, w', most) && rx.epoch == w.epoch && Ahead(rx.window, w.epoch, w.number)
    ensures FlightComes(keys, sent, rx, es, maxLen, es)
  {
    hide FaithfulRing, Genuine, AllBuildable, Admits, TakenAll;
    forall j | 0 <= j < |es|
      ensures Admits(rx, es[j].sealed) && ComesInTime(keys, sent, rx, es, maxLen, es[j].sealed)
    {
      WindowStaysBehind(keys, sent, rx, es, maxLen, w, w', most, j);
      AheadAdmits(rx, es[j].sealed);
      assert !ReplayWindow.Stale(NumberOf(es[j].sealed), TakenAll(keys, sent, rx, es[..j], maxLen).window.max);
    }
  }

  lemma {:induction false} StreamIsFlat(packets: seq<seq<Emission>>)
    ensures Stream(packets) == Flatten(packets)
    decreases |packets|
  {
    if |packets| > 0 {
      var n := |packets| - 1;
      StreamIsFlat(packets[..n]);
      FlattenSnoc(packets[..n], packets[n]);
      assert packets[..n] + [packets[n]] == packets;
    }
  }

  lemma {:induction false} FlattenSnoc(packets: seq<seq<Emission>>, p: seq<Emission>)
    ensures Flatten(packets + [p]) == Flatten(packets) + p
    decreases |packets|
  {
    if |packets| > 0 {
      FlattenSnoc(packets[1..], p);
      assert (packets + [p])[1..] == packets[1..] + [p];
      assert packets[0] + (Flatten(packets[1..]) + p) == packets[0] + Flatten(packets[1..]) + p;
    } else {
      assert [p][1..] == [];
      assert p + Flatten([p][1..]) == p;
    }
  }

  // The journey.

  /** The sender is about to send, in the receiver's epoch, just the messages the receiver waits for. */
  ghost predicate Departing(keys: Keys, w: World, mtu: nat, writes: seq<int>, maxLen: nat) {
    var t := w.tx.(complete := true);
    && Ready(keys, w) && !w.tx.writer.exhausted && w.buffer == [] && AllShort(w.sent, maxLen)
    && FlightCompletion.Sendable(t) && Current(t) && t.written == 0 && t.offset == 0 && |t.messages| <= SLOTS
    && FlightCompletion.Roomy(t.writer, mtu) && mtu <= 16384
    && FlightCompletion.Accepting(writes, FlightCompletion.Left(t))
    && w.rx.epoch == t.writer.epoch && w.rx.epoch != 1 && Ahead(w.rx.window, t.writer.epoch, t.writer.number)
    && WellPlaced(w.rx.ring) && FlightOf(w.sent, t, w.rx.ring.readSeq)
  }

  lemma AfterFlush(keys: Keys, w: World, mtu: nat, writes: seq<int>, maxLen: nat)
    requires Departing(keys, w, mtu, writes, maxLen) && OneVersion(keys) && InRange(w)
    ensures var t := w.tx.(complete := true);
            var w1, r := Next(keys, w, Flush(mtu, writes)), SendLoop(t, mtu, writes);
            && Ready(keys, w1) && w1 == w.(tx := r.flight, network := w.network + AllPackets(r.packets))
            && !w1.tx.writer.exhausted && InRange(w1)
            && r.outcome.Done? && Numbered(t.writer, Flatten(r.packets), r.flight.writer, mtu)
  {
    var t := w.tx.(complete := true);
    FlightNumbered(t, mtu, writes);
    ReadyInRange(keys, w);
    StepKeepsInv(keys, w, Flush(mtu, writes));
    StepOrderly(keys, w, Flush(mtu, writes));
    hide Inv, Orderly, SendLoop, Flatten, FlightCompletion.Sendable, FlightCompletion.Left, OneVersion, GoodKeys, FlightOf;
  }

  lemma FlushedAvailable(keys: Keys, w: World, packets: seq<seq<Emission>>, before: Writer, mtu: nat)
    requires Ready(keys, w) && Numbered(before, Flatten(packets), w.tx.writer, mtu) && mtu <= 16384
    requires w.rx.epoch == before.epoch && forall k :: 0 <= k < |packets| ==> packets[k] in w.network
    ensures Available(keys, w, packets)
  {
    hide Ready, Entered, Flatten, Ledger;
    ReadyOrderly(keys, w);
    forall k | 0 <= k < |packets|
      ensures AllRegular(keys, w.rx.epoch, packets[k])
    {
      ReadyOnNetwork(keys, w, packets[k]);
      forall j | 0 <= j < |packets[k]|
        ensures Regular(keys, w.rx.epoch, packets[k][j].sealed) && Entered(keys, packets[k][j].sealed)
      {
        FlattenMember(packets, k, j);
        var i :| 0 <= i < |Flatten(packets)| && Flatten(packets)[i] == packets[k][j];
        LoggedEntered(keys, w.tx.writer, packets[k][j].sealed);
      }
    }
  }

  lemma LoggedEntered(keys: Keys, w: Writer, s: Sealed)
    requires Ledger(keys, w) && s in w.sealed
    ensures Entered(keys, s) && GoodVersion(keys(s.epoch), s.version)
  {
    var k :| 0 <= k < |w.sealed| && w.sealed[k] == s;
    hide Keyed, Fresh;
  }

  /** One flush, its packets taken off the network one after another, and as many calls as there are messages deliver the
      whole flight. */
  lemma FlightArrives(keys: Keys, w: World, mtu: nat, writes: seq<int>, maxLen: nat)
    requires Departing(keys, w, mtu, writes, maxLen) && OneVersion(keys) && InRange(w)
    ensures InRange(Next(keys, w, Flush(mtu, writes)))
    ensures var packets := SendLoop(w.tx.(complete := true), mtu, writes).packets;
            var w' := DeliverTimes(keys, TakeAll(keys, Next(keys, w, Flush(mtu, writes)), packets, maxLen), |w.tx.messages|);
            && |w'.delivered| == |w.delivered| + |w.tx.messages| <= |w.sent|
            && forall k :: 0 <= k < |w'.delivered| ==> w'.delivered[k] == RawOf(w.sent, k)
  {
    var t := w.tx.(complete := true);
    AfterFlush(keys, w, mtu, writes, maxLen);
    var w1, packets := Next(keys, w, Flush(mtu, writes)), SendLoop(t, mtu, writes).packets;
    assert WellFormed(t) by { FlightCompletion.Unfolded(t, false); }
    hide SendLoop, Next, Flatten, Stream, FlightCompletion.Sendable, FlightCompletion.Left, Ready, Numbered, OneVersion,
         FlightComes, TakeAll, DeliverTimes, RawOf, FlightOf, AllShort, WellFormed, AllGenuine, FaithfulRing, InRange;
    FlushedAvailable(keys, w1, packets, t.writer, mtu);
    TakeAllTakes(keys, w1, packets, maxLen);
    ReadySendable(keys, w1);
    StreamIsFlat(packets);
    InOrderComes(keys, w1.sent, w1.rx, Stream(packets), maxLen, t.writer, w1.tx.writer, mtu);
    FlightDelivered(keys, w1, t, mtu, writes, packets, maxLen);
  }
}
