/** What the network can carry: every record on it is in the sender's log of sealed records, where no two share an epoch
    and number, and has a version that the cipher of its epoch takes. */
module DtlsLedger {
  import opened Bytes
  import opened DtlsRecord
  import opened DtlsSeal
  import opened DtlsFlight
  import opened FlightProofs
  import opened DtlsReader
  import opened DtlsOpening
  import opened DtlsProtocol
  import ReplayWindow

  /** The versions of a connection: one for all its ciphers but the null cipher, which has some version of DTLS. */
  ghost predicate OneVersion(keys: Keys) {
    forall e: nat ::
      && 0xfe00 <= keys(e).recordVersion <= 0xfeff
      && (e > 0 ==> !keys(e).isNull && keys(e).recordVersion == keys(1).recordVersion)
  }

  ghost predicate Entered(keys: Keys, s: Sealed) {
    && s.epoch < EPOCHS && s.number < NUMBERS
    && 0xfe00 <= s.version <= 0xfeff && GoodVersion(keys(s.epoch), s.version)
  }

  ghost predicate AllEntered(keys: Keys, log: seq<Sealed>) {
    forall k :: 0 <= k < |log| ==> Entered(keys, log[k])
  }

  ghost predicate Ledger(keys: Keys, w: Writer) {
    && Keyed(keys, w) && w.number < NUMBERS && w.lastNumber < NUMBERS
    && Fresh(w) && AllEntered(keys, w.sealed)
  }

  /** All of the emissions are in the log. */
  ghost predicate InLog(w: Writer, es: seq<Emission>) {
    forall k :: 0 <= k < |es| ==> es[k].sealed in w.sealed
  }

  lemma InLogGrows(w: Writer, w': Writer, es: seq<Emission>)
    requires InLog(w, es) && w.sealed <= w'.sealed
    ensures InLog(w', es)
  {
    forall k | 0 <= k < |es| ensures es[k].sealed in w'.sealed {
      var i :| 0 <= i < |w.sealed| && w.sealed[i] == es[k].sealed;
      assert w'.sealed[i] == es[k].sealed;
    }
  }

  lemma SealEnters(keys: Keys, w: Writer, previous: bool, maxOut: nat, contentType: Byte, plain: seq<Byte>)
    requires Ledger(keys, w) && OneVersion(keys) && GoodKeys(keys) && (previous ==> w.epoch >= 1)
    ensures var (w', s) := SealRecord(w, previous, maxOut, contentType, plain);
            && Ledger(keys, w') && w.sealed <= w'.sealed
            && (s.Some? ==> s.value in w'.sealed && s.value.version == w.cur.recordVersion)
  {
    SealKeepsFresh(w, previous, maxOut, contentType, plain);
    var (w', s) := SealRecord(w, previous, maxOut, contentType, plain);
    assert Keyed(keys, w');
    assert w.cur == keys(w.epoch);
    if s.Some? {
      assert w'.sealed[|w.sealed|] == s.value;
      assert Entered(keys, s.value);
    }
    hide Fresh, Keyed, Entered, GoodKeys, Sound, OneVersion;
  }

  lemma SealNextEnters(keys: Keys, t: Flight, maxOut: nat)
    requires Ledger(keys, t.writer) && OneVersion(keys) && GoodKeys(keys) && t.written < |t.messages|
    ensures var (t', p) := SealNextMessage(t, maxOut);
            && Ledger(keys, t'.writer) && t.writer.sealed <= t'.writer.sealed
            && (p.PartlySealed? || p.WhollySealed? ==> p.emission.sealed in t'.writer.sealed)
  {
    hide Ledger, SealRecord, HandshakeHeader.ParseFragment, HandshakeHeader.FragmentBytes, Cut, Todo, SameCiphers, OneVersion,
         GoodKeys;
    var msg := t.messages[t.written];
    var previous := UsesPrevious(t, msg);
    if msg.isCcs {
      SealEnters(keys, t.writer, previous, maxOut, CHANGE_CIPHER_SPEC, CCS_BODY);
    } else {
      var parsed := HandshakeHeader.ParseFragment(msg.data);
      var overhead := RECORD_HEADER_LENGTH + UsedAead(t.writer, previous).maxOverhead;
      if parsed.Some? && t.offset <= |parsed.value.0.body| && maxOut >= HandshakeHeader.HEADER_LENGTH + 1 + overhead {
        var whole := parsed.value.0;
        var todo := Todo(|whole.body| - t.offset, maxOut, overhead);
        SealEnters(keys, t.writer, previous, maxOut, HANDSHAKE, HandshakeHeader.FragmentBytes(Cut(whole, t.offset, todo)));
      }
    }
  }

  ghost predicate PacketEntered(keys: Keys, w: Writer, r: (Flight, Option<seq<Emission>>)) {
    && Ledger(keys, r.0.writer) && w.sealed <= r.0.writer.sealed
    && (r.1.Some? ==> InLog(r.0.writer, r.1.value))
  }

  lemma {:induction false} SealPacketEnters(keys: Keys, t: Flight, room: nat, acc: seq<Emission>)
    requires t.written <= |t.messages| && Ledger(keys, t.writer) && OneVersion(keys) && GoodKeys(keys)
    requires InLog(t.writer, acc)
    ensures PacketEntered(keys, t.writer, SealPacket(t, room, acc))
    decreases |t.messages| - t.written
  {
    hide SealNextMessage, SealPacket, Ledger, InLog, GoodKeys, OneVersion;
    SealPacketUnfolded(t, room, acc);
    if t.written < |t.messages| {
      SealNextEnters(keys, t, room);
      var (t', p) := SealNextMessage(t, room);
      InLogGrows(t.writer, t'.writer, acc);
      if p.WhollySealed? || p.PartlySealed? {
        InLogSnoc(t'.writer, acc, p.emission);
        if p.WhollySealed? {
          SealPacketEnters(keys, t'.(written := t'.written + 1), room - WireLength(p.emission.sealed), acc + [p.emission]);
        }
      }
    }
  }

  lemma InLogSnoc(w: Writer, es: seq<Emission>, e: Emission)
    requires InLog(w, es) && e.sealed in w.sealed
    ensures InLog(w, es + [e])
  {
  }

  ghost predicate AllInLog(w: Writer, packets: seq<seq<Emission>>) {
    forall k :: 0 <= k < |packets| ==> InLog(w, packets[k])
  }

  lemma {:induction false} SendLoopEnters(keys: Keys, t: Flight, mtu: nat, writes: seq<int>)
    requires t.written <= |t.messages| && Ledger(keys, t.writer) && OneVersion(keys) && GoodKeys(keys)
    ensures var r := SendLoop(t, mtu, writes);
            Ledger(keys, r.flight.writer) && t.writer.sealed <= r.flight.writer.sealed && AllInLog(r.flight.writer, r.packets)
    decreases |writes|
  {
    hide SealPacket, Ledger, InLog, GoodKeys, OneVersion;
    if t.written < |t.messages| {
      assert InLog(t.writer, []) by { NothingInLog(t.writer); }
      SealPacketEnters(keys, t, mtu, []);
      var (t', packet) := SealPacket(t, mtu, []);
      if packet.Some? && NextWrite(writes) > 0 {
        SendLoopEnters(keys, t', mtu, LaterWrites(writes));
        InLogGrows(t'.writer, SendLoop(t', mtu, LaterWrites(writes)).flight.writer, packet.value);
      }
    }
  }

  lemma NothingInLog(w: Writer)
    ensures InLog(w, [])
  {
  }

  // Over whole runs.

  /** The window stands for a set of numbers. */
  ghost predicate Meaningful(window: ReplayWindow.Window) {
    exists recorded :: ReplayWindow.Represents(window, recorded)
  }

  ghost predicate NetworkInLog(w: World) {
    forall p :: p in w.network ==> InLog(w.tx.writer, p)
  }

  ghost predicate Orderly(keys: Keys, w: World) {
    Ledger(keys, w.tx.writer) && NetworkInLog(w) && Meaningful(w.rx.window)
  }

  lemma FirstOrderly(keys: Keys)
    requires GoodKeys(keys)
    ensures Orderly(keys, First(keys))
  {
    assert Sound(keys(0));
    assert ReplayWindow.Represents(ReplayWindow.EMPTY, {});
  }

  lemma SendOrderly(keys: Keys, w: World, t: Flight, mtu: nat, writes: seq<int>)
    requires Orderly(keys, w) && OneVersion(keys) && GoodKeys(keys)
    requires t.written <= |t.messages| && t.writer == w.tx.writer
    ensures Orderly(keys, Send(w, t, mtu, writes))
  {
    SendLoopEnters(keys, t, mtu, writes);
    var r := SendLoop(t, mtu, writes);
    hide SendLoop, Ledger, InLog, Meaningful, GoodKeys, OneVersion;
    forall p | p in Send(w, t, mtu, writes).network
      ensures InLog(r.flight.writer, p)
    {
      if p in w.network {
        InLogGrows(t.writer, r.flight.writer, p);
      }
    }
  }

  lemma OpenMeaningful(epoch: nat, window: ReplayWindow.Window, aead: Aead, input: seq<Byte>)
    requires Meaningful(window)
    ensures Meaningful(OpenRecord(epoch, window, aead, input).window)
  {
    var recorded :| ReplayWindow.Represents(window, recorded);
    hide ReplayWindow.Record, ReplayWindow.Represents, ParseRecord, Epoch, Value, VersionOk;
    var res := OpenRecord(epoch, window, aead, input);
    if res.window != window {
      var s := ParseRecord(input).value.0.sequence;
      ReplayWindow.RecordMeaning(window, recorded, Value(s));
    }
  }

  lemma StepOrderly(keys: Keys, w: World, step: DtlsProtocol.Step)
    requires GoodKeys(keys) && OneVersion(keys) && InRange(w) && Orderly(keys, w)
    ensures Orderly(keys, Next(keys, w, step))
  {
    hide Ledger, InLog, Meaningful, GoodKeys, OneVersion;
    match step
    case Flush(mtu, writes) =>
      SendOrderly(keys, w, w.tx.(complete := true), mtu, writes);
    case Retransmit(mtu, writes) =>
      SendOrderly(keys, w, w.tx.(written := 0, offset := 0), mtu, writes);
    case ChangeWriteCipher =>
      ChangeOrderly(keys, w.tx.writer);
      var writer := NextWriteState(w.tx.writer, keys((w.tx.writer.epoch + 1) % EPOCHS));
      forall p | p in w.network ensures InLog(writer, p) {
        InLogGrows(w.tx.writer, writer, p);
      }
    case Open(maxLen) =>
      OpenMeaningful(w.rx.epoch, w.rx.window, keys(w.rx.epoch), w.buffer);
      hide OpenRecord;
    case ChangeReadCipher =>
      assert Meaningful(ReplayWindow.EMPTY) by { EmptyMeaningful(); }
      hide HasUnprocessedData;
    case _ =>
  }

  lemma EmptyMeaningful()
    ensures Meaningful(ReplayWindow.EMPTY)
  {
    assert ReplayWindow.Represents(ReplayWindow.EMPTY, {});
  }

  lemma ChangeOrderly(keys: Keys, w: Writer)
    requires Ledger(keys, w) && GoodKeys(keys)
    ensures Ledger(keys, NextWriteState(w, keys((w.epoch + 1) % EPOCHS)))
  {
    assert Sound(keys((w.epoch + 1) % EPOCHS));
    NextWriteStateKeepsFresh(w, keys((w.epoch + 1) % EPOCHS));
    hide Fresh, Entered, Sound;
  }

  lemma {:induction false} RunOrderly(keys: Keys, steps: seq<DtlsProtocol.Step>)
    requires GoodKeys(keys) && OneVersion(keys)
    ensures Orderly(keys, DtlsProtocol.Run(keys, steps))
  {
    hide Orderly, GoodKeys, OneVersion, Next, First;
    if |steps| == 0 {
      FirstOrderly(keys);
    } else {
      var front := steps[..|steps| - 1];
      RunOrderly(keys, front);
      StepOrderly(keys, DtlsProtocol.Run(keys, front), steps[|steps| - 1]);
    }
  }
}
