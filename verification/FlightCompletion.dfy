/** A flight does get written: with room for a fragment in every packet, numbers left to seal with, and a transport that
    takes packets, the loop over its messages comes to its end. */
module FlightCompletion {
  import opened Bytes
  import opened HandshakeHeader
  import opened DtlsRecord
  import opened DtlsSeal
  import opened DtlsFlight
  import opened FlightProofs

  /** Octets and messages from the i-th on; a message counts besides its octets, so that an empty one counts too. */
  function LeftFrom(messages: seq<Outgoing>, i: nat): (n: nat)
    requires i <= |messages|
    ensures i < |messages| ==> n > BodyLength(messages[i])
    decreases |messages| - i
  {
    if i == |messages| then 0 else BodyLength(messages[i]) + 1 + LeftFrom(messages, i + 1)
  }

  /** How much of the flight is left. */
  function Left(t: Flight): nat
    requires PositionOk(t.messages, t.written, t.offset)
  {
    LeftFrom(t.messages, t.written) - t.offset
  }

  /** The overhead of either cipher leaves room for a record with at least one octet of a message, and a packet is no longer
      than a record may be. */
  predicate Roomy(w: Writer, mtu: nat) {
    && RECORD_HEADER_LENGTH + HEADER_LENGTH + 1 + w.cur.maxOverhead <= mtu
    && RECORD_HEADER_LENGTH + HEADER_LENGTH + 1 + w.prev.maxOverhead <= mtu
    && mtu < RECORD_HEADER_LENGTH + 0x1_0000
  }

  /** Every message left was queued in this epoch or the one before, for which there still are ciphers. */
  predicate EpochsKept(t: Flight)
    requires t.written <= |t.messages|
  {
    forall i :: t.written <= i < |t.messages| ==>
      t.messages[i].epoch == t.writer.epoch || t.messages[i].epoch + 1 == t.writer.epoch
  }

  /** Neither counter wraps before the flight is out. */
  predicate NumbersLeft(w: Writer, left: nat) {
    w.number + left < NUMBERS && w.lastNumber + left < NUMBERS
  }

  ghost predicate Sendable(t: Flight) {
    WellFormed(t) && EpochsKept(t) && NumbersLeft(t.writer, Left(t))
  }

  /** Sealing succeeds if the record fits and the counter does not wrap, and uses up one number. */
  lemma SealSucceeds(w: Writer, previous: bool, maxOut: nat, contentType: Byte, plain: seq<Byte>)
    requires (previous ==> w.epoch >= 1) && Sound(UsedAead(w, previous))
    requires RECORD_HEADER_LENGTH + |plain| + UsedAead(w, previous).maxOverhead <= maxOut < RECORD_HEADER_LENGTH + 0x1_0000
    requires NumbersLeft(w, 1)
    ensures var (w', s) := SealRecord(w, previous, maxOut, contentType, plain);
            && s.Some? && s.value.number == UsedNumber(w, previous)
            && w'.number == (if previous then w.number else w.number + 1)
            && w'.lastNumber == (if previous then w.lastNumber + 1 else w.lastNumber)
  {
    var payload := UsedAead(w, previous).seal(contentType, w.cur.recordVersion,
                                              Sequence(UsedEpoch(w, previous), UsedNumber(w, previous)), plain);
    assert |payload| <= |plain| + UsedAead(w, previous).maxOverhead;
    assert (UsedNumber(w, previous) + 1) % NUMBERS == UsedNumber(w, previous) + 1 by {
      SmallNumber(UsedNumber(w, previous) + 1);
    }
  }

  lemma SmallNumber(n: nat)
    requires n < NUMBERS
    ensures n % NUMBERS == n
  {
  }

  /** The flight after the next piece: less is left, and no more numbers are used up than is left less. */
  ghost predicate Nearer(t: Flight, t': Flight) {
    Sendable(t) && Sendable(t') && Left(t') < Left(t) && t'.messages == t.messages && SameCiphers(t'.writer, t.writer)
  }

  lemma NextIsNearer(t: Flight, t': Flight, previous: bool)
    requires Sendable(t) && WellFormed(t') && t'.messages == t.messages && t'.written >= t.written
    requires Left(t') < Left(t) && SameCiphers(t'.writer, t.writer)
    requires t'.writer.number == (if previous then t.writer.number else t.writer.number + 1)
    requires t'.writer.lastNumber == (if previous then t.writer.lastNumber + 1 else t.writer.lastNumber)
    ensures Nearer(t, t')
  {
    hide WellFormed, Left;
  }

  /** The next message is sealed unless there is no room for any of it, which a whole packet always has. */
  lemma SealNextSucceeds(t: Flight, maxOut: nat)
    requires Sendable(t) && t.written < |t.messages| && maxOut < RECORD_HEADER_LENGTH + 0x1_0000
    ensures var (t', p) := SealNextMessage(t, maxOut);
            && !p.SealError?
            && (Roomy(t.writer, maxOut) ==> !p.NoProgress?)
            && (p.PartlySealed? ==> Nearer(t, t'))
            && (p.WhollySealed? ==> Nearer(t, t'.(written := t'.written + 1)))
  {
    hide FragmentBytes, ParseFragment, IsRaw, SealRecord, Sound, Sendable;
    var msg := t.messages[t.written];
    var previous := UsesPrevious(t, msg);
    Unfolded(t, previous);
    SealNextFollows(t, maxOut);
    var overhead := RECORD_HEADER_LENGTH + UsedAead(t.writer, previous).maxOverhead;
    var (t', p) := SealNextMessage(t, maxOut);
    if msg.isCcs {
      if maxOut >= 1 + overhead {
        SealSucceeds(t.writer, previous, maxOut, CHANGE_CIPHER_SPEC, CCS_BODY);
      }
    } else {
      var whole := Whole(msg);
      if maxOut >= HEADER_LENGTH + 1 + overhead {
        var todo := Todo(|whole.body| - t.offset, maxOut, overhead);
        SealSucceeds(t.writer, previous, maxOut, HANDSHAKE, FragmentBytes(Cut(whole, t.offset, todo)));
      }
    }
    if p.PartlySealed? {
      assert p.emission.len > 0;
      NextIsNearer(t, t', previous);
    } else if p.WhollySealed? {
      NextIsNearer(t, t'.(written := t'.written + 1), previous);
    }
  }

  /** Nothing is sealed exactly if there is no room for a record with one octet of the message, and a message is cut only
      where the room ends. */
  lemma CutsWhereRoomEnds(t: Flight, maxOut: nat)
    requires Sendable(t) && t.written < |t.messages| && maxOut < RECORD_HEADER_LENGTH + 0x1_0000
    ensures var msg, p := t.messages[t.written], SealNextMessage(t, maxOut).1;
            var overhead := RECORD_HEADER_LENGTH + UsedAead(t.writer, UsesPrevious(t, msg)).maxOverhead;
            && (p.NoProgress? <==> maxOut < 1 + overhead + if msg.isCcs then 0 else HEADER_LENGTH)
            && (p.PartlySealed? ==> !msg.isCcs && p.emission.len + HEADER_LENGTH + overhead == maxOut)
  {
    hide FragmentBytes, ParseFragment, IsRaw, SealRecord, Sound, Sendable;
    var msg := t.messages[t.written];
    Unfolded(t, UsesPrevious(t, msg));
    SealNextSucceeds(t, maxOut);
    if !msg.isCcs {
      var whole := Whole(msg);
    }
  }

  lemma Unfolded(t: Flight, previous: bool)
    requires Sendable(t)
    ensures WellFormed(t) && EpochsKept(t) && NumbersLeft(t.writer, Left(t)) && Sound(UsedAead(t.writer, previous))
    ensures UsedAead(t.writer, previous).nonceLen <= UsedAead(t.writer, previous).maxOverhead
  {
    hide Left, EpochsKept;
  }

  // Packets.

  ghost predicate Packs(t: Flight, r: (Flight, Option<seq<Emission>>)) {
    r.1.Some? && (r.0 == t || Nearer(t, r.0))
  }

  lemma NearerTwice(t: Flight, t': Flight, r: (Flight, Option<seq<Emission>>))
    requires Nearer(t, t') && Packs(t', r)
    ensures Nearer(t, r.0) && Packs(t, r)
  {
    hide Sendable;
  }

  /** Once something is in the packet, packing goes on to an end. */
  lemma {:induction false} PackingEnds(t: Flight, room: nat, acc: seq<Emission>)
    requires Sendable(t) && t.written <= |t.messages| && |acc| > 0 && room < RECORD_HEADER_LENGTH + 0x1_0000
    ensures Packs(t, SealPacket(t, room, acc))
    decreases |t.messages| - t.written
  {
    hide SealNextMessage, SealPacket, Sendable;
    SealPacketUnfolded(t, room, acc);
    if t.written < |t.messages| {
      SealNextSucceeds(t, room);
      var (t', p) := SealNextMessage(t, room);
      if p.WhollySealed? {
        var t'' := t'.(written := t'.written + 1);
        PackingEnds(t'', room - WireLength(p.emission.sealed), acc + [p.emission]);
        NearerTwice(t, t'', SealPacket(t, room, acc));
      }
    }
  }

  /** A packet with room for a fragment carries the flight on. */
  lemma PacketSucceeds(t: Flight, mtu: nat)
    requires Sendable(t) && t.written < |t.messages| && Roomy(t.writer, mtu)
    ensures SealPacket(t, mtu, []).1.Some? && Nearer(t, SealPacket(t, mtu, []).0)
  {
    hide SealNextMessage, SealPacket, Sendable;
    SealPacketUnfolded(t, mtu, []);
    SealNextSucceeds(t, mtu);
    var (t', p) := SealNextMessage(t, mtu);
    if p.WhollySealed? {
      var t'' := t'.(written := t'.written + 1);
      PackingEnds(t'', mtu - WireLength(p.emission.sealed), [] + [p.emission]);
      NearerTwice(t, t'', SealPacket(t, mtu, []));
    }
  }

  // The whole flight.

  /** The transport takes the next n packets. */
  predicate Accepting(writes: seq<int>, n: nat) {
    n <= |writes| && forall k :: 0 <= k < n ==> writes[k] > 0
  }

  /** With a transport that takes as many packets as there are octets and messages left, the flight is written to its end. */
  lemma {:induction false} FlightCompletes(t: Flight, mtu: nat, writes: seq<int>)
    requires Sendable(t) && Roomy(t.writer, mtu) && t.written <= |t.messages| && Accepting(writes, Left(t))
    ensures SendLoop(t, mtu, writes).outcome.Done?
    decreases Left(t)
  {
    hide SealPacket, Left;
    if t.written < |t.messages| {
      PacketSucceeds(t, mtu);
      hide Sendable;
      FlightCompletes(SealPacket(t, mtu, []).0, mtu, LaterWrites(writes));
    }
  }

  /** A transport that refuses stops the loop at once, and the flight stays where it was. */
  lemma RefusedAtOnce(t: Flight, mtu: nat, writes: seq<int>)
    requires Sendable(t) && Roomy(t.writer, mtu) && t.written < |t.messages| && NextWrite(writes) <= 0
    ensures var r := SendLoop(t, mtu, writes);
            && r.outcome == WriteFailed(NextWrite(writes)) && r.packets == []
            && r.flight.written == t.written && r.flight.offset == t.offset
  {
    PacketSucceeds(t, mtu);
    hide SealPacket, Sendable;
  }
}
