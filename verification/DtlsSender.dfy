/** The sending side of a DTLS connection during the handshake, updated in place, and the datagram transport under it. */
module DtlsSender {
  import opened Bytes
  import opened HandshakeHeader
  import opened DtlsRecord
  import opened DtlsSeal
  import opened DtlsFlight
  import opened FlightProofs

  /** The octets of a packet. */
  ghost function PacketBytes(es: seq<Emission>): (s: seq<Byte>)
    requires Wireable(es)
  {
    if |es| == 0 then []
    else PacketBytes(es[..|es| - 1]) + RecordBytes(WireRecord(es[|es| - 1].sealed))
  }

  ghost predicate Wireable(es: seq<Emission>) {
    forall k :: 0 <= k < |es| ==> FitsWire(WireRecord(es[k].sealed))
  }

  ghost predicate AllWireable(packets: seq<seq<Emission>>) {
    forall k :: 0 <= k < |packets| ==> Wireable(packets[k])
  }

  ghost function PacketsBytes(packets: seq<seq<Emission>>): (s: seq<seq<Byte>>)
    requires AllWireable(packets)
    ensures |s| == |packets|
  {
    if |packets| == 0 then [] else [PacketBytes(packets[0])] + PacketsBytes(packets[1..])
  }

  /** A datagram transport that answers writes from a script and blocks once the script has run out. */
  class Transport {
    var writes: seq<int>
    var packets: seq<seq<Byte>>

    constructor (script: seq<int>)
      ensures writes == script && packets == []
    {
      writes, packets := script, [];
    }

    method Write(packet: seq<Byte>) returns (ret: int)
      modifies this
      ensures ret == NextWrite(old(writes)) && writes == LaterWrites(old(writes))
      ensures packets == old(packets) + if ret > 0 then [packet] else []
    {
      if |writes| == 0 {
        return -1;
      }
      ret := writes[0];
      writes := writes[1..];
      if ret > 0 {
        packets := packets + [packet];
      }
    }
  }

  class WriteState {
    var messages: seq<Outgoing>
    var written: nat
    var offset: nat
    var complete: bool
    var writeSeq: nat
    var epoch: nat
    var number: nat
    var lastNumber: nat
    var aead: Aead
    var lastAead: Aead
    // Every record sealed, and whether a counter has wrapped.
    ghost var sealed: seq<Sealed>
    ghost var exhausted: bool

    ghost function Writer(): DtlsSeal.Writer
      reads this
    {
      DtlsSeal.Writer(epoch, number, lastNumber, aead, lastAead, sealed, exhausted)
    }

    ghost function View(): Flight
      reads this
    {
      Flight(messages, written, offset, complete, writeSeq, Writer())
    }

    constructor (nullCipher: Aead)
      ensures View() == Flight([], 0, 0, false, 0, FirstWriter(nullCipher))
    {
      messages, written, offset, complete, writeSeq := [], 0, 0, false, 0;
      epoch, number, lastNumber, aead, lastAead := 0, 0, 0, nullCipher, nullCipher;
      sealed, exhausted := [], false;
    }

    method ClearOutgoing()
      modifies this
      ensures View() == Cleared(old(View()))
    {
      messages, written, offset, complete := [], 0, 0, false;
    }

    method Add(isCcs: bool, data: seq<Byte>) returns (ok: bool)
      modifies this
      ensures ok == AddOutgoing(old(View()), isCcs, data).Some?
      ensures ok ==> View() == AddOutgoing(old(View()), isCcs, data).value
    {
      if complete {
        ClearOutgoing();
      }
      if |messages| >= MAX_FLIGHT || |data| > 0xffff_ffff {
        return false;
      }
      if !isCcs {
        writeSeq := (writeSeq + 1) % 0x1_0000;
      }
      messages := messages + [Outgoing(data, epoch, isCcs)];
      return true;
    }

    method SetWriteState(newAead: Aead)
      modifies this
      ensures View() == old(View()).(writer := NextWriteState(old(Writer()), newAead))
    {
      epoch := (epoch + 1) % EPOCHS;
      lastNumber, number := number, 0;
      lastAead, aead := aead, newAead;
      exhausted := exhausted || epoch == 0;
    }

    method Seal(previous: bool, maxOut: nat, contentType: Byte, plain: seq<Byte>)
      returns (out: Option<seq<Byte>>, ghost result: Option<Sealed>)
      requires previous ==> epoch >= 1
      requires aead.recordVersion < 0x1_0000
      modifies this`number, this`lastNumber, this`sealed, this`exhausted
      ensures (Writer(), result) == SealRecord(old(Writer()), previous, maxOut, contentType, plain)
      ensures out.Some? <==> result.Some?
      ensures out.Some? ==>
                FitsWire(WireRecord(result.value)) && out.value == RecordBytes(WireRecord(result.value))
                && |out.value| == WireLength(result.value)
    {
      result := None;
      if maxOut < RECORD_HEADER_LENGTH {
        return None, None;
      }
      var usedEpoch, cipher, seqNum := epoch, aead, number;
      if previous {
        usedEpoch, cipher, seqNum := epoch - 1, lastAead, lastNumber;
      }
      var version := aead.recordVersion;
      var sequence := Sequence(usedEpoch, seqNum);
      var payload := cipher.seal(contentType, version, sequence, plain);
      if |payload| > maxOut - RECORD_HEADER_LENGTH {
        return None, None;
      }
      var next := (seqNum + 1) % NUMBERS;
      if previous {
        lastNumber := next;
      } else {
        number := next;
      }
      exhausted := exhausted || next == 0;
      if next == 0 || |payload| >= 0x1_0000 {
        return None, None;
      }
      result := Some(Sealed(usedEpoch, seqNum, contentType, version, plain, payload));
      sealed := sealed + [result.value];
      out := Some([contentType] + BigEndian(version, 2) + sequence + BigEndian(|payload|, 2) + payload);
    }

    /** Seals the next message, or as much of it as fits into maxOut octets. */
    method SealNext(maxOut: nat) returns (kind: SealKind, out: seq<Byte>, ghost progress: Progress)
      requires written < |messages| && aead.recordVersion < 0x1_0000
      modifies this`offset, this`number, this`lastNumber, this`sealed, this`exhausted
      ensures (View(), progress) == SealNextMessage(old(View()), maxOut)
      ensures kind == KindOf(progress)
      ensures kind.Partly? || kind.Wholly? ==>
                FitsWire(WireRecord(progress.emission.sealed))
                && out == RecordBytes(WireRecord(progress.emission.sealed))
                && |out| == WireLength(progress.emission.sealed) <= maxOut
    {
      hide SealRecord, RecordBytes, WireRecord, FragmentBytes, FitsWire, ParseFragment;
      out := [];
      var msg := messages[written];
      var previous := false;
      if epoch >= 1 && msg.epoch == epoch - 1 {
        previous := true;
      } else if msg.epoch != epoch {
        return Failed, [], SealError;
      }
      var cipher := if previous then lastAead else aead;
      var overhead := RECORD_HEADER_LENGTH + cipher.maxOverhead;
      var record;
      ghost var s;
      if msg.isCcs {
        if maxOut < 1 + overhead {
          return Stuck, [], NoProgress;
        }
        record, s := Seal(previous, maxOut, CHANGE_CIPHER_SPEC, CCS_BODY);
        if record.None? {
          return Failed, [], SealError;
        }
        return Wholly, record.value, WhollySealed(Emission(s.value, written, offset, 0));
      }
      var parsed := ParseFragment(msg.data);
      if parsed.None? {
        return Failed, [], SealError;
      }
      var (whole, rest) := parsed.value;
      if whole.hdr.fragOff != 0 || whole.hdr.msgLen != |whole.body| || offset > |whole.body| || |rest| != 0 {
        return Failed, [], SealError;
      }
      if maxOut < HEADER_LENGTH + 1 + overhead || maxOut < RECORD_HEADER_LENGTH + cipher.nonceLen {
        return Stuck, [], NoProgress;
      }
      var remaining := |whole.body| - offset;
      var todo := remaining;
      if todo > maxOut - HEADER_LENGTH - overhead {
        todo := maxOut - HEADER_LENGTH - overhead;
      }
      record, s := Seal(previous, maxOut, HANDSHAKE, FragmentBytes(Cut(whole, offset, todo)));
      if record.None? {
        return Failed, [], SealError;
      }
      ghost var e := Emission(s.value, written, offset, todo);
      if todo == remaining {
        offset := 0;
        return Wholly, record.value, WhollySealed(e);
      }
      offset := offset + todo;
      return Partly, record.value, PartlySealed(e);
    }

    /** Fills one packet. */
    method SealNextPacket(mtu: nat) returns (out: Option<seq<Byte>>, ghost packet: Option<seq<Emission>>)
      requires written < |messages| && aead.recordVersion < 0x1_0000
      modifies this`written, this`offset, this`number, this`lastNumber, this`sealed, this`exhausted
      ensures (View(), packet) == SealPacket(old(View()), mtu, [])
      ensures out.Some? <==> packet.Some?
      ensures out.Some? ==> Wireable(packet.value) && out.value == PacketBytes(packet.value)
    {
      hide SealNextMessage, RecordBytes, WireRecord;
      var madeProgress, total, maxOut := false, [], mtu;
      ghost var acc := [];
      while written < |messages|
        invariant written <= |messages| && maxOut >= 0
        invariant SealPacket(View(), maxOut, acc) == SealPacket(old(View()), mtu, [])
        invariant Wireable(acc) && total == PacketBytes(acc)
        invariant madeProgress <==> |acc| > 0
        decreases |messages| - written
      {
        var kind, record;
        ghost var progress;
        kind, record, progress := SealNext(maxOut);
        if kind == Failed {
          return None, None;
        }
        if kind == Stuck {
          break;
        }
        ghost var e := progress.emission;
        assert (acc + [e])[..|acc|] == acc;
        maxOut := maxOut - |record|;
        total := total + record;
        acc := acc + [e];
        madeProgress := true;
        if kind == Partly {
          return Some(total), Some(acc);
        }
        written := written + 1;
      }
      if !madeProgress {
        return None, None;
      }
      return Some(total), Some(acc);
    }

    /** Seals a packet and writes it; a packet the transport refuses is rewound. */
    method SendPacket(transport: Transport, mtu: nat) returns (outcome: Option<Outcome>, ghost packet: seq<Emission>)
      requires WellFormed(View()) && written < |messages|
      modifies this`written, this`offset, this`number, this`lastNumber, this`sealed, this`exhausted, transport
      ensures outcome.Some? ==>
                && SendResult(View(), [], transport.writes, outcome.value) == SendLoop(old(View()), mtu, old(transport.writes))
                && transport.packets == old(transport.packets)
      ensures outcome.None? ==>
                && WellFormed(View())
                && SendLoop(old(View()), mtu, old(transport.writes))
                   == Prefixed([packet], SendLoop(View(), mtu, transport.writes))
                && Wireable(packet)
                && transport.packets == old(transport.packets) + [PacketBytes(packet)]
                && Before(Pos(old(written), old(offset)), Pos(written, offset))
    {
      PacketAdvances(View(), mtu);
      assert aead.recordVersion < 0x1_0000;
      hide SealPacket, WellFormed, Wireable, PacketBytes, NextWrite, LaterWrites;
      var oldWritten, oldOffset := written, offset;
      var bytes;
      ghost var es;
      bytes, es := SealNextPacket(mtu);
      if bytes.None? {
        return Some(SealFailed), [];
      }
      var ret := transport.Write(bytes.value);
      if ret <= 0 {
        written, offset := oldWritten, oldOffset;
        return Some(WriteFailed(ret)), [];
      }
      return None, es.value;
    }

    /** Writes packets until the flight is out, the transport refuses one, or a seal fails. */
    method SendFlight(transport: Transport, mtu: nat) returns (outcome: Outcome, ghost sent: seq<seq<Emission>>)
      requires WellFormed(View())
      modifies this`written, this`offset, this`number, this`lastNumber, this`sealed, this`exhausted, transport
      ensures SendResult(View(), sent, transport.writes, outcome) == SendLoop(old(View()), mtu, old(transport.writes))
      ensures Logged(old(transport.packets), sent, transport.packets)
    {
      ghost var whole, log := SendLoop(View(), mtu, transport.writes), transport.packets;
      sent := [];
      WellFormedPosition(View());
      hide WellFormed, Wireable, AllWireable, PacketBytes, PacketsBytes, SendLoop, NextWrite, LaterWrites, Prefixed;
      NothingSent(whole, log);
      while written < |messages|
        invariant WellFormed(View()) && PositionOk(messages, written, offset)
        invariant Logged(log, sent, transport.packets)
        invariant whole == Prefixed(sent, SendLoop(View(), mtu, transport.writes))
        decreases |messages| - written, if written < |messages| then BodyLength(messages[written]) - offset else 0
      {
        ghost var packet;
        var result;
        result, packet := SendPacket(transport, mtu);
        if result.Some? {
          return result.value, sent;
        }
        LogSnoc(log, sent, packet);
        PrefixedTwice(sent, packet, SendLoop(View(), mtu, transport.writes));
        sent := sent + [packet];
        WellFormedPosition(View());
      }
      SendLoopAtEnd(View(), mtu, transport.writes);
      return Done, sent;
    }

    method FlushFlight(transport: Transport, mtu: nat) returns (outcome: Outcome, ghost sent: seq<seq<Emission>>)
      requires WellFormed(View())
      modifies this, transport
      ensures SendResult(View(), sent, transport.writes, outcome)
              == SendLoop(old(View()).(complete := true), mtu, old(transport.writes))
      ensures Logged(old(transport.packets), sent, transport.packets)
    {
      complete := true;
      outcome, sent := SendFlight(transport, mtu);
    }

    /** Goes back to the start of the flight and sends it again. */
    method Retransmit(transport: Transport, mtu: nat) returns (outcome: Outcome, ghost sent: seq<seq<Emission>>)
      requires WellFormed(View())
      modifies this, transport
      ensures SendResult(View(), sent, transport.writes, outcome)
              == SendLoop(old(View()).(written := 0, offset := 0), mtu, old(transport.writes))
      ensures Logged(old(transport.packets), sent, transport.packets)
    {
      written, offset := 0, 0;
      outcome, sent := SendFlight(transport, mtu);
    }
  }

  lemma WellFormedPosition(t: Flight)
    requires WellFormed(t)
    ensures PositionOk(t.messages, t.written, t.offset)
  {
  }

  /** A result with packets that were written earlier put in front. */
  ghost function Prefixed(sent: seq<seq<Emission>>, r: SendResult): SendResult {
    r.(packets := sent + r.packets)
  }

  /** The packets sent have been added to the transport's log. */
  ghost predicate Logged(before: seq<seq<Byte>>, sent: seq<seq<Emission>>, after: seq<seq<Byte>>) {
    AllWireable(sent) && after == before + PacketsBytes(sent)
  }

  lemma LogSnoc(before: seq<seq<Byte>>, sent: seq<seq<Emission>>, p: seq<Emission>)
    requires AllWireable(sent) && Wireable(p)
    ensures Logged(before, sent + [p], before + PacketsBytes(sent) + [PacketBytes(p)])
  {
    PacketsBytesSnoc(sent, p);
  }

  lemma NothingSent(r: SendResult, log: seq<seq<Byte>>)
    ensures Prefixed([], r) == r && Logged(log, [], log)
  {
  }

  lemma SendLoopAtEnd(t: Flight, mtu: nat, writes: seq<int>)
    requires t.written == |t.messages|
    ensures SendLoop(t, mtu, writes) == SendResult(t, [], writes, Done)
    ensures forall sent :: Prefixed(sent, SendLoop(t, mtu, writes)) == SendResult(t, sent, writes, Done)
  {
    assert forall sent: seq<seq<Emission>> :: sent + [] == sent;
  }

  lemma PrefixedTwice(sent: seq<seq<Emission>>, p: seq<Emission>, r: SendResult)
    ensures Prefixed(sent, Prefixed([p], r)) == Prefixed(sent + [p], r)
  {
    assert sent + ([p] + r.packets) == (sent + [p]) + r.packets;
  }

  lemma PacketsBytesSnoc(packets: seq<seq<Emission>>, p: seq<Emission>)
    requires Wireable(p) && AllWireable(packets)
    ensures AllWireable(packets + [p])
    ensures PacketsBytes(packets + [p]) == PacketsBytes(packets) + [PacketBytes(p)]
  {
    hide Wireable, PacketBytes;
    if |packets| > 0 {
      PacketsBytesSnoc(packets[1..], p);
      assert (packets + [p])[1..] == packets[1..] + [p];
    } else {
      assert packets + [p] == [p];
    }
  }

  datatype SealKind = Failed | Stuck | Partly | Wholly

  ghost function KindOf(p: Progress): SealKind {
    match p
    case SealError => Failed
    case NoProgress => Stuck
    case PartlySealed(_) => Partly
    case WhollySealed(_) => Wholly
  }
}
