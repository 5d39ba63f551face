/** The outgoing handshake flight (RFC 6347 sections 4.2.3 and 4.2.4): messages are cut into fragments that fit the MTU,
    packed into packets, and written out; a packet that could not be written is rewound. */
module DtlsFlight {
  import opened Bytes
  import opened HandshakeHeader
  import opened DtlsRecord
  import opened DtlsSeal

  const MAX_FLIGHT: nat := 7

  /** A queued message, or a ChangeCipherSpec, with the epoch it was queued under. */
  datatype Outgoing = Outgoing(data: seq<Byte>, epoch: nat, isCcs: bool)

  datatype Flight = Flight(
    messages: seq<Outgoing>, written: nat, offset: nat, complete: bool, writeSeq: nat, writer: Writer)

  /** A sealed record of the flight: octets [off, off + len) of the body of message index. */
  datatype Emission = Emission(sealed: Sealed, index: nat, off: nat, len: nat)

  // Queueing.

  function Cleared(t: Flight): Flight {
    t.(messages := [], written := 0, offset := 0, complete := false)
  }

  /** Adds a message to the flight, starting a new flight if the current one has been flushed; None when it is full. */
  function AddOutgoing(t: Flight, isCcs: bool, data: seq<Byte>): (r: Option<Flight>)
  {
    var t' := if t.complete then Cleared(t) else t;
    if |t'.messages| >= MAX_FLIGHT || |data| > 0xffff_ffff then None
    else Some(t'.(
                messages := t'.messages + [Outgoing(data, t'.writer.epoch, isCcs)],
                writeSeq := if isCcs then t'.writeSeq else (t'.writeSeq + 1) % 0x1_0000))
  }

  /** A message is refused only if seven are queued already and none has been flushed, or if it is far too long. After a
      flight that was flushed, it starts a new one from its beginning; else it goes behind the others, and what has been
      written stays written. */
  lemma AddMeaning(t: Flight, isCcs: bool, data: seq<Byte>)
    ensures AddOutgoing(t, isCcs, data).None? <==> (!t.complete && |t.messages| >= 7) || |data| >= 0x1_0000_0000
    ensures AddOutgoing(t, isCcs, data).Some? ==>
              var t' := AddOutgoing(t, isCcs, data).value;
              && !t'.complete && t'.writer == t.writer
              && t'.messages[|t'.messages| - 1] == Outgoing(data, t.writer.epoch, isCcs)
              && (if t.complete then |t'.messages| == 1 && t'.written == 0 && t'.offset == 0
                  else t'.messages[..|t.messages|] == t.messages && |t'.messages| == |t.messages| + 1
                       && t'.written == t.written && t'.offset == t.offset)
              && t'.writeSeq == if isCcs then t.writeSeq else (t.writeSeq + 1) % 0x1_0000
  {
  }

  // Well-formed flights.

  ghost predicate IsRaw(data: seq<Byte>) {
    exists msgType: nat, seqNum: nat, body: seq<Byte> :: IsRawOf(data, msgType, seqNum, body)
  }

  ghost predicate IsRawOf(data: seq<Byte>, msgType: nat, seqNum: nat, body: seq<Byte>) {
    msgType < 0x100 && seqNum < 0x1_0000 && |body| < 0x100_0000 && data == RawMessage(msgType, seqNum, body)
  }

  /** The number of body octets of a queued message. */
  function BodyLength(m: Outgoing): nat {
    if m.isCcs || |m.data| < HEADER_LENGTH then 0 else |m.data| - HEADER_LENGTH
  }

  /** Messages are whole, and the write position is inside the flight: strictly inside a body, or at the start of a
      message or at the end of the flight. */
  ghost predicate WellFormed(t: Flight) {
    && t.written <= |t.messages|
    && (forall i :: 0 <= i < |t.messages| && !t.messages[i].isCcs ==> IsRaw(t.messages[i].data))
    && PositionOk(t.messages, t.written, t.offset)
    && Sound(t.writer.cur) && Sound(t.writer.prev)
  }

  predicate PositionOk(messages: seq<Outgoing>, written: nat, offset: nat) {
    && written <= |messages|
    && (offset == 0 || (written < |messages| && offset < BodyLength(messages[written])))
  }

  // Sealing the next message, or as much of it as fits.

  datatype Progress = SealError | NoProgress | PartlySealed(emission: Emission) | WhollySealed(emission: Emission)

  function UsesPrevious(t: Flight, m: Outgoing): bool {
    t.writer.epoch >= 1 && m.epoch == t.writer.epoch - 1
  }

  function Sealing(t: Flight, previous: bool, maxOut: nat, contentType: Byte, plain: seq<Byte>, len: nat)
    : (res: (Flight, Option<Emission>))
    requires previous ==> t.writer.epoch >= 1
    ensures res.1.Some? ==> WireLength(res.1.value.sealed) <= maxOut
    ensures SameCiphers(res.0.writer, t.writer)
  {
    var (w, s) := SealRecord(t.writer, previous, maxOut, contentType, plain);
    (t.(writer := w), if s.None? then None else Some(Emission(s.value, t.written, t.offset, len)))
  }

  /** How much of the body goes into a fragment. */
  function Todo(remaining: nat, maxOut: nat, overhead: nat): (n: nat)
    requires maxOut >= HEADER_LENGTH + 1 + overhead
    ensures n <= remaining && (remaining > 0 ==> n > 0)
  {
    if remaining > maxOut - HEADER_LENGTH - overhead then maxOut - HEADER_LENGTH - overhead else remaining
  }

  /** The fragment of a whole message that starts at offset off. */
  function Cut(whole: Fragment, off: nat, len: nat): (f: Fragment)
    requires off + len <= |whole.body|
  {
    Fragment(Header(whole.hdr.msgType, whole.hdr.msgLen, whole.hdr.seqNum, off, len), whole.body[off..off + len])
  }

  function SealNextMessage(t: Flight, maxOut: nat): (res: (Flight, Progress))
    requires t.written < |t.messages|
    ensures res.0 == t.(offset := res.0.offset, writer := res.0.writer) && SameCiphers(res.0.writer, t.writer)
    ensures res.1.NoProgress? ==> res.0 == t
    ensures res.1.SealError? ==> res.0.offset == t.offset
    ensures res.1.PartlySealed? || res.1.WhollySealed? ==> WireLength(res.1.emission.sealed) <= maxOut
  {
    var msg := t.messages[t.written];
    var previous := UsesPrevious(t, msg);
    if !previous && msg.epoch != t.writer.epoch then (t, SealError)
    else
      var aead := UsedAead(t.writer, previous);
      var overhead := RECORD_HEADER_LENGTH + aead.maxOverhead;
      if msg.isCcs then
        if maxOut < 1 + overhead then (t, NoProgress)
        else
          var (t', e) := Sealing(t, previous, maxOut, CHANGE_CIPHER_SPEC, CCS_BODY, 0);
          (t', if e.None? then SealError else WhollySealed(e.value))
      else
        var parsed := ParseFragment(msg.data);
        if parsed.None? || parsed.value.0.hdr.fragOff != 0 || parsed.value.0.hdr.msgLen != |parsed.value.0.body|
           || t.offset > |parsed.value.0.body| || |parsed.value.1| != 0
        then (t, SealError)
        else if maxOut < HEADER_LENGTH + 1 + overhead || maxOut < RECORD_HEADER_LENGTH + aead.nonceLen then (t, NoProgress)
        else
          var whole := parsed.value.0;
          var remaining := |whole.body| - t.offset;
          var todo := Todo(remaining, maxOut, overhead);
          var (t', e) := Sealing(t, previous, maxOut, HANDSHAKE, FragmentBytes(Cut(whole, t.offset, todo)), todo);
          if e.None? then (t', SealError)
          else if todo == remaining then (t'.(offset := 0), WhollySealed(e.value))
          else (t'.(offset := t.offset + todo), PartlySealed(e.value))
  }

  // Packing a packet.

  function Octets(es: seq<Emission>): (n: nat) {
    if |es| == 0 then 0 else Octets(es[..|es| - 1]) + WireLength(es[|es| - 1].sealed)
  }

  /** The packet so far, if it holds anything. */
  function Finish(acc: seq<Emission>): Option<seq<Emission>> {
    if |acc| == 0 then None else Some(acc)
  }

  /** Seals messages until the packet is full or the flight ends; None when nothing fits or a seal fails. acc is what
      the packet already holds and maxOut the room left. */
  function SealPacket(t: Flight, maxOut: nat, acc: seq<Emission>): (res: (Flight, Option<seq<Emission>>))
    requires t.written <= |t.messages|
    ensures res.0.messages == t.messages && res.0.written <= |t.messages| && res.0.writeSeq == t.writeSeq
    decreases |t.messages| - t.written
  {
    if t.written == |t.messages| then (t, Finish(acc))
    else
      var (t', p) := SealNextMessage(t, maxOut);
      match p
      case SealError => (t', None)
      case NoProgress => (t', Finish(acc))
      case PartlySealed(e) => (t', Some(acc + [e]))
      case WhollySealed(e) =>
        SealPacket(t'.(written := t'.written + 1), maxOut - WireLength(e.sealed), acc + [e])
  }

  // Writing the flight.

  datatype Outcome = Done | WriteFailed(ret: int) | SealFailed

  datatype SendResult = SendResult(flight: Flight, packets: seq<seq<Emission>>, writes: seq<int>, outcome: Outcome)

  /** What the transport answers to the next write; once the script has run out it blocks. */
  function NextWrite(writes: seq<int>): int {
    if |writes| == 0 then -1 else writes[0]
  }

  function LaterWrites(writes: seq<int>): seq<int> {
    if |writes| == 0 then [] else writes[1..]
  }

  /** Writes packet after packet. writes scripts what each transport write returns. */
  function SendLoop(t: Flight, mtu: nat, writes: seq<int>): (r: SendResult)
    requires t.written <= |t.messages|
    ensures r.flight.messages == t.messages && r.flight.writeSeq == t.writeSeq && r.flight.written <= |t.messages|
    decreases |writes|
  {
    if t.written == |t.messages| then SendResult(t, [], writes, Done)
    else
      var (t', packet) := SealPacket(t, mtu, []);
      if packet.None? then SendResult(t', [], writes, SealFailed)
      else if NextWrite(writes) <= 0 then
        SendResult(t'.(written := t.written, offset := t.offset), [], LaterWrites(writes), WriteFailed(NextWrite(writes)))
      else
        var r := SendLoop(t', mtu, LaterWrites(writes));
        r.(packets := [packet.value] + r.packets)
  }
}
