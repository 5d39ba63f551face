/** A sender and a receiver joined by a network that loses, duplicates and reorders packets. Every packet ever written
    stays available to the network; the receiver gets whichever of them the network chooses, as often as it chooses. */
module DtlsProtocol {
  import opened Bytes
  import opened HandshakeHeader
  import opened IncomingMessage
  import opened IncomingRing
  import opened DtlsRecord
  import opened DtlsSeal
  import opened DtlsFlight
  import opened FlightProofs
  import opened DtlsSender
  import opened DtlsReader
  import opened DtlsOpening
  import ReplayWindow

  /** A handshake message as its author sees it. */
  datatype Message = Message(msgType: nat, body: seq<Byte>)

  predicate Buildable(m: Message) {
    m.msgType < 0x100 && |m.body| < 0x100_0000
  }

  /** The octets of the message numbered k. */
  function RawOf(sent: seq<Message>, k: nat): seq<Byte>
    requires k < |sent|
  {
    RawMessage(sent[k].msgType, k, sent[k].body)
  }

  /** How a message is built: a header whose total length is still zero, then the body behind its length; finishing copies
      the fragment length over the total length. */
  function InitMessage(m: Message, writeSeq: nat): (s: seq<Byte>)
    ensures |s| == HEADER_LENGTH + |m.body|
  {
    BigEndian(m.msgType, 1) + BigEndian(0, 3) + BigEndian(writeSeq, 2) + BigEndian(0, 3) + BigEndian(|m.body|, 3) + m.body
  }

  function FinishMessage(s: seq<Byte>): (r: seq<Byte>)
    requires |s| >= HEADER_LENGTH
  {
    s[..1] + s[9..12] + s[4..]
  }

  lemma FinishedIsRaw(m: Message, writeSeq: nat)
    ensures FinishMessage(InitMessage(m, writeSeq)) == RawMessage(m.msgType, writeSeq, m.body)
  {
    var t, z, w, l := BigEndian(m.msgType, 1), BigEndian(0, 3), BigEndian(writeSeq, 2), BigEndian(|m.body|, 3);
    FixUpHeader(t, z, w, l, m.body);
  }

  lemma FixUpHeader(t: seq<Byte>, z: seq<Byte>, w: seq<Byte>, l: seq<Byte>, body: seq<Byte>)
    requires |t| == 1 && |z| == 3 && |w| == 2 && |l| == 3
    ensures FinishMessage(t + z + w + z + l + body) == t + l + w + z + l + body
  {
    var s := t + z + w + z + l + body;
    assert s[..1] == t;
    assert s[9..12] == l;
    assert s[4..] == w + z + l + body;
  }

  datatype World = World(
    sent: seq<Message>,
    tx: Flight,
    network: set<seq<Emission>>,
    buffer: seq<Byte>,
    rx: Reader,
    delivered: seq<seq<Byte>>)

  datatype Step =
    | Add(message: Message)
    | AddCcs
    | Flush(mtu: nat, writes: seq<int>)
    | Retransmit(mtu: nat, writes: seq<int>)
    | ChangeWriteCipher
    | Receive(packet: seq<Emission>)
    | Open(maxLen: nat)
    | TakeCcs
    | Deliver
    | ChangeReadCipher

  /** The ciphers of a connection, one for each epoch, shared by its two ends. */
  type Keys = nat -> Aead

  ghost predicate GoodKeys(keys: Keys) {
    keys(0).isNull && forall e: nat :: Sound(keys(e))
  }

  function AllPackets(packets: seq<seq<Emission>>): set<seq<Emission>> {
    set p | p in packets
  }

  function First(keys: Keys): World {
    World([], Flight([], 0, 0, false, 0, FirstWriter(keys(0))), {}, [], INITIAL, [])
  }

  function Send(w: World, t: Flight, mtu: nat, writes: seq<int>): World
    requires t.written <= |t.messages|
  {
    var r := SendLoop(t, mtu, writes);
    w.(tx := r.flight, network := w.network + AllPackets(r.packets))
  }

  /** The ring and the flight position are in range. */
  predicate InRange(w: World) {
    WellPlaced(w.rx.ring) && w.tx.written <= |w.tx.messages|
  }

  /** What a step does; a step that is not possible leaves the world as it is. */
  ghost function Next(keys: Keys, w: World, step: Step): (w': World)
    requires InRange(w)
    ensures InRange(w')
  {
    match step
    case Add(message) =>
      var added := AddOutgoing(w.tx, false, FinishMessage(InitMessage(message, w.tx.writeSeq)));
      if !Buildable(message) || added.None? then w else w.(sent := w.sent + [message], tx := added.value)
    case AddCcs =>
      var added := AddOutgoing(w.tx, true, []);
      if added.None? then w else w.(tx := added.value)
    case Flush(mtu, writes) => Send(w, w.tx.(complete := true), mtu, writes)
    case Retransmit(mtu, writes) => Send(w, w.tx.(written := 0, offset := 0), mtu, writes)
    case ChangeWriteCipher =>
      w.(tx := w.tx.(writer := NextWriteState(w.tx.writer, keys((w.tx.writer.epoch + 1) % EPOCHS))))
    case Receive(packet) =>
      if packet in w.network && |w.buffer| == 0 && Wireable(packet) then w.(buffer := PacketBytes(packet)) else w
    case Open(maxLen) =>
      var (rx, status, consumed) := OpenHandshake(w.rx, keys(w.rx.epoch), w.buffer, maxLen);
      w.(rx := rx, buffer := w.buffer[consumed..])
    case TakeCcs => w.(rx := w.rx.(hasCcs := false))
    case Deliver =>
      if !CurrentComplete(w.rx.ring) then w
      else w.(delivered := w.delivered + [Raw(Front(w.rx.ring).value)], rx := w.rx.(ring := Advance(w.rx.ring)))
    case ChangeReadCipher => w.(rx := NextEpoch(w.rx).0)
  }

  // What holds throughout.

  /** The fragment of message q that carries octets [off, off + len). */
  function PieceOf(sent: seq<Message>, q: nat, off: nat, len: nat): Fragment
    requires q < |sent| && off + len <= |sent[q].body|
  {
    Fragment(Header(sent[q].msgType, |sent[q].body|, q, off, len), sent[q].body[off..off + len])
  }

  ghost predicate IsPiece(sent: seq<Message>, plain: seq<Byte>) {
    exists q: nat, off: nat, len: nat :: IsPieceAt(sent, plain, q, off, len)
  }

  predicate IsPieceAt(sent: seq<Message>, plain: seq<Byte>, q: nat, off: nat, len: nat) {
    q < |sent| && off + len <= |sent[q].body| && plain == FragmentBytes(PieceOf(sent, q, off, len))
  }

  /** s was sealed with the cipher of its epoch. */
  ghost predicate SealedUnder(keys: Keys, s: Sealed) {
    && s.epoch < EPOCHS
    && FitsWire(WireRecord(s))
    && s.payload == keys(s.epoch).seal(s.contentType, s.version, Sequence(s.epoch, s.number), s.plain)
  }

  /** A record that the sender sealed: a ChangeCipherSpec or a piece of one of its messages. */
  ghost predicate Genuine(keys: Keys, sent: seq<Message>, s: Sealed) {
    && SealedUnder(keys, s)
    && ((s.contentType == CHANGE_CIPHER_SPEC && s.plain == CCS_BODY) || (s.contentType == HANDSHAKE && IsPiece(sent, s.plain)))
  }

  ghost predicate AllGenuine(keys: Keys, sent: seq<Message>, es: seq<Emission>) {
    forall k :: 0 <= k < |es| ==> Genuine(keys, sent, es[k].sealed)
  }

  /** What is known of a message under assembly is what the sender sent. */
  ghost predicate Faithful(sent: seq<Message>, a: Assembly) {
    && a.seqNum < |sent|
    && a.msgType == sent[a.seqNum].msgType
    && |a.body| == |sent[a.seqNum].body|
    && forall i :: 0 <= i < |a.body| && a.body[i].Some? ==> a.body[i].value == sent[a.seqNum].body[i]
  }

  ghost predicate FaithfulRing(sent: seq<Message>, r: Ring) {
    WellPlaced(r) && forall i :: 0 <= i < SLOTS && r.slots[i].Some? ==> Faithful(sent, r.slots[i].value)
  }

  // The receiver: a genuine record can only add true octets.

  lemma FilledIsFaithful(sent: seq<Message>, a: Assembly, off: nat, len: nat)
    requires Faithful(sent, a) && off + len <= |a.body|
    ensures Faithful(sent, Filled(a, off, sent[a.seqNum].body[off..off + len]))
  {
  }

  /** A genuine fragment keeps the ring faithful. It is refused exactly in three cases: its message is too long, it is
      out of turn in the encrypted epoch, or it lies exactly one flight ahead, which the first range check lets through
      and the second does not. */
  lemma AcceptGenuine(sent: seq<Message>, r: Ring, q: nat, off: nat, len: nat, maxLen: nat, epoch: nat)
    requires FaithfulRing(sent, r) && |sent| <= 0x1_0000
    requires q < |sent| && off + len <= |sent[q].body| && Buildable(sent[q])
    ensures var f := PieceOf(sent, q, off, len);
            var (r', alert) := Accept(r, f, maxLen, epoch);
            && Fits(f.hdr)
            && FaithfulRing(sent, r') && r'.readSeq == r.readSeq && r'.hasMessage == r.hasMessage
            && alert == (if |sent[q].body| > maxLen then Some(IllegalParameter)
                         else if epoch == 1 && q != r.readSeq then Some(UnexpectedMessage)
                         else if q == r.readSeq + SLOTS then Some(InternalError)
                         else None)
  {
    var f := PieceOf(sent, q, off, len);
    var h := f.hdr;
    if Bounded(h, maxLen) && !(epoch == 1 && q != r.readSeq) && r.readSeq <= q < r.readSeq + SLOTS {
      var idx := q % SLOTS;
      if r.slots[idx].Some? {
        SameWindowSlot(r.readSeq, q, r.slots[idx].value.seqNum);
        FilledIsFaithful(sent, r.slots[idx].value, off, len);
      } else {
        FilledIsFaithful(sent, NewAssembly(h), off, len);
      }
    }
  }

  // The receiver: opening a genuine packet.

  lemma {:induction false} PacketBytesCons(es: seq<Emission>)
    requires Wireable(es) && |es| > 0
    ensures Wireable(es[1..])
    ensures PacketBytes(es) == RecordBytes(WireRecord(es[0].sealed)) + PacketBytes(es[1..])
  {
    hide RecordBytes, WireRecord, FitsWire;
    if |es| == 1 {
      assert es[..0] == [];
    } else {
      var n := |es| - 1;
      PacketBytesCons(es[..n]);
      assert es[..n][1..] == es[1..][..n - 1];
    }
  }

  /** Opening the packet r + rest consumes r, or everything; what comes out is what the cipher makes of r. */
  lemma OpenFirstRecord(epoch: nat, window: ReplayWindow.Window, aead: Aead, r: Record, rest: seq<Byte>)
    requires FitsWire(r) && |r.payload| <= MAX_ENCRYPTED_LENGTH
    ensures var input := RecordBytes(r) + rest;
            var res := OpenRecord(epoch, window, aead, input);
            && (input[res.consumed..] == rest || input[res.consumed..] == [])
            && (res.status == Opened ==>
                  && Epoch(r) == epoch && res.contentType == r.contentType
                  && aead.open(r.contentType, r.version, r.sequence, r.payload) == Some(res.plain))
  {
    RecordRoundTrip(r, rest);
    var input := RecordBytes(r) + rest;
    assert |input| > 0;
    assert input[|input| - |rest|..] == rest && input[|input|..] == [];
    hide ParseRecord, RecordBytes, Epoch, FitsWire;
  }

  /** Opening a genuine packet takes its first record off, or drops all of it; what was opened is what was sealed. */
  lemma OpenRecordGenuine(keys: Keys, sent: seq<Message>, es: seq<Emission>, epoch: nat, window: ReplayWindow.Window)
    requires GoodKeys(keys) && Wireable(es) && |es| > 0 && AllGenuine(keys, sent, es)
    ensures var res := OpenRecord(epoch, window, keys(epoch), PacketBytes(es));
            && (PacketBytes(es)[res.consumed..] == PacketBytes(es[1..]) || PacketBytes(es)[res.consumed..] == [])
            && (res.status == Opened ==>
                  res.contentType == es[0].sealed.contentType && res.plain == es[0].sealed.plain)
  {
    hide PacketBytes, RecordBytes, Genuine, GoodKeys, FitsWire, Epoch, WireRecord, OpenRecord;
    var s, input := es[0].sealed, PacketBytes(es);
    var r, rest := WireRecord(s), PacketBytes(es[1..]);
    PacketBytesCons(es);
    GenuineOpens(keys, sent, s);
    if |r.payload| <= MAX_ENCRYPTED_LENGTH {
      OpenFirstRecord(epoch, window, keys(epoch), r, rest);
    } else {
      TooLong(r, rest);
      OpenUnparsable(epoch, window, keys(epoch), input);
      assert input[|input|..] == [];
    }
  }

  lemma GenuineOpens(keys: Keys, sent: seq<Message>, s: Sealed)
    requires GoodKeys(keys) && Genuine(keys, sent, s)
    ensures var r := WireRecord(s);
            && FitsWire(r) && Epoch(r) == s.epoch && |RecordBytes(r)| > 0 && r.contentType == s.contentType
            && keys(s.epoch).open(r.contentType, r.version, r.sequence, r.payload) == Some(s.plain)
  {
    EpochOfSequence(s.epoch, s.number);
    assert Sound(keys(s.epoch));
  }

  lemma OpenUnparsable(epoch: nat, window: ReplayWindow.Window, aead: Aead, input: seq<Byte>)
    requires |input| > 0 && ParseRecord(input).None?
    ensures OpenRecord(epoch, window, aead, input) == OpenResult(Discarded, |input|, 0, [], window)
  {
    hide ParseRecord;
  }

  lemma SingleFragment(r: Ring, f: Fragment, maxLen: nat, epoch: nat)
    requires WellPlaced(r) && Fits(f.hdr) && f.hdr.fragLen == |f.body|
    ensures AcceptAll(r, FragmentBytes(f), maxLen, epoch) == Accept(r, f, maxLen, epoch)
  {
    FragmentRoundTrip(f, []);
    assert FragmentBytes(f) + [] == FragmentBytes(f);
    hide Accept, ParseFragment, FragmentBytes, WellPlaced;
    var (r', alert) := Accept(r, f, maxLen, epoch);
    assert AcceptAll(r', [], maxLen, epoch) == (r', None);
  }

  lemma DispatchGenuine(keys: Keys, sent: seq<Message>, rx: Reader, s: Sealed, maxLen: nat)
    requires Genuine(keys, sent, s) && FaithfulRing(sent, rx.ring) && |sent| <= 0x1_0000
    requires forall k :: 0 <= k < |sent| ==> Buildable(sent[k])
    ensures var rx' := Dispatch(rx, keys(rx.epoch), s.contentType, s.plain, maxLen).0;
            FaithfulRing(sent, rx'.ring) && rx'.ring.readSeq == rx.ring.readSeq
  {
    if s.contentType == HANDSHAKE {
      var q: nat, off: nat, len: nat :| IsPieceAt(sent, s.plain, q, off, len);
      var f := PieceOf(sent, q, off, len);
      AcceptGenuine(sent, rx.ring, q, off, len, maxLen, rx.epoch);
      SingleFragment(rx.ring, f, maxLen, rx.epoch);
    }
  }

  // The sender: whatever it writes is genuine.

  /** The write ciphers are those of the current epoch and of the one before it. */
  ghost predicate Keyed(keys: Keys, w: Writer) {
    && w.epoch < EPOCHS && w.cur == keys(w.epoch) && Sound(w.cur)
    && (w.epoch >= 1 ==> w.prev == keys(w.epoch - 1))
  }

  ghost predicate AllSealedUnder(keys: Keys, es: seq<Emission>) {
    forall k :: 0 <= k < |es| ==> SealedUnder(keys, es[k].sealed)
  }

  lemma SealNextSealedUnder(keys: Keys, t: Flight, maxOut: nat)
    requires Keyed(keys, t.writer) && t.written < |t.messages|
    ensures var (t', p) := SealNextMessage(t, maxOut);
            && Keyed(keys, t'.writer)
            && (p.PartlySealed? || p.WhollySealed? ==> SealedUnder(keys, p.emission.sealed))
  {
    hide ParseFragment, FragmentBytes, Cut, Sequence, SameCiphers;
  }

  lemma AllSealedUnderSnoc(keys: Keys, es: seq<Emission>, e: Emission)
    requires AllSealedUnder(keys, es) && SealedUnder(keys, e.sealed)
    ensures AllSealedUnder(keys, es + [e])
  {
    hide SealedUnder;
  }

  ghost predicate KeyedPacket(keys: Keys, r: (Flight, Option<seq<Emission>>)) {
    Keyed(keys, r.0.writer) && (r.1.Some? ==> AllSealedUnder(keys, r.1.value))
  }

  lemma {:induction false} SealPacketSealedUnder(keys: Keys, t: Flight, room: nat, acc: seq<Emission>)
    requires t.written <= |t.messages| && Keyed(keys, t.writer) && AllSealedUnder(keys, acc)
    ensures KeyedPacket(keys, SealPacket(t, room, acc))
    decreases |t.messages| - t.written
  {
    hide SealNextMessage, SealPacket, Keyed, SealedUnder, AllSealedUnder;
    SealPacketUnfolded(t, room, acc);
    if t.written < |t.messages| {
      SealNextSealedUnder(keys, t, room);
      var (t', p) := SealNextMessage(t, room);
      if p.WhollySealed? || p.PartlySealed? {
        AllSealedUnderSnoc(keys, acc, p.emission);
        if p.WhollySealed? {
          SealPacketSealedUnder(keys, t'.(written := t'.written + 1), room - WireLength(p.emission.sealed),
                                acc + [p.emission]);
        }
      }
    }
  }

  lemma {:induction false} SendLoopSealedUnder(keys: Keys, t: Flight, mtu: nat, writes: seq<int>)
    requires t.written <= |t.messages| && Keyed(keys, t.writer)
    ensures var r := SendLoop(t, mtu, writes);
            Keyed(keys, r.flight.writer) && forall k :: 0 <= k < |r.packets| ==> AllSealedUnder(keys, r.packets[k])
    decreases |writes|
  {
    assert AllSealedUnder(keys, []);
    hide SealPacket, Keyed, AllSealedUnder;
    if t.written < |t.messages| {
      SealPacketSealedUnder(keys, t, mtu, []);
      var (t', packet) := SealPacket(t, mtu, []);
      if packet.Some? && NextWrite(writes) > 0 {
        SendLoopSealedUnder(keys, t', mtu, LaterWrites(writes));
      }
    }
  }

  predicate IsMessage(sent: seq<Message>, data: seq<Byte>, q: nat) {
    q < |sent| && data == RawOf(sent, q)
  }

  /** Everything queued is a ChangeCipherSpec or one of the messages sent. */
  ghost predicate QueuedFrom(sent: seq<Message>, messages: seq<Outgoing>) {
    forall i :: 0 <= i < |messages| && !messages[i].isCcs ==> exists q: nat :: IsMessage(sent, messages[i].data, q)
  }

  predicate AllBuildable(sent: seq<Message>) {
    forall k :: 0 <= k < |sent| ==> Buildable(sent[k])
  }

  lemma WholeOfMessage(sent: seq<Message>, m: Outgoing, q: nat)
    requires AllBuildable(sent) && |sent| < 0x1_0000 && !m.isCcs && IsMessage(sent, m.data, q)
    ensures IsRaw(m.data) && Whole(m) == PieceOf(sent, q, 0, |sent[q].body|)
  {
    var f := PieceOf(sent, q, 0, |sent[q].body|);
    assert f.body == sent[q].body;
    assert IsRawOf(m.data, sent[q].msgType, q, sent[q].body);
    FragmentRoundTrip(f, []);
    assert FragmentBytes(f) + [] == m.data;
    assert ParseFragment(m.data) == Some((Whole(m), []));
  }

  lemma CarriesIsGenuine(keys: Keys, sent: seq<Message>, messages: seq<Outgoing>, e: Emission)
    requires AllBuildable(sent) && |sent| < 0x1_0000 && QueuedFrom(sent, messages)
    requires e.index < |messages| && Carries(messages[e.index], e) && SealedUnder(keys, e.sealed)
    ensures Genuine(keys, sent, e.sealed)
  {
    var m := messages[e.index];
    if !m.isCcs {
      var q: nat :| IsMessage(sent, m.data, q);
      WholeOfMessage(sent, m, q);
      assert Cut(Whole(m), e.off, e.len) == PieceOf(sent, q, e.off, e.len);
      assert IsPieceAt(sent, e.sealed.plain, q, e.off, e.len);
    }
  }

  ghost predicate GoodPacket(keys: Keys, sent: seq<Message>, es: seq<Emission>) {
    Wireable(es) && AllGenuine(keys, sent, es)
  }

  lemma FlattenMember(packets: seq<seq<Emission>>, k: nat, j: nat)
    requires k < |packets| && j < |packets[k]|
    ensures packets[k][j] in Flatten(packets)
  {
    if k > 0 {
      FlattenMember(packets[1..], k - 1, j);
    }
  }

  lemma AllCarryPacket(messages: seq<Outgoing>, packets: seq<seq<Emission>>, k: nat)
    requires AllCarry(messages, Flatten(packets)) && k < |packets|
    ensures AllCarry(messages, packets[k])
  {
    hide Carries;
    forall j | 0 <= j < |packets[k]|
      ensures packets[k][j] in Flatten(packets)
    {
      FlattenMember(packets, k, j);
    }
  }

  lemma GenuinePacket(keys: Keys, sent: seq<Message>, messages: seq<Outgoing>, p: seq<Emission>)
    requires AllBuildable(sent) && |sent| < 0x1_0000 && QueuedFrom(sent, messages)
    requires AllCarry(messages, p) && AllSealedUnder(keys, p)
    ensures GoodPacket(keys, sent, p)
  {
    hide Carries, QueuedFrom, Genuine, AllBuildable;
    forall j | 0 <= j < |p|
      ensures Genuine(keys, sent, p[j].sealed)
    {
      CarriesIsGenuine(keys, sent, messages, p[j]);
    }
  }

  /** Every packet a flight writes is genuine. */
  lemma SendLoopGenuine(keys: Keys, sent: seq<Message>, t: Flight, mtu: nat, writes: seq<int>)
    requires WellFormed(t) && Keyed(keys, t.writer)
    requires AllBuildable(sent) && |sent| < 0x1_0000 && QueuedFrom(sent, t.messages)
    ensures forall p :: p in SendLoop(t, mtu, writes).packets ==> GoodPacket(keys, sent, p)
  {
    SendLoopWrites(t, mtu, writes);
    SendLoopSealedUnder(keys, t, mtu, writes);
    var packets := SendLoop(t, mtu, writes).packets;
    hide SendLoop, Chain, EndOf, WellFormed, AllCarry, AllSealedUnder, Keyed, QueuedFrom, GoodPacket, Flatten;
    forall p | p in packets
      ensures GoodPacket(keys, sent, p)
    {
      var k :| 0 <= k < |packets| && packets[k] == p;
      AllCarryPacket(t.messages, packets, k);
      GenuinePacket(keys, sent, t.messages, p);
    }
  }

  // The invariant.

  ghost predicate SenderOk(keys: Keys, sent: seq<Message>, t: Flight) {
    WellFormed(t) && Keyed(keys, t.writer) && QueuedFrom(sent, t.messages) && t.writeSeq == |sent|
  }

  ghost predicate NetworkOk(keys: Keys, sent: seq<Message>, network: set<seq<Emission>>) {
    forall p :: p in network ==> GoodPacket(keys, sent, p)
  }

  ghost predicate BufferOf(keys: Keys, sent: seq<Message>, buffer: seq<Byte>, es: seq<Emission>) {
    GoodPacket(keys, sent, es) && buffer == PacketBytes(es)
  }

  ghost predicate BufferOk(keys: Keys, sent: seq<Message>, buffer: seq<Byte>) {
    exists es :: BufferOf(keys, sent, buffer, es)
  }

  /** What was delivered is the messages sent, octet for octet, up to where the receiver has read. */
  ghost predicate DeliveredOk(sent: seq<Message>, delivered: seq<seq<Byte>>, readSeq: nat) {
    && |delivered| == readSeq <= |sent|
    && forall k :: 0 <= k < |delivered| ==> delivered[k] == RawOf(sent, k)
  }

  ghost predicate Inv(keys: Keys, w: World) {
    && AllBuildable(w.sent)
    && SenderOk(keys, w.sent, w.tx)
    && NetworkOk(keys, w.sent, w.network)
    && BufferOk(keys, w.sent, w.buffer)
    && FaithfulRing(w.sent, w.rx.ring)
    && DeliveredOk(w.sent, w.delivered, w.rx.ring.readSeq)
  }

  lemma FirstInv(keys: Keys)
    requires GoodKeys(keys)
    ensures Inv(keys, First(keys))
  {
    assert Sound(keys(0));
    assert BufferOf(keys, [], [], []);
  }

  // Adding a message only adds.

  lemma GenuineMonotone(keys: Keys, sent: seq<Message>, m: Message, es: seq<Emission>)
    requires GoodPacket(keys, sent, es)
    ensures GoodPacket(keys, sent + [m], es)
  {
    hide SealedUnder, FitsWire;
    forall k | 0 <= k < |es|
      ensures Genuine(keys, sent + [m], es[k].sealed)
    {
      var s := es[k].sealed;
      assert Genuine(keys, sent, s);
      if s.contentType == HANDSHAKE {
        var q: nat, off: nat, len: nat :| IsPieceAt(sent, s.plain, q, off, len);
        assert IsPieceAt(sent + [m], s.plain, q, off, len);
      }
    }
  }

  lemma RingMonotone(sent: seq<Message>, m: Message, r: Ring)
    requires FaithfulRing(sent, r)
    ensures FaithfulRing(sent + [m], r)
  {
  }

  lemma QueueMonotone(sent: seq<Message>, m: Message, messages: seq<Outgoing>)
    requires QueuedFrom(sent, messages)
    ensures QueuedFrom(sent + [m], messages)
  {
    forall i | 0 <= i < |messages| && !messages[i].isCcs
      ensures exists q: nat :: IsMessage(sent + [m], messages[i].data, q)
    {
      var q: nat :| IsMessage(sent, messages[i].data, q);
      assert IsMessage(sent + [m], messages[i].data, q);
    }
  }

  /** A whole message added to a well-formed flight leaves it well formed, with its ciphers as they were. */
  lemma AddedWellFormed(t: Flight, isCcs: bool, data: seq<Byte>)
    requires WellFormed(t) && AddOutgoing(t, isCcs, data).Some? && (isCcs || IsRaw(data))
    ensures var t' := AddOutgoing(t, isCcs, data).value;
            && WellFormed(t') && t'.writer == t.writer
            && t'.messages == (if t.complete then [] else t.messages) + [Outgoing(data, t.writer.epoch, isCcs)]
  {
    hide Sound, IsRaw;
  }

  lemma QueueSnoc(sent: seq<Message>, messages: seq<Outgoing>, o: Outgoing, q: nat)
    requires QueuedFrom(sent, messages) && (o.isCcs || IsMessage(sent, o.data, q))
    ensures QueuedFrom(sent, messages + [o])
  {
    hide IsMessage;
  }

  lemma AddedMessage(keys: Keys, sent: seq<Message>, m: Message, t: Flight, data: seq<Byte>)
    requires SenderOk(keys, sent, t) && Buildable(m) && |sent| + 1 < 0x1_0000
    requires data == RawMessage(m.msgType, t.writeSeq, m.body) && AddOutgoing(t, false, data).Some?
    ensures SenderOk(keys, sent + [m], AddOutgoing(t, false, data).value)
  {
    hide RawMessage, WellFormed, IsRaw, IsMessage, Keyed, QueuedFrom;
    NewestMessage(sent, m, data);
    AddedWellFormed(t, false, data);
    var kept := if t.complete then [] else t.messages;
    NothingQueued(sent);
    QueueMonotone(sent, m, kept);
    QueueSnoc(sent + [m], kept, Outgoing(data, t.writer.epoch, false), |sent|);
  }

  lemma NewestMessage(sent: seq<Message>, m: Message, data: seq<Byte>)
    requires Buildable(m) && |sent| < 0x1_0000 && data == RawMessage(m.msgType, |sent|, m.body)
    ensures IsRaw(data) && IsMessage(sent + [m], data, |sent|)
  {
    assert IsRawOf(data, m.msgType, |sent|, m.body);
    assert (sent + [m])[|sent|] == m;
  }

  lemma NothingQueued(sent: seq<Message>)
    ensures QueuedFrom(sent, [])
  {
  }

  lemma AddedCcs(keys: Keys, sent: seq<Message>, t: Flight)
    requires SenderOk(keys, sent, t) && AddOutgoing(t, true, []).Some?
    ensures SenderOk(keys, sent, AddOutgoing(t, true, []).value)
  {
    hide WellFormed, Keyed, IsMessage;
    AddedWellFormed(t, true, []);
  }

  lemma AddKeepsInv(keys: Keys, w: World, m: Message)
    requires Inv(keys, w) && |Next(keys, w, Add(m)).sent| < 0x1_0000
    ensures Inv(keys, Next(keys, w, Add(m)))
  {
    FinishedIsRaw(m, w.tx.writeSeq);
    var w' := Next(keys, w, Add(m));
    if w' != w {
      AddedMessage(keys, w.sent, m, w.tx, RawMessage(m.msgType, w.tx.writeSeq, m.body));
      hide SenderOk, GoodPacket, FaithfulRing;
      forall p | p in w.network
        ensures GoodPacket(keys, w'.sent, p)
      {
        GenuineMonotone(keys, w.sent, m, p);
      }
      var es: seq<Emission> :| BufferOf(keys, w.sent, w.buffer, es);
      GenuineMonotone(keys, w.sent, m, es);
      assert BufferOf(keys, w'.sent, w'.buffer, es);
      RingMonotone(w.sent, m, w.rx.ring);
    }
  }

  lemma SendKeepsInv(keys: Keys, w: World, t: Flight, mtu: nat, writes: seq<int>)
    requires Inv(keys, w) && SenderOk(keys, w.sent, t) && |w.sent| < 0x1_0000
    ensures Inv(keys, Send(w, t, mtu, writes))
  {
    SendLoopWrites(t, mtu, writes);
    SendLoopSealedUnder(keys, t, mtu, writes);
    SendLoopGenuine(keys, w.sent, t, mtu, writes);
    hide SendLoop, WellFormed, Keyed, QueuedFrom, GoodPacket, Written, BufferOk, FaithfulRing, DeliveredOk, AllSealedUnder;
  }

  /** Opening leaves a genuine rest of the packet, and passes on only what was sealed. */
  lemma BufferAfterOpen(keys: Keys, sent: seq<Message>, buffer: seq<Byte>, epoch: nat, window: ReplayWindow.Window)
    returns (s: Sealed)
    requires GoodKeys(keys) && BufferOk(keys, sent, buffer)
    ensures var res := OpenRecord(epoch, window, keys(epoch), buffer);
            && BufferOk(keys, sent, buffer[res.consumed..])
            && (res.status == Opened ==> Genuine(keys, sent, s) && res.contentType == s.contentType && res.plain == s.plain)
  {
    var es: seq<Emission> :| BufferOf(keys, sent, buffer, es);
    EmptyPacket();
    assert BufferOf(keys, sent, [], []);
    if |es| == 0 {
      hide Genuine;
      s := Sealed(0, 0, 0, 0, [], []);
      assert buffer[OpenRecord(epoch, window, keys(epoch), buffer).consumed..] == [];
    } else {
      hide OpenRecord, PacketBytes, GoodKeys, Genuine, FitsWire;
      s := es[0].sealed;
      assert Genuine(keys, sent, s);
      OpenRecordGenuine(keys, sent, es, epoch, window);
      PacketBytesCons(es);
      assert BufferOf(keys, sent, PacketBytes(es[1..]), es[1..]);
    }
  }

  lemma OpenKeepsInv(keys: Keys, w: World, maxLen: nat)
    requires GoodKeys(keys) && Inv(keys, w) && |w.sent| < 0x1_0000
    ensures Inv(keys, Next(keys, w, Open(maxLen)))
  {
    hide SenderOk, NetworkOk, GoodKeys, DeliveredOk, Genuine, BufferOk, OpenRecord;
    var s := BufferAfterOpen(keys, w.sent, w.buffer, w.rx.epoch, w.rx.window);
    var res := OpenRecord(w.rx.epoch, w.rx.window, keys(w.rx.epoch), w.buffer);
    if res.status == Opened {
      DispatchGenuine(keys, w.sent, w.rx.(window := res.window), s, maxLen);
    }
    hide Dispatch, FaithfulRing;
  }

  lemma EmptyPacket()
    ensures Wireable([]) && PacketBytes([]) == []
  {
  }

  // The theorem.

  lemma DeliverKeepsInv(keys: Keys, w: World)
    requires Inv(keys, w) && |w.sent| < 0x1_0000
    ensures Inv(keys, Next(keys, w, Deliver))
  {
    hide SenderOk, NetworkOk, BufferOk, RawMessage;
    if CurrentComplete(w.rx.ring) {
      var a := Front(w.rx.ring).value;
      assert Faithful(w.sent, a);
      SameWindowSlot(w.rx.ring.readSeq, w.rx.ring.readSeq, a.seqNum);
      assert IncomingMessage.Octets(a.body) == w.sent[a.seqNum].body;
    }
  }

  lemma StepKeepsInv(keys: Keys, w: World, step: Step)
    requires GoodKeys(keys) && Inv(keys, w) && |Next(keys, w, step).sent| < 0x1_0000
    ensures Inv(keys, Next(keys, w, step)) && w.sent <= Next(keys, w, step).sent
  {
    match step
    case Add(m) =>
      AddKeepsInv(keys, w, m);
    case AddCcs =>
      if AddOutgoing(w.tx, true, []).Some? {
        AddedCcs(keys, w.sent, w.tx);
        hide SenderOk, NetworkOk, BufferOk, FaithfulRing, DeliveredOk;
      }
    case Flush(mtu, writes) =>
      SendKeepsInv(keys, w, w.tx.(complete := true), mtu, writes);
    case Retransmit(mtu, writes) =>
      SendKeepsInv(keys, w, w.tx.(written := 0, offset := 0), mtu, writes);
    case ChangeWriteCipher =>
      var epoch := (w.tx.writer.epoch + 1) % EPOCHS;
      assert Sound(keys(epoch));
      hide NetworkOk, BufferOk, FaithfulRing, DeliveredOk, Sound, QueuedFrom;
    case Receive(packet) =>
      hide SenderOk, FaithfulRing, DeliveredOk, PacketBytes, Genuine, FitsWire;
      if packet in w.network {
        assert GoodPacket(keys, w.sent, packet);
        assert BufferOf(keys, w.sent, PacketBytes(packet), packet);
      }
    case Open(maxLen) =>
      OpenKeepsInv(keys, w, maxLen);
    case TakeCcs =>
      hide SenderOk, NetworkOk, BufferOk, FaithfulRing, DeliveredOk;
    case Deliver =>
      DeliverKeepsInv(keys, w);
    case ChangeReadCipher =>
      hide SenderOk, NetworkOk, BufferOk, FaithfulRing, DeliveredOk, HasUnprocessedData;
  }

  ghost function Run(keys: Keys, steps: seq<Step>): (w: World)
    ensures InRange(w)
  {
    if |steps| == 0 then First(keys) else Next(keys, Run(keys, steps[..|steps| - 1]), steps[|steps| - 1])
  }

  lemma {:induction false} RunInv(keys: Keys, steps: seq<Step>)
    requires GoodKeys(keys) && |Run(keys, steps).sent| < 0x1_0000
    ensures Inv(keys, Run(keys, steps))
  {
    hide Inv, GoodKeys, Next, First;
    if |steps| == 0 {
      FirstInv(keys);
    } else {
      var front, last := steps[..|steps| - 1], steps[|steps| - 1];
      var w := Run(keys, front);
      SentGrows(keys, w, last);
      RunInv(keys, front);
      StepKeepsInv(keys, w, last);
    }
  }

  lemma SentGrows(keys: Keys, w: World, step: Step)
    requires InRange(w)
    ensures w.sent <= Next(keys, w, step).sent
  {
    hide SendLoop, OpenHandshake, InRange;
  }

  /** End-to-end delivery: over any run of sender, network and receiver with fewer than 65536 messages, whatever the
      network loses, repeats and reorders, whatever is retransmitted and at whatever MTU, the messages delivered are the
      first messages sent, in order, each once, octet for octet, header included. */
  lemma Delivery(keys: Keys, steps: seq<Step>)
    requires GoodKeys(keys) && |Run(keys, steps).sent| < 0x1_0000
    ensures var w := Run(keys, steps);
            && |w.delivered| <= |w.sent|
            && forall k :: 0 <= k < |w.delivered| ==>
                             w.delivered[k] == RawMessage(w.sent[k].msgType, k, w.sent[k].body)
  {
    RunInv(keys, steps);
  }
}
