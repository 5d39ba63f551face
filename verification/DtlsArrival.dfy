/** The whole way of a flight: packets the sender wrote, taken off the network one after another and opened record by
    record, put their fragments into the ring; once each fragment of a flight has come through in time, its messages are
    whole and can be delivered. */
module DtlsArrival {
  import opened Bytes
  import opened HandshakeHeader
  import opened IncomingMessage
  import opened IncomingRing
  import opened DtlsRecord
  import opened DtlsSeal
  import opened DtlsFlight
  import opened FlightProofs
  import opened DtlsSender
  import opened DtlsReader
  import opened DtlsOpening
  import opened DtlsProtocol
  import opened DtlsProgress
  import opened DtlsLedger
  import ReplayWindow

  function NumberOf(s: Sealed): nat {
    WindowNumber(s.epoch, s.number)
  }

  /** A record within the limits of the record layer, of a version that a receiver in the given epoch takes. */
  ghost predicate Regular(keys: Keys, epoch: nat, s: Sealed) {
    |s.plain| <= 16384 && |s.payload| <= 16384 + 256 + 64 && GoodVersion(keys(epoch), s.version)
  }

  ghost predicate AllRegular(keys: Keys, epoch: nat, es: seq<Emission>) {
    forall k :: 0 <= k < |es| ==> Regular(keys, epoch, es[k].sealed) && Entered(keys, es[k].sealed)
  }

  /** The receiver is in the record's epoch and has not met its number. */
  predicate Admits(rx: Reader, s: Sealed) {
    s.epoch == rx.epoch && !ReplayWindow.ShouldDiscard(rx.window, NumberOf(s))
  }

  /** The piece of a message that a plaintext carries. */
  ghost function ArrivalOf(sent: seq<Message>, plain: seq<Byte>): (a: Arrival)
    requires IsPiece(sent, plain)
    ensures IsPieceAt(sent, plain, a.q, a.off, a.len)
  {
    var q: nat, off: nat, len: nat :| IsPieceAt(sent, plain, q, off, len);
    Arrival(q, off, len)
  }

  /** A plaintext carries one piece only. */
  lemma OnePiece(sent: seq<Message>, plain: seq<Byte>, q: nat, off: nat, len: nat)
    requires AllBuildable(sent) && |sent| <= 0x1_0000 && IsPieceAt(sent, plain, q, off, len)
    ensures IsPiece(sent, plain) && ArrivalOf(sent, plain) == Arrival(q, off, len)
  {
    var a := ArrivalOf(sent, plain);
    FragmentRoundTrip(PieceOf(sent, q, off, len), []);
    FragmentRoundTrip(PieceOf(sent, a.q, a.off, a.len), []);
    assert plain + [] == plain;
  }

  ghost predicate Sendable(sent: seq<Message>) {
    AllBuildable(sent) && |sent| <= 0x1_0000
  }

  /** The receiver after a genuine record. */
  ghost function Taken(keys: Keys, sent: seq<Message>, rx: Reader, s: Sealed, maxLen: nat): (rx': Reader)
    requires Sendable(sent) && FaithfulRing(sent, rx.ring) && Genuine(keys, sent, s)
    ensures FaithfulRing(sent, rx'.ring) && rx'.ring.readSeq == rx.ring.readSeq && rx'.epoch == rx.epoch
  {
    if !Admits(rx, s) then rx
    else
      var rx' := rx.(window := ReplayWindow.Record(rx.window, NumberOf(s)));
      if s.contentType == CHANGE_CIPHER_SPEC then rx'.(hasCcs := rx.hasCcs || keys(rx.epoch).isNull)
      else
        var a := ArrivalOf(sent, s.plain);
        AcceptGenuine(sent, rx.ring, a.q, a.off, a.len, maxLen, rx.epoch);
        rx'.(ring := Accept(rx.ring, PieceOf(sent, a.q, a.off, a.len), maxLen, rx.epoch).0)
  }

  lemma SealedFacts(keys: Keys, sent: seq<Message>, s: Sealed)
    requires GoodKeys(keys) && Genuine(keys, sent, s) && Entered(keys, s)
    ensures var r := WireRecord(s);
            && FitsWire(r) && Epoch(r) == s.epoch && Value(r.sequence) == NumberOf(s)
            && r.contentType == s.contentType && r.version == s.version && r.payload == s.payload && s.contentType != 21
            && keys(s.epoch).open(r.contentType, r.version, r.sequence, r.payload) == Some(s.plain)
  {
    GenuineOpens(keys, sent, s);
    NumberOfSequence(s.epoch, s.number);
  }

  /** Opening a genuine record that is admitted hands its plaintext over; one that is not admitted changes nothing. Either
      way exactly this record is taken off the packet. */
  lemma OpenGenuine(keys: Keys, sent: seq<Message>, rx: Reader, s: Sealed, rest: seq<Byte>)
    requires GoodKeys(keys) && Genuine(keys, sent, s) && Entered(keys, s) && Regular(keys, rx.epoch, s)
    requires FitsWire(WireRecord(s)) && Meaningful(rx.window)
    ensures var input := RecordBytes(WireRecord(s)) + rest;
            var res := OpenRecord(rx.epoch, rx.window, keys(rx.epoch), input);
            && input[res.consumed..] == rest
            && if Admits(rx, s) then
                 && res.status == Opened && res.contentType == s.contentType && res.plain == s.plain
                 && res.window == ReplayWindow.Record(rx.window, NumberOf(s))
               else res.status == Discarded && res.window == rx.window
  {
    SealedFacts(keys, sent, s);
    var recorded :| ReplayWindow.Represents(rx.window, recorded);
    var r := WireRecord(s);
    ReplayWindow.DiscardMeaning(rx.window, recorded, NumberOf(s));
    OpensIff(rx.epoch, rx.window, recorded, keys(rx.epoch), r, rest);
    OpenWindow(rx.epoch, rx.window, keys(rx.epoch), r, rest);
    hide OpenRecord, RecordBytes, Sequence, Value, ReplayWindow.Represents, ReplayWindow.Record, Epoch, ReplayWindow.ShouldDiscard,
         Genuine, GoodKeys, WireRecord, FitsWire, WindowNumber;
  }

  lemma OpenWindow(epoch: nat, window: ReplayWindow.Window, aead: Aead, r: Record, rest: seq<Byte>)
    requires FitsWire(r)
    ensures var res := OpenRecord(epoch, window, aead, RecordBytes(r) + rest);
            res.status == Opened ==> res.window == ReplayWindow.Record(window, Value(r.sequence))
  {
    if |r.payload| > MAX_ENCRYPTED_LENGTH {
      TooLong(r, rest);
    } else {
      RecordRoundTrip(r, rest);
    }
    hide ParseRecord, RecordBytes, Epoch, FitsWire, ReplayWindow.Record, ReplayWindow.ShouldDiscard, Value, VersionOk;
  }

  /** Opening a genuine record for the handshake makes the ring accept its fragment. */
  lemma OpenTakes(keys: Keys, sent: seq<Message>, rx: Reader, s: Sealed, rest: seq<Byte>, maxLen: nat)
    requires GoodKeys(keys) && Genuine(keys, sent, s) && Entered(keys, s) && Regular(keys, rx.epoch, s)
    requires FitsWire(WireRecord(s)) && Meaningful(rx.window) && Sendable(sent) && FaithfulRing(sent, rx.ring)
    ensures var input := RecordBytes(WireRecord(s)) + rest;
            var (rx', status, consumed) := OpenHandshake(rx, keys(rx.epoch), input, maxLen);
            && rx' == Taken(keys, sent, rx, s, maxLen)
            && input[consumed..] == rest
  {
    OpenGenuine(keys, sent, rx, s, rest);
    hide OpenRecord, RecordBytes, ReplayWindow.Record, ReplayWindow.ShouldDiscard, Meaningful, Entered, Regular, GoodKeys, FaithfulRing,
         WireRecord, FitsWire, AllBuildable, Accept;
    if Admits(rx, s) {
      var rx1 := rx.(window := ReplayWindow.Record(rx.window, NumberOf(s)));
      DispatchMeaning(rx1, keys(rx.epoch), s.contentType, s.plain, maxLen);
      if s.contentType == HANDSHAKE {
        var a := ArrivalOf(sent, s.plain);
        assert Fits(PieceOf(sent, a.q, a.off, a.len).hdr) by {
          AcceptGenuine(sent, rx.ring, a.q, a.off, a.len, maxLen, rx.epoch);
        }
        SingleFragment(rx1.ring, PieceOf(sent, a.q, a.off, a.len), maxLen, rx.epoch);
      }
      hide Dispatch, AcceptAll;
    }
  }

  // One record after another.

  ghost function TakenAll(keys: Keys, sent: seq<Message>, rx: Reader, es: seq<Emission>, maxLen: nat): (rx': Reader)
    requires Sendable(sent) && FaithfulRing(sent, rx.ring) && AllGenuine(keys, sent, es)
    ensures FaithfulRing(sent, rx'.ring) && rx'.ring.readSeq == rx.ring.readSeq && rx'.epoch == rx.epoch
    decreases |es|
  {
    if |es| == 0 then rx
    else
      var n := |es| - 1;
      Taken(keys, sent, TakenAll(keys, sent, rx, es[..n], maxLen), es[n].sealed, maxLen)
  }

  /** Whether the k-th of the records is let in when its turn comes. */
  ghost predicate LetIn(keys: Keys, sent: seq<Message>, rx: Reader, es: seq<Emission>, maxLen: nat, k: nat)
    requires Sendable(sent) && FaithfulRing(sent, rx.ring) && AllGenuine(keys, sent, es) && k < |es|
  {
    Admits(TakenAll(keys, sent, rx, es[..k], maxLen), es[k].sealed)
  }

  /** The fragments that are let in. */
  ghost function Entering(keys: Keys, sent: seq<Message>, rx: Reader, es: seq<Emission>, maxLen: nat): (r: seq<Arrival>)
    requires Sendable(sent) && FaithfulRing(sent, rx.ring) && AllGenuine(keys, sent, es)
    decreases |es|
  {
    if |es| == 0 then []
    else
      var n := |es| - 1;
      Entering(keys, sent, rx, es[..n], maxLen)
      + if LetIn(keys, sent, rx, es, maxLen, n) && es[n].sealed.contentType == HANDSHAKE
        then [ArrivalOf(sent, es[n].sealed.plain)] else []
  }

  ghost predicate AllShort(sent: seq<Message>, maxLen: nat) {
    forall k :: 0 <= k < |sent| ==> |sent[k].body| <= maxLen
  }

  lemma {:induction false} EnteringPossible(keys: Keys, sent: seq<Message>, rx: Reader, es: seq<Emission>, maxLen: nat)
    requires Sendable(sent) && FaithfulRing(sent, rx.ring) && AllGenuine(keys, sent, es) && AllShort(sent, maxLen)
    ensures AllPossible(sent, Entering(keys, sent, rx, es, maxLen), maxLen)
    decreases |es|
  {
    hide TakenAll, FaithfulRing, SealedUnder, FragmentBytes;
    if |es| > 0 {
      EnteringPossible(keys, sent, rx, es[..|es| - 1], maxLen);
    }
  }

  /** Except in the encrypted epoch of the Finished message, the ring absorbs exactly the fragments let in. */
  lemma {:induction false} TakenIsAbsorbed(keys: Keys, sent: seq<Message>, rx: Reader, es: seq<Emission>, maxLen: nat)
    requires Sendable(sent) && FaithfulRing(sent, rx.ring) && AllGenuine(keys, sent, es) && AllShort(sent, maxLen)
    requires rx.epoch != 1
    ensures AllPossible(sent, Entering(keys, sent, rx, es, maxLen), maxLen)
    ensures TakenAll(keys, sent, rx, es, maxLen).ring == Absorb(sent, rx.ring, Entering(keys, sent, rx, es, maxLen), maxLen)
    decreases |es|
  {
    hide FaithfulRing, SealedUnder, FragmentBytes, AllPossible, AllShort, AllBuildable, Possible, ReplayWindow.Record,
         ReplayWindow.ShouldDiscard;
    EnteringPossible(keys, sent, rx, es, maxLen);
    if |es| > 0 {
      var n := |es| - 1;
      TakenIsAbsorbed(keys, sent, rx, es[..n], maxLen);
      var before := Entering(keys, sent, rx, es[..n], maxLen);
      var mid := TakenAll(keys, sent, rx, es[..n], maxLen);
      if LetIn(keys, sent, rx, es, maxLen, n) && es[n].sealed.contentType == HANDSHAKE {
        var a := ArrivalOf(sent, es[n].sealed.plain);
        assert Entering(keys, sent, rx, es, maxLen)[..|before|] == before;
        EpochIndependent(sent, mid.ring, a, maxLen, mid.epoch);
      } else {
        assert Genuine(keys, sent, es[n].sealed);
        assert Entering(keys, sent, rx, es, maxLen) == before;
      }
    }
  }

  lemma EpochIndependent(sent: seq<Message>, r: Ring, a: Arrival, maxLen: nat, epoch: nat)
    requires FaithfulRing(sent, r) && Sendable(sent) && a.q < |sent| && a.off + a.len <= |sent[a.q].body| && epoch != 1
    ensures Fits(PieceOf(sent, a.q, a.off, a.len).hdr)
    ensures Accept(r, PieceOf(sent, a.q, a.off, a.len), maxLen, epoch) == Accept(r, PieceOf(sent, a.q, a.off, a.len), maxLen, 0)
  {
    AcceptGenuine(sent, r, a.q, a.off, a.len, maxLen, 0);
  }

  // Which fragments are let in.

  /** The numbers of the records let in. */
  ghost function Recorded(keys: Keys, sent: seq<Message>, rx: Reader, es: seq<Emission>, maxLen: nat): (r: set<nat>)
    requires Sendable(sent) && FaithfulRing(sent, rx.ring) && AllGenuine(keys, sent, es)
    decreases |es|
  {
    if |es| == 0 then {}
    else
      var n := |es| - 1;
      Recorded(keys, sent, rx, es[..n], maxLen)
      + if LetIn(keys, sent, rx, es, maxLen, n) then {NumberOf(es[n].sealed)} else {}
  }

  lemma {:induction false} WindowRecords(keys: Keys, sent: seq<Message>, rx: Reader, es: seq<Emission>, maxLen: nat, base: set<nat>)
    requires Sendable(sent) && FaithfulRing(sent, rx.ring) && AllGenuine(keys, sent, es)
    requires ReplayWindow.Represents(rx.window, base)
    ensures ReplayWindow.Represents(TakenAll(keys, sent, rx, es, maxLen).window, base + Recorded(keys, sent, rx, es, maxLen))
    decreases |es|
  {
    hide FaithfulRing, Genuine, FragmentBytes, AllBuildable, ReplayWindow.Represents, ReplayWindow.Record,
         ReplayWindow.ShouldDiscard, Accept;
    if |es| == 0 {
      assert base + {} == base;
    } else {
      var n := |es| - 1;
      WindowRecords(keys, sent, rx, es[..n], maxLen, base);
      var mid, so := TakenAll(keys, sent, rx, es[..n], maxLen), base + Recorded(keys, sent, rx, es[..n], maxLen);
      ReplayWindow.RecordMeaning(mid.window, so, NumberOf(es[n].sealed));
      assert base + Recorded(keys, sent, rx, es, maxLen)
             == so + if Admits(mid, es[n].sealed) then {NumberOf(es[n].sealed)} else {};
      assert so + {} == so;
    }
  }

  lemma {:induction false} RecordedMeaning(keys: Keys, sent: seq<Message>, rx: Reader, es: seq<Emission>, maxLen: nat, n: nat)
    returns (j: nat)
    requires Sendable(sent) && FaithfulRing(sent, rx.ring) && AllGenuine(keys, sent, es)
    requires n in Recorded(keys, sent, rx, es, maxLen)
    ensures j < |es| && LetIn(keys, sent, rx, es, maxLen, j) && NumberOf(es[j].sealed) == n
    decreases |es|
  {
    hide FaithfulRing, Genuine, FragmentBytes, AllBuildable, Admits, Taken, TakenAll;
    var m := |es| - 1;
    if n in Recorded(keys, sent, rx, es[..m], maxLen) {
      j := RecordedMeaning(keys, sent, rx, es[..m], maxLen, n);
      assert es[..m][..j] == es[..j];
    } else {
      j := m;
    }
  }

  lemma {:induction false} LetInEnters(keys: Keys, sent: seq<Message>, rx: Reader, es: seq<Emission>, maxLen: nat, k: nat)
    requires Sendable(sent) && FaithfulRing(sent, rx.ring) && AllGenuine(keys, sent, es)
    requires k < |es| && LetIn(keys, sent, rx, es, maxLen, k) && es[k].sealed.contentType == HANDSHAKE
    ensures IsPiece(sent, es[k].sealed.plain)
    ensures ArrivalOf(sent, es[k].sealed.plain) in Entering(keys, sent, rx, es, maxLen)
    decreases |es|
  {
    hide FaithfulRing, SealedUnder, IsPiece, FragmentBytes, AllBuildable, Admits, Taken, TakenAll;
    assert Genuine(keys, sent, es[k].sealed);
    var m := |es| - 1;
    if k < m {
      assert es[..m][..k] == es[..k];
      LetInEnters(keys, sent, rx, es[..m], maxLen, k);
    }
  }

  /** Two records of the log with the same number are one. */
  lemma OneRecord(keys: Keys, w: Writer, a: Sealed, b: Sealed)
    requires Ledger(keys, w) && !w.exhausted && a in w.sealed && b in w.sealed
    requires NumberOf(a) == NumberOf(b)
    ensures a == b
  {
    var i :| 0 <= i < |w.sealed| && w.sealed[i] == a;
    var j :| 0 <= j < |w.sealed| && w.sealed[j] == b;
    assert Entered(keys, w.sealed[i]) && Entered(keys, w.sealed[j]);
    assert a.epoch == b.epoch && a.number == b.number;
    assert Distinct(w.sealed);
    hide Ahead, Keyed;
  }

  /** A fragment that the receiver has not met before, and that is not stale when it comes, enters the ring: now, or it
      did when it came the first time. */
  lemma InTimeEnters(keys: Keys, sent: seq<Message>, rx: Reader, es: seq<Emission>, maxLen: nat, w: Writer, k: nat)
    requires Sendable(sent) && FaithfulRing(sent, rx.ring) && AllGenuine(keys, sent, es)
    requires Ledger(keys, w) && !w.exhausted && InLog(w, es) && Meaningful(rx.window)
    requires k < |es| && Admits(rx, es[k].sealed) && es[k].sealed.contentType == HANDSHAKE
    requires !ReplayWindow.Stale(NumberOf(es[k].sealed), TakenAll(keys, sent, rx, es[..k], maxLen).window.max)
    ensures IsPiece(sent, es[k].sealed.plain)
    ensures ArrivalOf(sent, es[k].sealed.plain) in Entering(keys, sent, rx, es, maxLen)
  {
    hide FaithfulRing, SealedUnder, IsPiece, FragmentBytes, AllBuildable, Taken, TakenAll, Ledger,
         ReplayWindow.Represents, ReplayWindow.ShouldDiscard;
    var base :| ReplayWindow.Represents(rx.window, base);
    var n, mid := NumberOf(es[k].sealed), TakenAll(keys, sent, rx, es[..k], maxLen);
    ReplayWindow.DiscardMeaning(rx.window, base, n);
    WindowRecords(keys, sent, rx, es[..k], maxLen, base);
    ReplayWindow.DiscardMeaning(mid.window, base + Recorded(keys, sent, rx, es[..k], maxLen), n);
    if ReplayWindow.ShouldDiscard(mid.window, n) {
      var j := RecordedMeaning(keys, sent, rx, es[..k], maxLen, n);
      assert es[..k][..j] == es[..j];
      OneRecord(keys, w, es[j].sealed, es[k].sealed);
      LetInEnters(keys, sent, rx, es, maxLen, j);
    } else {
      LetInEnters(keys, sent, rx, es, maxLen, k);
    }
  }

  // On the network.

  /** The world after the receiver has opened so many records. */
  ghost function OpenTimes(keys: Keys, w: World, n: nat, maxLen: nat): (w': World)
    requires InRange(w)
    ensures InRange(w')
  {
    if n == 0 then w else Next(keys, OpenTimes(keys, w, n - 1, maxLen), Open(maxLen))
  }

  /** Takes a packet off the network and opens its records. */
  ghost function Take(keys: Keys, w: World, packet: seq<Emission>, maxLen: nat): (w': World)
    requires InRange(w)
    ensures InRange(w')
  {
    OpenTimes(keys, Next(keys, w, Receive(packet)), |packet|, maxLen)
  }

  ghost function TakeAll(keys: Keys, w: World, packets: seq<seq<Emission>>, maxLen: nat): (w': World)
    requires InRange(w)
    ensures InRange(w')
  {
    if |packets| == 0 then w
    else
      var n := |packets| - 1;
      Take(keys, TakeAll(keys, w, packets[..n], maxLen), packets[n], maxLen)
  }

  /** The records of the packets in the order in which they come. */
  function Stream(packets: seq<seq<Emission>>): seq<Emission> {
    if |packets| == 0 then [] else Stream(packets[..|packets| - 1]) + packets[|packets| - 1]
  }

  /** Packets that are on the network and within the limits. */
  ghost predicate Available(keys: Keys, w: World, packets: seq<seq<Emission>>) {
    forall k :: 0 <= k < |packets| ==> packets[k] in w.network && AllRegular(keys, w.rx.epoch, packets[k])
  }

  ghost predicate Ready(keys: Keys, w: World) {
    GoodKeys(keys) && Inv(keys, w) && Orderly(keys, w) && |w.sent| < 0x1_0000
  }

  /** The world with another reader and buffer. */
  function With(w: World, rx: Reader, buffer: seq<Byte>): World {
    w.(rx := rx, buffer := buffer)
  }

  lemma OpenOnce(keys: Keys, w: World, es: seq<Emission>, maxLen: nat)
    requires GoodKeys(keys) && Sendable(w.sent) && FaithfulRing(w.sent, w.rx.ring) && InRange(w) && Meaningful(w.rx.window)
    requires |es| > 0 && Wireable(es) && AllGenuine(keys, w.sent, es) && AllRegular(keys, w.rx.epoch, es)
    requires w.buffer == PacketBytes(es)
    ensures Wireable(es[1..])
    ensures Next(keys, w, Open(maxLen)) == With(w, Taken(keys, w.sent, w.rx, es[0].sealed, maxLen), PacketBytes(es[1..]))
  {
    hide PacketBytes, RecordBytes, Genuine, GoodKeys, WireRecord, OpenHandshake, Taken, Sendable, FaithfulRing, Meaningful,
         Regular, Entered, FitsWire, InRange;
    PacketBytesCons(es);
    OpenTakes(keys, w.sent, w.rx, es[0].sealed, PacketBytes(es[1..]), maxLen);
  }

  lemma {:induction false} OpenTimesTakes(keys: Keys, w: World, es: seq<Emission>, maxLen: nat, k: nat)
    requires GoodKeys(keys) && Sendable(w.sent) && FaithfulRing(w.sent, w.rx.ring) && InRange(w) && Orderly(keys, w)
    requires OneVersion(keys)
    requires k <= |es| && Wireable(es) && AllGenuine(keys, w.sent, es) && AllRegular(keys, w.rx.epoch, es)
    requires w.buffer == PacketBytes(es)
    ensures Wireable(es[k..]) && Orderly(keys, OpenTimes(keys, w, k, maxLen))
    ensures OpenTimes(keys, w, k, maxLen) == With(w, TakenAll(keys, w.sent, w.rx, es[..k], maxLen), PacketBytes(es[k..]))
    decreases k
  {
    hide PacketBytes, Genuine, GoodKeys, Next, Taken, Sendable, FaithfulRing, Meaningful, Ledger, NetworkInLog, OneVersion,
         Regular, Entered, FitsWire, InRange;
    if k == 0 {
      assert es[0..] == es;
    } else {
      OpenTimesTakes(keys, w, es, maxLen, k - 1);
      var mid := OpenTimes(keys, w, k - 1, maxLen);
      assert AllRegular(keys, mid.rx.epoch, es[k - 1..]) && AllGenuine(keys, w.sent, es[k - 1..]);
      assert InRange(mid);
      OpenOnce(keys, mid, es[k - 1..], maxLen);
      StepOrderly(keys, mid, Open(maxLen));
      assert es[k - 1..][1..] == es[k..] && es[..k][..k - 1] == es[..k - 1];
    }
  }

  lemma ReadyInRange(keys: Keys, w: World)
    requires Ready(keys, w)
    ensures InRange(w)
  {
  }

  /** Taking a packet lets its genuine records in one by one, and uses it up. */
  lemma TakeTakes(keys: Keys, w: World, packet: seq<Emission>, maxLen: nat)
    requires Ready(keys, w) && OneVersion(keys) && w.buffer == [] && packet in w.network && AllRegular(keys, w.rx.epoch, packet)
    ensures AllGenuine(keys, w.sent, packet) && Sendable(w.sent)
    ensures Orderly(keys, Take(keys, w, packet, maxLen))
    ensures Take(keys, w, packet, maxLen) == With(w, TakenAll(keys, w.sent, w.rx, packet, maxLen), [])
  {
    hide PacketBytes, Genuine, GoodKeys, Taken, TakenAll, FaithfulRing, Meaningful, Ledger, InLog, OneVersion,
         Regular, Entered, FitsWire, SenderOk, BufferOk, DeliveredOk, AllBuildable;
    ReadyInRange(keys, w);
    assert GoodPacket(keys, w.sent, packet);
    var w1 := Next(keys, w, Receive(packet));
    assert w1 == w.(buffer := PacketBytes(packet));
    OpenTimesTakes(keys, w1, packet, maxLen, |packet|);
    assert packet[..|packet|] == packet && packet[|packet|..] == [];
    EmptyPacket();
  }

  lemma TakenTogether(keys: Keys, sent: seq<Message>, rx: Reader, xs: seq<Emission>, ys: seq<Emission>, maxLen: nat)
    requires Sendable(sent) && FaithfulRing(sent, rx.ring) && AllGenuine(keys, sent, xs) && AllGenuine(keys, sent, ys)
    ensures AllGenuine(keys, sent, xs + ys)
    ensures TakenAll(keys, sent, rx, xs + ys, maxLen)
            == TakenAll(keys, sent, TakenAll(keys, sent, rx, xs, maxLen), ys, maxLen)
    decreases |ys|
  {
    hide Genuine, Taken, FaithfulRing, Sendable;
    if |ys| == 0 {
      assert xs + ys == xs;
    } else {
      var n := |ys| - 1;
      TakenTogether(keys, sent, rx, xs, ys[..n], maxLen);
      assert (xs + ys)[..|xs + ys| - 1] == xs + ys[..n];
    }
  }

  lemma WithReader(keys: Keys, w: World, rx: Reader)
    requires Ready(keys, w) && FaithfulRing(w.sent, rx.ring) && rx.ring.readSeq == w.rx.ring.readSeq
    requires Orderly(keys, With(w, rx, []))
    ensures Ready(keys, With(w, rx, []))
  {
    hide Genuine, GoodKeys, SenderOk, NetworkOk, DeliveredOk, AllBuildable, FaithfulRing, Orderly;
    EmptyPacket();
    assert BufferOf(keys, w.sent, [], []);
  }

  /** Taking packet after packet lets all their records in one by one. */
  lemma {:induction false} TakeAllTakes(keys: Keys, w: World, packets: seq<seq<Emission>>, maxLen: nat)
    requires Ready(keys, w) && OneVersion(keys) && w.buffer == [] && Available(keys, w, packets)
    ensures InRange(w) && Sendable(w.sent) && AllGenuine(keys, w.sent, Stream(packets))
    ensures InLog(w.tx.writer, Stream(packets))
    ensures TakeAll(keys, w, packets, maxLen) == With(w, TakenAll(keys, w.sent, w.rx, Stream(packets), maxLen), [])
    ensures Ready(keys, TakeAll(keys, w, packets, maxLen))
    decreases |packets|
  {
    hide Ready, Genuine, TakenAll, FaithfulRing, OneVersion, AllRegular, Take, Inv, Orderly, InRange, Sendable;
    ReadyInRange(keys, w);
    ReadySendable(keys, w);
    if |packets| > 0 {
      var n := |packets| - 1;
      TakeAllTakes(keys, w, packets[..n], maxLen);
      var mid := TakeAll(keys, w, packets[..n], maxLen);
      TakeTakes(keys, mid, packets[n], maxLen);
      TakenTogether(keys, w.sent, w.rx, Stream(packets[..n]), packets[n], maxLen);
      ReadyOnNetwork(keys, w, packets[n]);
      ReadyOrderly(keys, w);
      WithReader(keys, w, TakenAll(keys, w.sent, w.rx, Stream(packets), maxLen));
    } else {
      NothingInLog(w.tx.writer);
      assert TakenAll(keys, w.sent, w.rx, [], maxLen) == w.rx by { NothingTaken(keys, w.sent, w.rx, maxLen); }
    }
  }

  lemma NothingTaken(keys: Keys, sent: seq<Message>, rx: Reader, maxLen: nat)
    requires Sendable(sent) && FaithfulRing(sent, rx.ring)
    ensures AllGenuine(keys, sent, []) && TakenAll(keys, sent, rx, [], maxLen) == rx
  {
  }

  lemma ReadySendable(keys: Keys, w: World)
    requires Ready(keys, w)
    ensures Sendable(w.sent) && FaithfulRing(w.sent, w.rx.ring) && GoodKeys(keys)
  {
  }

  lemma ReadyOrderly(keys: Keys, w: World)
    requires Ready(keys, w)
    ensures Ledger(keys, w.tx.writer) && Meaningful(w.rx.window)
  {
  }

  lemma ReadyOnNetwork(keys: Keys, w: World, packet: seq<Emission>)
    requires Ready(keys, w) && packet in w.network
    ensures InLog(w.tx.writer, packet) && GoodPacket(keys, w.sent, packet)
  {
  }

  /** What the ring holds after any packets were taken, in terms of the fragments they let in: a message of the window is
      whole exactly if they cover what was missing. */
  lemma WholeIffTaken(keys: Keys, w: World, packets: seq<seq<Emission>>, maxLen: nat, q: nat)
    requires Ready(keys, w) && OneVersion(keys) && w.buffer == [] && Available(keys, w, packets)
    requires AllShort(w.sent, maxLen) && w.rx.epoch != 1 && InWindow(w.rx.ring, q) && q < |w.sent|
    ensures InRange(w) && Sendable(w.sent) && AllGenuine(keys, w.sent, Stream(packets))
    ensures InRange(TakeAll(keys, w, packets, maxLen))
    ensures var entering := Entering(keys, w.sent, w.rx, Stream(packets), maxLen);
            Holds(w.sent, TakeAll(keys, w, packets, maxLen).rx.ring, q) <==>
            && (w.rx.ring.slots[q % SLOTS].Some? || Seen(entering, q))
            && forall i :: 0 <= i < |w.sent[q].body| ==> Knows(w.rx.ring, q, i) || Touched(entering, q, i)
  {
    hide Ready, AllGenuine, TakenAll, FaithfulRing, OneVersion, Available, TakeAll, Holds, Knows, Touched, Seen, Entering,
         AllPossible, AllShort, Absorb, Sendable, InRange, InWindow, InLog;
    TakeAllTakes(keys, w, packets, maxLen);
    ReadyInRange(keys, w);
    ReadySendable(keys, w);
    TakenIsAbsorbed(keys, w.sent, w.rx, Stream(packets), maxLen);
    assert AllBuildable(w.sent) && |w.sent| <= 0x1_0000 by { SendableMeans(w.sent); }
    WholeIffCovered(w.sent, w.rx.ring, Entering(keys, w.sent, w.rx, Stream(packets), maxLen), maxLen, q);
  }

  lemma SendableMeans(sent: seq<Message>)
    requires Sendable(sent)
    ensures AllBuildable(sent) && |sent| <= 0x1_0000
  {
  }

  // Whole flights.

  /** A record comes among others, and is not stale by then. */
  ghost predicate ComesInTime(keys: Keys, sent: seq<Message>, rx: Reader, es: seq<Emission>, maxLen: nat, s: Sealed)
    requires Sendable(sent) && FaithfulRing(sent, rx.ring) && AllGenuine(keys, sent, es)
  {
    exists k :: 0 <= k < |es| && es[k].sealed == s
                && !ReplayWindow.Stale(NumberOf(s), TakenAll(keys, sent, rx, es[..k], maxLen).window.max)
  }

  /** Each record of a flight comes in time to a receiver that has not met it before. */
  ghost predicate FlightComes(keys: Keys, sent: seq<Message>, rx: Reader, es: seq<Emission>, maxLen: nat, flight: seq<Emission>)
    requires Sendable(sent) && FaithfulRing(sent, rx.ring) && AllGenuine(keys, sent, es)
  {
    forall j :: 0 <= j < |flight| ==>
      Admits(rx, flight[j].sealed) && ComesInTime(keys, sent, rx, es, maxLen, flight[j].sealed)
  }

  /** What an emission of a flight says it carries is what its plaintext carries. */
  lemma CarriedPiece(sent: seq<Message>, t: Flight, first: nat, e: Emission)
    requires AllBuildable(sent) && |sent| < 0x1_0000 && FlightOf(sent, t, first)
    requires e.index < |t.messages| && Carries(t.messages[e.index], e)
    ensures e.sealed.contentType == HANDSHAKE && IsPiece(sent, e.sealed.plain)
    ensures ArrivalOf(sent, e.sealed.plain) == Arrival(first + e.index, e.off, e.len)
  {
    hide Whole, FragmentBytes, ParseFragment, RawMessage, IsRaw;
    var m, q := t.messages[e.index], first + e.index;
    WholeOfMessage(sent, m, q);
    assert Cut(Whole(m), e.off, e.len) == PieceOf(sent, q, e.off, e.len);
    assert IsPieceAt(sent, e.sealed.plain, q, e.off, e.len);
    OnePiece(sent, e.sealed.plain, q, e.off, e.len);
  }

  lemma FlightEnters(keys: Keys, w: World, t: Flight, flight: seq<Emission>, first: nat, es: seq<Emission>, maxLen: nat)
    requires Ready(keys, w) && !w.tx.writer.exhausted && Sendable(w.sent) && FaithfulRing(w.sent, w.rx.ring)
    requires AllGenuine(keys, w.sent, es) && InLog(w.tx.writer, es)
    requires FlightOf(w.sent, t, first) && AllCarry(t.messages, flight)
    requires FlightComes(keys, w.sent, w.rx, es, maxLen, flight)
    ensures AllArrived(flight, first, Entering(keys, w.sent, w.rx, es, maxLen))
  {
    hide Ready, Genuine, TakenAll, FaithfulRing, FlightOf, Carries, InLog, Ledger, Meaningful, ArrivalOf, IsPiece, Entering,
         Admits, ReplayWindow.Stale, AllBuildable;
    ReadyOrderly(keys, w);
    ReadyCount(keys, w);
    forall j | 0 <= j < |flight|
      ensures Arrival(first + flight[j].index, flight[j].off, flight[j].len) in Entering(keys, w.sent, w.rx, es, maxLen)
    {
      var s := flight[j].sealed;
      CarriedPiece(w.sent, t, first, flight[j]);
      assert ComesInTime(keys, w.sent, w.rx, es, maxLen, s);
      var k :| 0 <= k < |es| && es[k].sealed == s
               && !ReplayWindow.Stale(NumberOf(s), TakenAll(keys, w.sent, w.rx, es[..k], maxLen).window.max);
      InTimeEnters(keys, w.sent, w.rx, es, maxLen, w.tx.writer, k);
    }
  }

  lemma ReadyCount(keys: Keys, w: World)
    requires Ready(keys, w)
    ensures |w.sent| < 0x1_0000
  {
  }

  /** A flight that was sent to its end gets through: as soon as each of its records has come in time, in any order, among
      any others and however often, each of its messages is whole in the ring of the receiver that waits for it. */
  lemma FlightGetsThrough(keys: Keys, w: World, t: Flight, mtu: nat, writes: seq<int>, first: nat,
                          packets: seq<seq<Emission>>, maxLen: nat, m: nat)
    requires Ready(keys, w) && OneVersion(keys) && !w.tx.writer.exhausted && w.buffer == []
    requires Available(keys, w, packets) && AllShort(w.sent, maxLen) && w.rx.epoch != 1
    requires FlightOf(w.sent, t, first) && WellFormed(t) && t.written == 0 && t.offset == 0
    requires SendLoop(t, mtu, writes).outcome.Done?
    requires w.rx.ring.readSeq <= first && first + |t.messages| <= w.rx.ring.readSeq + SLOTS && m < |t.messages|
    requires Sendable(w.sent) && FaithfulRing(w.sent, w.rx.ring) && AllGenuine(keys, w.sent, Stream(packets)) && InRange(w)
    requires FlightComes(keys, w.sent, w.rx, Stream(packets), maxLen, Flatten(SendLoop(t, mtu, writes).packets))
    ensures Holds(w.sent, TakeAll(keys, w, packets, maxLen).rx.ring, first + m)
  {
    hide Ready, AllGenuine, TakenAll, FaithfulRing, OneVersion, Available, TakeAll, Holds, Entering, Sendable, FlightComes,
         AllPossible, AllShort, Absorb, InRange, InLog, SendLoop, Flatten, WellFormed, Chain, EndOf, AllArrived;
    var flight, es := Flatten(SendLoop(t, mtu, writes).packets), Stream(packets);
    SendLoopWrites(t, mtu, writes);
    TakeAllTakes(keys, w, packets, maxLen);
    FlightEnters(keys, w, t, flight, first, es, maxLen);
    TakenIsAbsorbed(keys, w.sent, w.rx, es, maxLen);
    SendableMeans(w.sent);
    FlightReassembled(w.sent, t, mtu, writes, first, w.rx.ring, Entering(keys, w.sent, w.rx, es, maxLen), maxLen, m);
  }

  // Delivery.

  /** The messages from lo up to hi are whole in the ring. */
  ghost predicate HoldsAll(sent: seq<Message>, r: Ring, lo: nat, hi: nat)
    requires WellPlaced(r) && hi <= |sent|
  {
    forall q :: lo <= q < hi ==> Holds(sent, r, q)
  }

  ghost function DeliverTimes(keys: Keys, w: World, n: nat): (w': World)
    requires InRange(w)
    ensures InRange(w')
    decreases n
  {
    if n == 0 then w else DeliverTimes(keys, Next(keys, w, Deliver), n - 1)
  }

  lemma DeliverOnce(keys: Keys, w: World, hi: nat)
    requires Ready(keys, w) && InRange(w) && OneVersion(keys)
    requires w.rx.ring.readSeq < hi <= |w.sent| && hi <= w.rx.ring.readSeq + SLOTS
    requires HoldsAll(w.sent, w.rx.ring, w.rx.ring.readSeq, hi)
    ensures var w', r := Next(keys, w, Deliver), w.rx.ring;
            && Ready(keys, w') && w'.sent == w.sent && w'.rx.ring.readSeq == r.readSeq + 1
            && HoldsAll(w.sent, w'.rx.ring, r.readSeq + 1, hi)
  {
    hide RawMessage, Orderly, GoodKeys, OneVersion, Inv, Complete;
    var r := w.rx.ring;
    assert WellPlaced(r) by { PlacedIfInRange(w); }
    assert Holds(w.sent, r, r.readSeq);
    assert CurrentComplete(r);
    assert |w.sent| < 0x1_0000;
    DeliverKeepsInv(keys, w);
    StepOrderly(keys, w, Deliver);
    hide Holds, HoldsAll;
    AdvanceHolds(w.sent, r, hi);
  }

  lemma AdvanceHolds(sent: seq<Message>, r: Ring, hi: nat)
    requires WellPlaced(r) && r.readSeq < hi <= |sent| && hi <= r.readSeq + SLOTS && HoldsAll(sent, r, r.readSeq, hi)
    ensures HoldsAll(sent, Advance(r), r.readSeq + 1, hi)
  {
    hide Complete, RawMessage, RawOf;
    forall q | r.readSeq + 1 <= q < hi
      ensures Holds(sent, Advance(r), q)
    {
      assert Holds(sent, r, q);
      if q % SLOTS == r.readSeq % SLOTS {
        SameWindowSlot(r.readSeq, r.readSeq, q);
      }
    }
  }

  lemma ReadyDelivered(keys: Keys, w: World)
    requires Ready(keys, w)
    ensures |w.delivered| == w.rx.ring.readSeq <= |w.sent| && InRange(w)
    ensures forall k :: 0 <= k < |w.delivered| ==> w.delivered[k] == RawOf(w.sent, k)
  {
  }

  /** Messages that are whole at the front of the ring are delivered by as many calls: exactly the ones that were sent. */
  lemma {:induction false} DeliversWhole(keys: Keys, w: World, n: nat)
    requires Ready(keys, w) && InRange(w) && OneVersion(keys)
    requires n <= SLOTS && w.rx.ring.readSeq + n <= |w.sent|
    requires HoldsAll(w.sent, w.rx.ring, w.rx.ring.readSeq, w.rx.ring.readSeq + n)
    ensures var w' := DeliverTimes(keys, w, n);
            && Ready(keys, w') && w'.sent == w.sent
            && |w'.delivered| == |w.delivered| + n <= |w.sent|
            && forall k :: 0 <= k < |w'.delivered| ==> w'.delivered[k] == RawOf(w.sent, k)
    decreases n
  {
    hide Ready, Next, InRange, OneVersion, RawOf, HoldsAll;
    ReadyDelivered(keys, w);
    if n > 0 {
      DeliverOnce(keys, w, w.rx.ring.readSeq + n);
      ReadyDelivered(keys, Next(keys, w, Deliver));
      DeliversWhole(keys, Next(keys, w, Deliver), n - 1);
    }
  }

  lemma PlacedIfInRange(w: World)
    requires InRange(w)
    ensures WellPlaced(w.rx.ring)
  {
  }

  /** Every run leads to a world in which this holds. */
  lemma RunIsReady(keys: Keys, steps: seq<DtlsProtocol.Step>)
    requires GoodKeys(keys) && OneVersion(keys) && |DtlsProtocol.Run(keys, steps).sent| < 0x1_0000
    ensures Ready(keys, DtlsProtocol.Run(keys, steps))
  {
    RunInv(keys, steps);
    RunOrderly(keys, steps);
    hide Inv, Orderly, DtlsProtocol.Run, GoodKeys, OneVersion;
  }

  /** Both together: at any point of a run, a flight whose records all come in time to a receiver that waits for it is
      delivered, message by message as it was sent. */
  lemma FlightDelivered(keys: Keys, w: World, t: Flight, mtu: nat, writes: seq<int>, packets: seq<seq<Emission>>, maxLen: nat)
    requires Ready(keys, w) && OneVersion(keys) && !w.tx.writer.exhausted && w.buffer == []
    requires Available(keys, w, packets) && AllShort(w.sent, maxLen) && w.rx.epoch != 1
    requires InRange(w) && FlightOf(w.sent, t, w.rx.ring.readSeq) && |t.messages| <= SLOTS
    requires WellFormed(t) && t.written == 0 && t.offset == 0 && SendLoop(t, mtu, writes).outcome.Done?
    requires Sendable(w.sent) && FaithfulRing(w.sent, w.rx.ring) && AllGenuine(keys, w.sent, Stream(packets))
    requires FlightComes(keys, w.sent, w.rx, Stream(packets), maxLen, Flatten(SendLoop(t, mtu, writes).packets))
    ensures var w' := DeliverTimes(keys, TakeAll(keys, w, packets, maxLen), |t.messages|);
            && |w'.delivered| == |w.delivered| + |t.messages| <= |w.sent|
            && forall k :: 0 <= k < |w'.delivered| ==> w'.delivered[k] == RawOf(w.sent, k)
  {
    hide Ready, AllGenuine, TakenAll, FaithfulRing, OneVersion, Available, TakeAll, Holds, Sendable, FlightComes,
         AllShort, InRange, InLog, SendLoop, Flatten, WellFormed, DeliverTimes, RawOf, AllBuildable;
    var first, n := w.rx.ring.readSeq, |t.messages|;
    TakeAllTakes(keys, w, packets, maxLen);
    var w' := TakeAll(keys, w, packets, maxLen);
    ReadyDelivered(keys, w');
    assert WellPlaced(w'.rx.ring) by { PlacedIfInRange(w'); }
    forall q | first <= q < first + n
      ensures Holds(w.sent, w'.rx.ring, q)
    {
      FlightGetsThrough(keys, w, t, mtu, writes, first, packets, maxLen, q - first);
      assert first + (q - first) == q;
    }
    ReadyDelivered(keys, w);
    DeliversWhole(keys, w', n);
  }
}
