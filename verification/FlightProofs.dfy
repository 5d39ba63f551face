/** What the outgoing flight guarantees: the fragments written are consecutive pieces of the queued messages, without
    gaps and without overlap, in packets no larger than the MTU, each under the epoch its message was queued with. */
module FlightProofs {
  import opened Bytes
  import opened HandshakeHeader
  import opened DtlsRecord
  import opened DtlsSeal
  import opened DtlsFlight

  /** A position in a flight: so many messages, and so many body octets of the next one. */
  datatype Pos = Pos(index: nat, off: nat)

  predicate Before(a: Pos, b: Pos) {
    a.index < b.index || (a.index == b.index && a.off < b.off)
  }

  /** Where the flight stands after an emission at position p. */
  function After(messages: seq<Outgoing>, p: Pos, e: Emission): Pos {
    if p.index < |messages| && p.off + e.len < BodyLength(messages[p.index]) then Pos(p.index, p.off + e.len)
    else Pos(p.index + 1, 0)
  }

  /** e is the next piece of the flight at p: it starts there, stays inside the message and makes progress. */
  predicate Follows(messages: seq<Outgoing>, p: Pos, e: Emission) {
    && p.index < |messages|
    && e.index == p.index && e.off == p.off
    && p.off + e.len <= BodyLength(messages[p.index])
    && (e.len == 0 ==> BodyLength(messages[p.index]) == 0)
  }

  function EndOf(messages: seq<Outgoing>, p: Pos, es: seq<Emission>): Pos {
    if |es| == 0 then p else After(messages, EndOf(messages, p, es[..|es| - 1]), es[|es| - 1])
  }

  /** The emissions follow one another from position p on. */
  predicate Chain(messages: seq<Outgoing>, p: Pos, es: seq<Emission>)
  {
    |es| == 0 ||
    (Chain(messages, p, es[..|es| - 1]) && Follows(messages, EndOf(messages, p, es[..|es| - 1]), es[|es| - 1]))
  }

  lemma ChainSnoc(messages: seq<Outgoing>, p: Pos, es: seq<Emission>, e: Emission)
    requires Chain(messages, p, es) && Follows(messages, EndOf(messages, p, es), e)
    ensures Chain(messages, p, es + [e])
    ensures EndOf(messages, p, es + [e]) == After(messages, EndOf(messages, p, es), e)
  {
    assert (es + [e])[..|es|] == es;
  }

  lemma {:induction false} ChainConcat(messages: seq<Outgoing>, p: Pos, xs: seq<Emission>, ys: seq<Emission>)
    requires Chain(messages, p, xs) && Chain(messages, EndOf(messages, p, xs), ys)
    ensures Chain(messages, p, xs + ys)
    ensures EndOf(messages, p, xs + ys) == EndOf(messages, EndOf(messages, p, xs), ys)
    decreases |ys|
  {
    if |ys| == 0 {
      assert xs + ys == xs;
    } else {
      var front, last := ys[..|ys| - 1], ys[|ys| - 1];
      ChainConcat(messages, p, xs, front);
      ChainSnoc(messages, p, xs + front, last);
      assert xs + ys == xs + front + [last];
    }
  }

  // The content of an emission.

  /** The whole message that a queued one stands for. */
  ghost function Whole(m: Outgoing): (f: Fragment)
    requires !m.isCcs && IsRaw(m.data)
    ensures |f.body| == BodyLength(m) && f.hdr.msgLen == |f.body| && f.hdr.fragOff == 0 && Fits(f.hdr)
    ensures ParseFragment(m.data) == Some((f, []))
    ensures m.data == RawMessage(f.hdr.msgType, f.hdr.seqNum, f.body)
  {
    var msgType: nat, seqNum: nat, body: seq<Byte> :| IsRawOf(m.data, msgType, seqNum, body);
    var f := Fragment(Header(msgType, |body|, seqNum, 0, |body|), body);
    FragmentRoundTrip(f, []);
    assert FragmentBytes(f) + [] == m.data;
    f
  }

  /** e carries what it says it carries of message m: the octets [off, off + len), under the epoch of m. */
  ghost predicate Carries(m: Outgoing, e: Emission) {
    && (m.isCcs || IsRaw(m.data))
    && e.off + e.len <= BodyLength(m)
    && e.sealed.epoch == m.epoch
    && e.sealed.contentType == (if m.isCcs then CHANGE_CIPHER_SPEC else HANDSHAKE)
    && e.sealed.plain == if m.isCcs then CCS_BODY else FragmentBytes(Cut(Whole(m), e.off, e.len))
  }

  ghost predicate AllCarry(messages: seq<Outgoing>, es: seq<Emission>) {
    forall k :: 0 <= k < |es| ==> es[k].index < |messages| && Carries(messages[es[k].index], es[k])
  }

  // One message, one packet.

  /** What a successful seal of the next message looks like. */
  ghost predicate Cuts(t: Flight, t': Flight, p: Progress)
    requires t.written < |t.messages| && (t.messages[t.written].isCcs || IsRaw(t.messages[t.written].data))
    requires p.PartlySealed? || p.WhollySealed?
  {
    var m, e := t.messages[t.written], p.emission;
    && e.index == t.written && e.off == t.offset && e.off + e.len <= BodyLength(m)
    && (p.WhollySealed? <==> e.off + e.len == BodyLength(m))
    && (e.len == 0 ==> e.off == BodyLength(m))
    && t'.offset == (if p.WhollySealed? then 0 else e.off + e.len)
    && e.sealed.epoch == m.epoch
    && e.sealed.contentType == (if m.isCcs then CHANGE_CIPHER_SPEC else HANDSHAKE)
    && e.sealed.plain == if m.isCcs then CCS_BODY else FragmentBytes(Cut(Whole(m), e.off, e.len))
  }

  lemma CcsCuts(t: Flight, maxOut: nat)
    requires WellFormed(t) && t.written < |t.messages| && t.messages[t.written].isCcs
    ensures var (t', p) := SealNextMessage(t, maxOut);
            p.PartlySealed? || p.WhollySealed? ==> Cuts(t, t', p)
  {
    hide SealRecord, ParseFragment, FragmentBytes, IsRaw, Sound;
  }

  lemma MessageCuts(t: Flight, maxOut: nat)
    requires WellFormed(t) && t.written < |t.messages| && !t.messages[t.written].isCcs
    ensures var (t', p) := SealNextMessage(t, maxOut);
            p.PartlySealed? || p.WhollySealed? ==> Cuts(t, t', p)
  {
    var whole := Whole(t.messages[t.written]);
    hide SealRecord, ParseFragment, FragmentBytes, IsRaw, Sound, Cut, Whole;
  }

  /** Sealing the next message emits exactly the next piece, with its content, and moves the position past it. */
  lemma SealNextFollows(t: Flight, maxOut: nat)
    requires WellFormed(t) && t.written < |t.messages|
    ensures var (t', p) := SealNextMessage(t, maxOut);
            var here := Pos(t.written, t.offset);
            && (p.PartlySealed? || p.WhollySealed? ==>
                  Follows(t.messages, here, p.emission) && Carries(t.messages[t.written], p.emission))
            && (p.PartlySealed? ==>
                  After(t.messages, here, p.emission) == Pos(t'.written, t'.offset) && WellFormed(t'))
            && (p.WhollySealed? ==>
                  && After(t.messages, here, p.emission) == Pos(t'.written + 1, 0) && t'.offset == 0
                  && WellFormed(t'.(written := t'.written + 1)))
  {
    hide SealNextMessage, IsRaw, FragmentBytes, Sound, Cut, Whole;
    if t.messages[t.written].isCcs {
      CcsCuts(t, maxOut);
    } else {
      MessageCuts(t, maxOut);
    }
  }

  lemma AllCarrySnoc(messages: seq<Outgoing>, es: seq<Emission>, e: Emission)
    requires AllCarry(messages, es) && e.index < |messages| && Carries(messages[e.index], e)
    ensures AllCarry(messages, es + [e])
  {
    hide Carries;
  }

  lemma OctetsSnoc(es: seq<Emission>, e: Emission)
    ensures Octets(es + [e]) == Octets(es) + WireLength(e.sealed)
  {
    assert (es + [e])[..|es|] == es;
  }

  /** A packet under construction: the flight is at t, acc has been sealed since start, and there is room left. */
  ghost predicate Packing(t: Flight, start: Pos, acc: seq<Emission>, room: nat, mtu: nat) {
    && WellFormed(t)
    && Chain(t.messages, start, acc) && EndOf(t.messages, start, acc) == Pos(t.written, t.offset)
    && AllCarry(t.messages, acc)
    && Octets(acc) + room <= mtu
  }

  lemma PackingStep(t: Flight, start: Pos, acc: seq<Emission>, room: nat, mtu: nat)
    requires Packing(t, start, acc, room, mtu) && t.written < |t.messages|
    ensures var (t', p) := SealNextMessage(t, room);
            && (p.SealError? ==> WellFormed(t'))
            && (p.PartlySealed? ==> Packing(t', start, acc + [p.emission], 0, mtu))
            && (p.WhollySealed? ==>
                  Packing(t'.(written := t'.written + 1), start, acc + [p.emission], room - WireLength(p.emission.sealed), mtu))
  {
    SealNextFollows(t, room);
    var (t', p) := SealNextMessage(t, room);
    assert p.SealError? ==> WellFormed(t') by {
      hide SealNextMessage;
    }
    if p.PartlySealed? || p.WhollySealed? {
      assert p.emission.index == t.written;
      hide SealNextMessage, Carries, WellFormed, Follows, Chain, EndOf, Octets, After;
      ChainSnoc(t.messages, start, acc, p.emission);
      AllCarrySnoc(t.messages, acc, p.emission);
      OctetsSnoc(acc, p.emission);
    }
  }

  lemma PackingNoRoom(t: Flight, start: Pos, acc: seq<Emission>, room: nat, mtu: nat)
    requires Packing(t, start, acc, room, mtu)
    ensures Packing(t, start, acc, 0, mtu) && WellFormed(t)
  {
    hide WellFormed, Chain, EndOf, AllCarry, Octets;
  }

  /** One step of packing. */
  lemma SealPacketUnfolded(t: Flight, room: nat, acc: seq<Emission>)
    requires t.written <= |t.messages|
    ensures t.written == |t.messages| ==> SealPacket(t, room, acc) == (t, Finish(acc))
    ensures t.written < |t.messages| ==>
              var (t', p) := SealNextMessage(t, room);
              SealPacket(t, room, acc) ==
              if p.SealError? then (t', None)
              else if p.NoProgress? then (t, Finish(acc))
              else if p.PartlySealed? then (t', Some(acc + [p.emission]))
              else SealPacket(t'.(written := t'.written + 1), room - WireLength(p.emission.sealed), acc + [p.emission])
  {
    hide SealNextMessage;
  }

  ghost predicate Packed(r: (Flight, Option<seq<Emission>>), start: Pos, mtu: nat) {
    WellFormed(r.0) && (r.1.Some? ==> |r.1.value| > 0 && Packing(r.0, start, r.1.value, 0, mtu))
  }

  lemma {:induction false} SealPacketPacks(t: Flight, room: nat, acc: seq<Emission>, start: Pos, mtu: nat)
    requires t.written <= |t.messages| && Packing(t, start, acc, room, mtu)
    ensures Packed(SealPacket(t, room, acc), start, mtu)
    decreases |t.messages| - t.written
  {
    hide SealNextMessage, SealPacket, Packing, WellFormed;
    PackingNoRoom(t, start, acc, room, mtu);
    SealPacketUnfolded(t, room, acc);
    assert Packed((t, Finish(acc)), start, mtu);
    if t.written < |t.messages| {
      PackingStep(t, start, acc, room, mtu);
      var (t', p) := SealNextMessage(t, room);
      if p.WhollySealed? {
        SealPacketPacks(t'.(written := t'.written + 1), room - WireLength(p.emission.sealed), acc + [p.emission], start, mtu);
      } else if p.PartlySealed? {
        PackingNoRoom(t', start, acc + [p.emission], 0, mtu);
        assert Packed((t', Some(acc + [p.emission])), start, mtu);
      }
    }
  }

  // The whole flight.

  function Flatten(packets: seq<seq<Emission>>): seq<Emission> {
    if |packets| == 0 then [] else packets[0] + Flatten(packets[1..])
  }

  /** Every packet fits the MTU. */
  predicate WithinMtu(packets: seq<seq<Emission>>, mtu: nat) {
    forall k :: 0 <= k < |packets| ==> 0 < |packets[k]| && Octets(packets[k]) <= mtu
  }

  /** The packets are consecutive pieces of the flight from start on, each with its content and within the MTU. */
  ghost predicate Written(messages: seq<Outgoing>, start: Pos, packets: seq<seq<Emission>>, mtu: nat) {
    Chain(messages, start, Flatten(packets)) && AllCarry(messages, Flatten(packets)) && WithinMtu(packets, mtu)
  }

  lemma AllCarryConcat(messages: seq<Outgoing>, xs: seq<Emission>, ys: seq<Emission>)
    requires AllCarry(messages, xs) && AllCarry(messages, ys)
    ensures AllCarry(messages, xs + ys)
  {
    hide Carries;
  }

  lemma WrittenCons(messages: seq<Outgoing>, start: Pos, packet: seq<Emission>, packets: seq<seq<Emission>>, mtu: nat)
    requires Chain(messages, start, packet) && AllCarry(messages, packet) && 0 < |packet| && Octets(packet) <= mtu
    requires Written(messages, EndOf(messages, start, packet), packets, mtu)
    ensures Written(messages, start, [packet] + packets, mtu)
    ensures EndOf(messages, start, Flatten([packet] + packets))
            == EndOf(messages, EndOf(messages, start, packet), Flatten(packets))
  {
    hide AllCarry, Chain, EndOf, Octets;
    ChainConcat(messages, start, packet, Flatten(packets));
    AllCarryConcat(messages, packet, Flatten(packets));
    assert ([packet] + packets)[1..] == packets;
  }

  /** Whatever the transport answers, the packets written are consecutive pieces of the flight from the saved position
      on, each within the MTU; and unless a seal failed, the flight's position is exactly the end of what was written:
      a failed write has rewound to the start of its packet. A flight that is done has written everything. */
  lemma {:induction false} SendLoopWrites(t: Flight, mtu: nat, writes: seq<int>)
    requires WellFormed(t)
    ensures var r := SendLoop(t, mtu, writes);
            var start := Pos(t.written, t.offset);
            && r.flight.messages == t.messages && WellFormed(r.flight)
            && Written(t.messages, start, r.packets, mtu)
            && (!r.outcome.SealFailed? ==>
                  EndOf(t.messages, start, Flatten(r.packets)) == Pos(r.flight.written, r.flight.offset))
            && (r.outcome.Done? ==> Pos(r.flight.written, r.flight.offset) == Pos(|t.messages|, 0))
    decreases |writes|
  {
    if t.written < |t.messages| {
      var start := Pos(t.written, t.offset);
      SealPacketPacks(t, mtu, [], start, mtu);
      var (t', packet) := SealPacket(t, mtu, []);
      if packet.Some? && NextWrite(writes) > 0 {
        SendLoopWrites(t', mtu, LaterWrites(writes));
        hide SealPacket, Written, WellFormed, Chain, EndOf, AllCarry, Octets;
        WrittenCons(t.messages, start, packet.value, SendLoop(t', mtu, LaterWrites(writes)).packets, mtu);
      }
    }
  }

  /** e carries octet i of the body of message m. */
  predicate Hits(e: Emission, m: nat, i: nat) {
    e.index == m && e.off <= i < e.off + e.len
  }

  ghost predicate Hit(es: seq<Emission>, m: nat, i: nat) {
    exists k :: 0 <= k < |es| && Hits(es[k], m, i)
  }

  lemma {:induction false} ChainAdvances(messages: seq<Outgoing>, p: Pos, es: seq<Emission>)
    requires Chain(messages, p, es)
    ensures |es| == 0 || Before(p, EndOf(messages, p, es))
  {
    if |es| > 1 {
      ChainAdvances(messages, p, es[..|es| - 1]);
    } else if |es| == 1 {
      assert EndOf(messages, p, es[..0]) == p;
    }
  }

  /** In a chain from p, an octet of the flight is carried exactly when it lies between p and the end of the chain, and
      never twice: no gaps, no overlaps, nothing outside. */
  lemma {:induction false} ExactlyOnce(messages: seq<Outgoing>, p: Pos, es: seq<Emission>, m: nat, i: nat)
    requires Chain(messages, p, es)
    requires m < |messages| && i < BodyLength(messages[m])
    ensures Hit(es, m, i) <==> !Before(Pos(m, i), p) && Before(Pos(m, i), EndOf(messages, p, es))
    ensures forall j, k :: 0 <= j < k < |es| ==> !(Hits(es[j], m, i) && Hits(es[k], m, i))
  {
    if |es| > 0 {
      var n := |es| - 1;
      var front, last := es[..n], es[n];
      ExactlyOnce(messages, p, front, m, i);
      ChainAdvances(messages, p, front);
      assert Hit(es, m, i) <==> Hit(front, m, i) || Hits(last, m, i) by {
        HitSnoc(es, m, i);
      }
      forall j, k | 0 <= j < k < |es|
        ensures !(Hits(es[j], m, i) && Hits(es[k], m, i))
      {
        if k < n {
          assert !(Hits(front[j], m, i) && Hits(front[k], m, i));
        } else if Hits(es[j], m, i) {
          assert Hits(front[j], m, i);
          assert Hit(front, m, i);
        }
      }
    }
  }

  lemma HitSnoc(es: seq<Emission>, m: nat, i: nat)
    requires |es| > 0
    ensures Hit(es, m, i) <==> Hit(es[..|es| - 1], m, i) || Hits(es[|es| - 1], m, i)
  {
    var n := |es| - 1;
    if k :| 0 <= k < n && Hits(es[..n][k], m, i) {
      assert Hits(es[k], m, i);
    }
    if k :| 0 <= k < n && Hits(es[k], m, i) {
      assert Hits(es[..n][k], m, i);
    }
  }

  /** A packet always moves the flight forward: fewer messages are left, or as many with fewer octets left. An empty body
      counts as one step. */
  lemma PacketAdvances(t: Flight, mtu: nat)
    requires WellFormed(t)
    ensures var (t', packet) := SealPacket(t, mtu, []);
            packet.Some? ==> Before(Pos(t.written, t.offset), Pos(t'.written, t'.offset)) && WellFormed(t')
  {
    var start := Pos(t.written, t.offset);
    assert t.written <= |t.messages|;
    hide SealPacket, WellFormed, AllCarry;
    SealPacketPacks(t, mtu, [], start, mtu);
    var (t', packet) := SealPacket(t, mtu, []);
    if packet.Some? {
      ChainAdvances(t.messages, start, packet.value);
    }
  }

  /** A flight sent to the end from its beginning carries every octet of every body, and carries it once. */
  lemma DoneMeansAll(t: Flight, mtu: nat, writes: seq<int>, m: nat, i: nat)
    requires WellFormed(t) && t.written == 0 && t.offset == 0
    requires SendLoop(t, mtu, writes).outcome.Done?
    requires m < |t.messages| && i < BodyLength(t.messages[m])
    ensures var es := Flatten(SendLoop(t, mtu, writes).packets);
            && Hit(es, m, i)
            && (forall j, k :: 0 <= j < k < |es| ==> !(Hits(es[j], m, i) && Hits(es[k], m, i)))
  {
    SendLoopWrites(t, mtu, writes);
    var es := Flatten(SendLoop(t, mtu, writes).packets);
    ExactlyOnce(t.messages, Pos(0, 0), es, m, i);
    assert Hit(es, m, i);
  }
}
