/** What the receiver makes of a flight that does reach it: once the fragments that arrived cover a message, in whatever
    order and however often they came, the message is complete and is the one that was sent. */
module DtlsProgress {
  import opened Bytes
  import opened HandshakeHeader
  import opened IncomingMessage
  import opened IncomingRing
  import opened DtlsRecord
  import opened DtlsSeal
  import opened DtlsFlight
  import opened FlightProofs
  import opened DtlsProtocol

  /** A fragment that arrives: octets [off, off + len) of message q. */
  datatype Arrival = Arrival(q: nat, off: nat, len: nat)

  predicate Possible(sent: seq<Message>, a: Arrival, maxLen: nat) {
    a.q < |sent| && a.off + a.len <= |sent[a.q].body| <= maxLen
  }

  predicate AllPossible(sent: seq<Message>, arrivals: seq<Arrival>, maxLen: nat) {
    forall k :: 0 <= k < |arrivals| ==> Possible(sent, arrivals[k], maxLen)
  }

  /** The ring after a number of fragments in the first epoch. */
  ghost function Absorb(sent: seq<Message>, r: Ring, arrivals: seq<Arrival>, maxLen: nat): (r': Ring)
    requires FaithfulRing(sent, r) && |sent| <= 0x1_0000 && AllBuildable(sent) && AllPossible(sent, arrivals, maxLen)
    ensures FaithfulRing(sent, r') && r'.readSeq == r.readSeq
    decreases |arrivals|
  {
    if |arrivals| == 0 then r
    else
      var n := |arrivals| - 1;
      var before := Absorb(sent, r, arrivals[..n], maxLen);
      var a := arrivals[n];
      AcceptGenuine(sent, before, a.q, a.off, a.len, maxLen, 0);
      Accept(before, PieceOf(sent, a.q, a.off, a.len), maxLen, 0).0
  }

  predicate Touches(a: Arrival, q: nat, i: nat) {
    a.q == q && a.off <= i < a.off + a.len
  }

  ghost predicate Touched(arrivals: seq<Arrival>, q: nat, i: nat) {
    exists k :: 0 <= k < |arrivals| && Touches(arrivals[k], q, i)
  }

  ghost predicate Seen(arrivals: seq<Arrival>, q: nat) {
    exists k :: 0 <= k < |arrivals| && arrivals[k].q == q
  }

  lemma SeenSnoc(arrivals: seq<Arrival>, q: nat, i: nat)
    requires |arrivals| > 0
    ensures Seen(arrivals, q) <==> Seen(arrivals[..|arrivals| - 1], q) || arrivals[|arrivals| - 1].q == q
    ensures Touched(arrivals, q, i) <==> Touched(arrivals[..|arrivals| - 1], q, i) || Touches(arrivals[|arrivals| - 1], q, i)
  {
    var n := |arrivals| - 1;
    if k :| 0 <= k < n && arrivals[..n][k].q == q {
      assert arrivals[k].q == q;
    }
    if k :| 0 <= k < n && arrivals[k].q == q {
      assert arrivals[..n][k].q == q;
    }
    if k :| 0 <= k < n && Touches(arrivals[..n][k], q, i) {
      assert Touches(arrivals[k], q, i);
    }
    if k :| 0 <= k < n && Touches(arrivals[k], q, i) {
      assert Touches(arrivals[..n][k], q, i);
    }
  }

  predicate InWindow(r: Ring, q: nat) {
    r.readSeq <= q < r.readSeq + SLOTS
  }

  /** Octet i of message q is known to the ring. */
  predicate Knows(r: Ring, q: nat, i: nat)
    requires WellPlaced(r)
  {
    var slot := r.slots[q % SLOTS];
    slot.Some? && i < |slot.value.body| && slot.value.body[i].Some?
  }

  /** A slot of the window never holds any message but its own. */
  lemma OwnSlot(sent: seq<Message>, r: Ring, a: Arrival, q: nat)
    requires FaithfulRing(sent, r) && InWindow(r, q)
    ensures r.slots[q % SLOTS].Some? ==> r.slots[q % SLOTS].value.seqNum == q
    ensures InWindow(r, a.q) && a.q % SLOTS == q % SLOTS ==> a.q == q
  {
    if r.slots[q % SLOTS].Some? {
      SameWindowSlot(r.readSeq, q, r.slots[q % SLOTS].value.seqNum);
    }
    if InWindow(r, a.q) && a.q % SLOTS == q % SLOTS {
      SameWindowSlot(r.readSeq, q, a.q);
    }
  }

  /** A fragment opens a slot for its own message, and for no other. */
  lemma SlotEffect(sent: seq<Message>, r: Ring, a: Arrival, maxLen: nat, q: nat)
    requires FaithfulRing(sent, r) && |sent| <= 0x1_0000 && AllBuildable(sent) && Possible(sent, a, maxLen)
    requires InWindow(r, q) && q < |sent|
    ensures var r' := Accept(r, PieceOf(sent, a.q, a.off, a.len), maxLen, 0).0;
            r'.slots[q % SLOTS].Some? <==> r.slots[q % SLOTS].Some? || a.q == q
  {
    OwnSlot(sent, r, a, q);
    hide Complete;
  }

  /** A fragment makes its own octets known, and no others. */
  lemma OctetEffect(sent: seq<Message>, r: Ring, a: Arrival, maxLen: nat, q: nat, i: nat)
    requires FaithfulRing(sent, r) && |sent| <= 0x1_0000 && AllBuildable(sent) && Possible(sent, a, maxLen)
    requires InWindow(r, q) && q < |sent| && i < |sent[q].body|
    ensures var r' := Accept(r, PieceOf(sent, a.q, a.off, a.len), maxLen, 0).0;
            WellPlaced(r') && (Knows(r', q, i) <==> Knows(r, q, i) || Touches(a, q, i))
  {
    OwnSlot(sent, r, a, q);
  }

  lemma {:induction false} SlotIffSeen(sent: seq<Message>, r: Ring, arrivals: seq<Arrival>, maxLen: nat, q: nat)
    requires FaithfulRing(sent, r) && |sent| <= 0x1_0000 && AllBuildable(sent) && AllPossible(sent, arrivals, maxLen)
    requires InWindow(r, q) && q < |sent|
    ensures Absorb(sent, r, arrivals, maxLen).slots[q % SLOTS].Some? <==> r.slots[q % SLOTS].Some? || Seen(arrivals, q)
    decreases |arrivals|
  {
    if |arrivals| > 0 {
      var n := |arrivals| - 1;
      SlotIffSeen(sent, r, arrivals[..n], maxLen, q);
      SeenSnoc(arrivals, q, 0);
      SlotEffect(sent, Absorb(sent, r, arrivals[..n], maxLen), arrivals[n], maxLen, q);
      hide Accept, Seen, FaithfulRing;
    }
  }

  lemma {:induction false} KnownIffTouched(sent: seq<Message>, r: Ring, arrivals: seq<Arrival>, maxLen: nat, q: nat, i: nat)
    requires FaithfulRing(sent, r) && |sent| <= 0x1_0000 && AllBuildable(sent) && AllPossible(sent, arrivals, maxLen)
    requires InWindow(r, q) && q < |sent| && i < |sent[q].body|
    ensures Knows(Absorb(sent, r, arrivals, maxLen), q, i) <==> Knows(r, q, i) || Touched(arrivals, q, i)
    decreases |arrivals|
  {
    if |arrivals| > 0 {
      var n := |arrivals| - 1;
      KnownIffTouched(sent, r, arrivals[..n], maxLen, q, i);
      SeenSnoc(arrivals, q, i);
      OctetEffect(sent, Absorb(sent, r, arrivals[..n], maxLen), arrivals[n], maxLen, q, i);
      hide Accept, Touched, Knows, FaithfulRing;
    }
  }

  /** The message is whole in its slot, exactly as it was sent. */
  ghost predicate Holds(sent: seq<Message>, r: Ring, q: nat)
    requires WellPlaced(r) && q < |sent|
  {
    var slot := r.slots[q % SLOTS];
    slot.Some? && Complete(slot.value) && Raw(slot.value) == RawOf(sent, q)
  }

  /** A message of the window is whole exactly when some fragment of it has arrived and what was known of it before and
      what arrived together cover it. */
  lemma WholeIffCovered(sent: seq<Message>, r: Ring, arrivals: seq<Arrival>, maxLen: nat, q: nat)
    requires FaithfulRing(sent, r) && |sent| <= 0x1_0000 && AllBuildable(sent) && AllPossible(sent, arrivals, maxLen)
    requires InWindow(r, q) && q < |sent|
    ensures Holds(sent, Absorb(sent, r, arrivals, maxLen), q) <==>
            && (r.slots[q % SLOTS].Some? || Seen(arrivals, q))
            && forall i :: 0 <= i < |sent[q].body| ==> Knows(r, q, i) || Touched(arrivals, q, i)
  {
    var r' := Absorb(sent, r, arrivals, maxLen);
    SlotIffSeen(sent, r, arrivals, maxLen, q);
    forall i | 0 <= i < |sent[q].body|
      ensures Knows(r', q, i) <==> Knows(r, q, i) || Touched(arrivals, q, i)
    {
      KnownIffTouched(sent, r, arrivals, maxLen, q, i);
    }
    hide Absorb, Seen, Touched, RawMessage;
    if r'.slots[q % SLOTS].Some? {
      OwnSlot(sent, r', Arrival(q, 0, 0), q);
      WholeSlot(sent, r', q);
    }
  }

  lemma WholeSlot(sent: seq<Message>, r: Ring, q: nat)
    requires FaithfulRing(sent, r) && q < |sent|
    requires r.slots[q % SLOTS].Some? && r.slots[q % SLOTS].value.seqNum == q
    ensures Holds(sent, r, q) <==> forall i :: 0 <= i < |sent[q].body| ==> Knows(r, q, i)
  {
    var a := r.slots[q % SLOTS].value;
    assert Faithful(sent, a);
    if forall i :: 0 <= i < |sent[q].body| ==> Knows(r, q, i) {
      forall i | 0 <= i < |a.body| ensures a.body[i].Some? { assert Knows(r, q, i); }
      assert IncomingMessage.Octets(a.body) == sent[q].body;
    }
    hide RawMessage;
  }

  // A whole flight.

  lemma {:induction false} ChainVisits(messages: seq<Outgoing>, p: Pos, es: seq<Emission>, m: nat)
    requires Chain(messages, p, es) && p.off == 0 && p.index <= m < EndOf(messages, p, es).index
    ensures exists k :: 0 <= k < |es| && es[k].index == m
  {
    if |es| > 0 {
      var n := |es| - 1;
      if m < EndOf(messages, p, es[..n]).index {
        ChainVisits(messages, p, es[..n], m);
        var k :| 0 <= k < n && es[..n][k].index == m;
        assert es[k].index == m;
      } else {
        assert es[n].index == m;
      }
    }
  }

  /** Every emission of a flight whose first message is number first arrived, perhaps among others and in any order. */
  ghost predicate AllArrived(es: seq<Emission>, first: nat, arrivals: seq<Arrival>) {
    forall k :: 0 <= k < |es| ==> Arrival(first + es[k].index, es[k].off, es[k].len) in arrivals
  }

  /** The flight consists of the messages numbered from first on. */
  predicate FlightOf(sent: seq<Message>, t: Flight, first: nat) {
    && first + |t.messages| <= |sent|
    && forall m :: 0 <= m < |t.messages| ==>
         !t.messages[m].isCcs && t.messages[m].data == RawOf(sent, first + m)
  }

  /** A finished flight has written something of every message. */
  lemma DoneVisits(t: Flight, mtu: nat, writes: seq<int>, m: nat)
    requires WellFormed(t) && t.written == 0 && t.offset == 0
    requires SendLoop(t, mtu, writes).outcome.Done? && m < |t.messages|
    ensures var es := Flatten(SendLoop(t, mtu, writes).packets); exists k :: 0 <= k < |es| && es[k].index == m
  {
    SendLoopWrites(t, mtu, writes);
    hide SendLoop, WellFormed, AllCarry, Chain, EndOf;
    ChainVisits(t.messages, Pos(0, 0), Flatten(SendLoop(t, mtu, writes).packets), m);
  }

  lemma ArrivedTouches(es: seq<Emission>, first: nat, arrivals: seq<Arrival>, m: nat, i: nat)
    requires AllArrived(es, first, arrivals) && Hit(es, m, i)
    ensures Touched(arrivals, first + m, i)
  {
    var k :| 0 <= k < |es| && Hits(es[k], m, i);
    assert Touches(Arrival(first + es[k].index, es[k].off, es[k].len), first + m, i);
  }

  lemma ArrivedSeen(es: seq<Emission>, first: nat, arrivals: seq<Arrival>, m: nat)
    requires AllArrived(es, first, arrivals) && exists k :: 0 <= k < |es| && es[k].index == m
    ensures Seen(arrivals, first + m)
  {
    var k :| 0 <= k < |es| && es[k].index == m;
    assert Arrival(first + es[k].index, es[k].off, es[k].len) in arrivals;
  }

  /** A flight written to its end from its beginning is reassembled by a receiver that waits for it, as soon as each of
      its fragments has arrived at least once: in any order, however often, and among any other fragments. */
  lemma FlightReassembled(sent: seq<Message>, t: Flight, mtu: nat, writes: seq<int>, first: nat, r: Ring,
                          arrivals: seq<Arrival>, maxLen: nat, m: nat)
    requires WellFormed(t) && t.written == 0 && t.offset == 0 && FlightOf(sent, t, first)
    requires SendLoop(t, mtu, writes).outcome.Done?
    requires FaithfulRing(sent, r) && |sent| <= 0x1_0000 && AllBuildable(sent) && AllPossible(sent, arrivals, maxLen)
    requires r.readSeq <= first && first + |t.messages| <= r.readSeq + SLOTS && m < |t.messages|
    requires AllArrived(Flatten(SendLoop(t, mtu, writes).packets), first, arrivals)
    ensures Holds(sent, Absorb(sent, r, arrivals, maxLen), first + m)
  {
    hide SendLoop, Absorb, FaithfulRing, AllPossible, AllBuildable, AllArrived, Holds, WellFormed, Flatten, Touched, Seen;
    var q, es := first + m, Flatten(SendLoop(t, mtu, writes).packets);
    DoneVisits(t, mtu, writes, m);
    ArrivedSeen(es, first, arrivals, m);
    forall i | 0 <= i < |sent[q].body|
      ensures Touched(arrivals, q, i)
    {
      DoneMeansAll(t, mtu, writes, m, i);
      ArrivedTouches(es, first, arrivals, m, i);
    }
    WholeIffCovered(sent, r, arrivals, maxLen, q);
  }
}
