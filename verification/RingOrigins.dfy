/** The ring under arbitrary fragments, forged ones included: what it refuses, and that it never mixes fragments of
    different messages. */
module RingOrigins {
  import opened Bytes
  import opened HandshakeHeader
  import opened IncomingMessage
  import opened IncomingRing

  /** The ring holds octets of a message with the fragment's number, but of another type or length. */
  ghost predicate Contradicts(r: Ring, h: Header)
    requires WellPlaced(r)
  {
    exists i :: 0 <= i < SLOTS && r.slots[i].Some? && r.slots[i].value.seqNum == h.seqNum
                && (r.slots[i].value.msgType != h.msgType || |r.slots[i].value.body| != h.msgLen)
  }

  /** A fragment is refused exactly if it leaves its message or the message is too long, or it is out of turn in the
      encrypted epoch, or it lies exactly one flight ahead, or it contradicts what is known of its message. A fragment that
      is refused, old or further ahead changes nothing. */
  lemma RefusedIff(r: Ring, f: Fragment, maxLen: nat, epoch: nat)
    requires WellPlaced(r) && Fits(f.hdr) && |f.body| == f.hdr.fragLen
    ensures var h, (r', alert) := f.hdr, Accept(r, f, maxLen, epoch);
            var outside := h.fragOff + h.fragLen > h.msgLen || h.msgLen > maxLen;
            var outOfTurn := epoch == 1 && h.seqNum != r.readSeq;
            && (alert.Some? <==> outside || outOfTurn || h.seqNum == r.readSeq + 7 || Contradicts(r, h))
            && (outside ==> alert == Some(IllegalParameter))
            && (!outside && outOfTurn ==> alert == Some(UnexpectedMessage))
            && (!outside && !outOfTurn && Contradicts(r, h) ==> alert == Some(IllegalParameter))
            && (alert.Some? || h.seqNum < r.readSeq || h.seqNum > r.readSeq + 7 ==> r' == r)
  {
    var h := f.hdr;
    if i :| 0 <= i < SLOTS && r.slots[i].Some? && r.slots[i].value.seqNum == h.seqNum
            && (r.slots[i].value.msgType != h.msgType || |r.slots[i].value.body| != h.msgLen) {
      assert i == h.seqNum % SLOTS;
    }
    if r.readSeq <= h.seqNum < r.readSeq + SLOTS && r.slots[h.seqNum % SLOTS].Some? {
      SameWindowSlot(r.readSeq, h.seqNum, r.slots[h.seqNum % SLOTS].value.seqNum);
    }
    hide Complete;
  }

  /** A message that is complete stays as it is, whatever comes, until it is read. */
  lemma CompleteIsFinal(r: Ring, f: Fragment, maxLen: nat, epoch: nat, j: nat)
    requires WellPlaced(r) && Fits(f.hdr) && |f.body| == f.hdr.fragLen && j < SLOTS
    requires r.slots[j].Some? && Complete(r.slots[j].value)
    ensures Accept(r, f, maxLen, epoch).0.slots[j] == r.slots[j]
  {
    hide Complete;
  }

  // Runs.

  /** What happens to the ring: a fragment comes in, or the front message has been read. */
  datatype Event = Comes(f: Fragment, maxLen: nat, epoch: nat) | Read

  predicate Possible(e: Event) {
    e.Comes? ==> Fits(e.f.hdr) && |e.f.body| == e.f.hdr.fragLen
  }

  function After(r: Ring, e: Event): (r': Ring)
    requires WellPlaced(r) && Possible(e)
    ensures WellPlaced(r')
  {
    match e
    case Comes(f, maxLen, epoch) => Accept(r, f, maxLen, epoch).0
    case Read => Advance(r)
  }

  predicate AllPossible(es: seq<Event>) {
    forall k :: 0 <= k < |es| ==> Possible(es[k])
  }

  function Run(es: seq<Event>): (r: Ring)
    requires AllPossible(es)
    ensures WellPlaced(r)
  {
    if |es| == 0 then EMPTY_RING else After(Run(es[..|es| - 1]), es[|es| - 1])
  }

  predicate SameMessage(h: Header, a: Assembly) {
    h.msgType == a.msgType && h.msgLen == |a.body| && h.seqNum == a.seqNum
  }

  /** The event brought octet i of the message. */
  predicate Brings(e: Event, a: Assembly, i: nat)
    requires Possible(e) && i < |a.body|
  {
    && e.Comes? && SameMessage(e.f.hdr, a)
    && e.f.hdr.fragOff <= i < e.f.hdr.fragOff + e.f.hdr.fragLen
    && a.body[i] == Some(e.f.body[i - e.f.hdr.fragOff])
  }

  ghost predicate Brought(es: seq<Event>, a: Assembly, i: nat)
    requires AllPossible(es) && i < |a.body|
  {
    exists k :: 0 <= k < |es| && Brings(es[k], a, i)
  }

  /** Every octet of the assembly that is known was brought by a fragment of that very message. */
  ghost predicate Original(es: seq<Event>, a: Assembly)
    requires AllPossible(es)
  {
    forall i :: 0 <= i < |a.body| && a.body[i].Some? ==> Brought(es, a, i)
  }

  lemma BroughtBefore(es: seq<Event>, a: Assembly, b: Assembly, i: nat)
    requires AllPossible(es) && |es| > 0 && Original(es[..|es| - 1], a)
    requires i < |a.body| == |b.body| && a.body[i] == b.body[i] && a.body[i].Some?
    requires a.msgType == b.msgType && a.seqNum == b.seqNum
    ensures Brought(es, b, i)
  {
    var front := es[..|es| - 1];
    assert Brought(front, a, i);
    var k :| 0 <= k < |front| && Brings(front[k], a, i);
    assert Brings(es[k], b, i);
  }

  /** One slot after one event: what it held, or with the octets of a fragment of the same message. */
  ghost predicate SlotStep(before: Option<Assembly>, after: Option<Assembly>, e: Event)
    requires Possible(e)
  {
    after.Some? && after != before ==>
      && e.Comes?
      && SameMessage(e.f.hdr, after.value)
      && (before.Some? ==> SameMessage(e.f.hdr, before.value))
      && forall i :: 0 <= i < |after.value.body| && after.value.body[i].Some? ==>
           (before.Some? && before.value.body[i] == after.value.body[i]) || Brings(e, after.value, i)
  }

  lemma AfterSteps(r: Ring, e: Event, j: nat)
    requires WellPlaced(r) && Possible(e) && j < SLOTS
    ensures SlotStep(r.slots[j], After(r, e).slots[j], e)
  {
    if e.Comes? {
      var h := e.f.hdr;
      if r.readSeq <= h.seqNum < r.readSeq + SLOTS && r.slots[h.seqNum % SLOTS].Some? {
        SameWindowSlot(r.readSeq, h.seqNum, r.slots[h.seqNum % SLOTS].value.seqNum);
      }
    }
  }

  /** Whatever fragments come, in whatever order and however contradictory, no octet of a message under assembly stems from
      a fragment of another message, or from one that gave its message another type or length. */
  lemma {:induction false} NeverMixed(es: seq<Event>, j: nat)
    requires AllPossible(es) && j < SLOTS
    ensures Run(es).slots[j].Some? ==> Original(es, Run(es).slots[j].value)
  {
    hide After;
    if |es| > 0 {
      var front, e := es[..|es| - 1], es[|es| - 1];
      NeverMixed(front, j);
      AfterSteps(Run(front), e, j);
      var before, after := Run(front).slots[j], Run(es).slots[j];
      if after.Some? {
        forall i | 0 <= i < |after.value.body| && after.value.body[i].Some?
          ensures Brought(es, after.value, i)
        {
          if before.Some? && i < |before.value.body| && before.value.body[i] == after.value.body[i]
             && (after == before || SameMessage(e.f.hdr, before.value)) {
            BroughtBefore(es, before.value, after.value, i);
          } else {
            assert Brings(es[|es| - 1], after.value, i);
          }
        }
      }
    }
  }
}
