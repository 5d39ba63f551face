/** The ring of incoming handshake messages (RFC 6347 sections 4.2.2 and 4.2.3): seven slots, the front one belonging
    to the next message to be read, that absorb fragments in any order. */
module IncomingRing {
  import opened Bytes
  import opened HandshakeHeader
  import opened IncomingMessage

  const SLOTS: nat := 7

  datatype Alert = InternalError | IllegalParameter | UnexpectedMessage | DecodeError | RecordOverflow

  /** The ring as a value. */
  datatype Ring = Ring(readSeq: nat, slots: seq<Option<Assembly>>, hasMessage: bool)

  const EMPTY_RING := Ring(0, [None, None, None, None, None, None, None], false)

  /** Every occupied slot holds the one message of the window [readSeq, readSeq + 7) that belongs there. */
  predicate WellPlaced(r: Ring) {
    && r.readSeq < 0x1_0000
    && |r.slots| == SLOTS
    && forall i :: 0 <= i < SLOTS && r.slots[i].Some? ==>
         var a := r.slots[i].value;
         a.seqNum % SLOTS == i && r.readSeq <= a.seqNum < r.readSeq + SLOTS && a.seqNum < 0x1_0000
  }

  function Front(r: Ring): (a: Option<Assembly>)
    requires WellPlaced(r)
  {
    r.slots[r.readSeq % SLOTS]
  }

  predicate CurrentComplete(r: Ring)
    requires WellPlaced(r)
  {
    Front(r).Some? && Complete(Front(r).value)
  }

  /** The slot a header refers to, created when it is empty; or the alert for a header that does not fit it. */
  function Lookup(r: Ring, h: Header): (res: (Ring, Option<Alert>))
    requires WellPlaced(r) && Fits(h)
  {
    if h.seqNum < r.readSeq || h.seqNum - r.readSeq >= SLOTS then (r, Some(InternalError))
    else
      var idx := h.seqNum % SLOTS;
      if r.slots[idx].Some? then
        var a := r.slots[idx].value;
        if a.msgType != h.msgType || |a.body| != h.msgLen then (r, Some(IllegalParameter)) else (r, None)
      else (r.(slots := r.slots[idx := Some(NewAssembly(h))]), None)
  }

  /** The bounds a fragment must respect. */
  predicate Bounded(h: Header, maxLen: nat) {
    h.fragOff + h.fragLen <= h.msgLen && h.msgLen <= maxLen
  }

  /** What one fragment does to the ring. */
  function Accept(r: Ring, f: Fragment, maxLen: nat, epoch: nat): (res: (Ring, Option<Alert>))
    requires WellPlaced(r) && Fits(f.hdr) && |f.body| == f.hdr.fragLen
    ensures WellPlaced(res.0)
  {
    var h := f.hdr;
    if !Bounded(h, maxLen) then (r, Some(IllegalParameter))
    else if epoch == 1 && h.seqNum != r.readSeq then (r, Some(UnexpectedMessage))
    else if h.seqNum < r.readSeq || h.seqNum > r.readSeq + SLOTS then (r, None)
    else
      var (r', alert) := Lookup(r, h);
      if alert.Some? then (r, alert)
      else
        var idx := h.seqNum % SLOTS;
        var a := r'.slots[idx].value;
        if Complete(a) then (r', None)
        else (r'.(slots := r'.slots[idx := Some(Filled(a, h.fragOff, f.body))]), None)
  }

  /** What a whole record of fragments does to the ring; fragments before a bad one still count. */
  function AcceptAll(r: Ring, record: seq<Byte>, maxLen: nat, epoch: nat): (res: (Ring, Option<Alert>))
    requires WellPlaced(r)
    ensures WellPlaced(res.0)
    decreases |record|
  {
    if |record| == 0 then (r, None)
    else
      var parsed := ParseFragment(record);
      if parsed.None? then (r, Some(DecodeError))
      else
        var (r', alert) := Accept(r, parsed.value.0, maxLen, epoch);
        if alert.Some? then (r', alert) else AcceptAll(r', parsed.value.1, maxLen, epoch)
  }

  /** The front message has been read: its slot is free and the window moves up by one, modulo 2^16. */
  function Advance(r: Ring): (r': Ring)
    requires WellPlaced(r)
    ensures WellPlaced(r')
  {
    AdvanceKeepsPlaces(r);
    Ring((r.readSeq + 1) % 0x1_0000, r.slots[r.readSeq % SLOTS := None], false)
  }

  lemma AdvanceKeepsPlaces(r: Ring)
    requires WellPlaced(r)
    ensures WellPlaced(Ring((r.readSeq + 1) % 0x1_0000, r.slots[r.readSeq % SLOTS := None], false))
  {
    var slots := r.slots[r.readSeq % SLOTS := None];
    forall i | 0 <= i < SLOTS && slots[i].Some?
      ensures r.readSeq + 1 <= slots[i].value.seqNum
    {
      assert r.slots[i].Some? && i != r.readSeq % SLOTS;
    }
  }

  /** The ring in memory. */
  class Incoming {
    var readSeq: nat
    var messages: seq<HmFragment?>
    var hasMessage: bool
    // What the messages stand for.
    ghost var slots: seq<Option<Assembly>>
    ghost var Repr: set<object>

    ghost predicate Valid()
      reads this, Repr
    {
      && this in Repr
      && |messages| == |slots| == SLOTS
      && (forall i :: 0 <= i < SLOTS ==> Holds(messages[i], slots[i], Repr - {this}))
      && (forall i, j :: 0 <= i < j < SLOTS && messages[i] != null && messages[j] != null ==>
                           messages[i].Repr !! messages[j].Repr)
      && WellPlaced(View())
    }

    static ghost predicate Holds(m: HmFragment?, a: Option<Assembly>, repr: set<object>)
      reads repr
    {
      if m == null then a.None?
      else
        && m in repr && m.Repr <= repr
        && m.Valid()
        && a == Some(m.view)
    }

    ghost function View(): Ring
      reads this
    {
      Ring(readSeq, slots, hasMessage)
    }

    constructor ()
      ensures Valid() && fresh(Repr)
      ensures View() == EMPTY_RING
    {
      readSeq := 0;
      hasMessage := false;
      messages := [null, null, null, null, null, null, null];
      slots := [None, None, None, None, None, None, None];
      Repr := {this};
    }

    method IsCurrentMessageComplete() returns (complete: bool)
      requires Valid()
      ensures complete == CurrentComplete(View())
    {
      var frag := messages[readSeq % SLOTS];
      if frag == null {
        return false;
      }
      assert Holds(frag, slots[readSeq % SLOTS], Repr - {this});
      frag.NullIffComplete();
      return frag.reassembly == null;
    }

    /** The message a header belongs to, inserted if it is not there yet; null and an alert if the header is refused. */
    method GetIncomingMessage(h: Header) returns (frag: HmFragment?, alert: Option<Alert>)
      requires Valid() && Fits(h)
      modifies this
      ensures Valid() && fresh(Repr - old(Repr))
      ensures (View(), alert) == Lookup(old(View()), h)
      ensures frag == null <==> alert.Some?
      ensures frag != null ==> frag == messages[h.seqNum % SLOTS]
    {
      if h.seqNum < readSeq || h.seqNum - readSeq >= SLOTS {
        return null, Some(InternalError);
      }
      var idx := h.seqNum % SLOTS;
      frag := messages[idx];
      if frag != null {
        assert Holds(frag, slots[idx], Repr - {this});
        SameWindowSlot(readSeq, frag.seqNum, h.seqNum);
        assert frag.seqNum == h.seqNum;
        if frag.msgType != h.msgType || frag.msgLen != h.msgLen {
          return null, Some(IllegalParameter);
        }
        return frag, None;
      }
      assert Holds(frag, slots[idx], Repr - {this});
      frag := new HmFragment(h);
      InsertFresh(idx, frag);
      alert := None;
    }

    /** Puts a new message in an empty slot. */
    method InsertFresh(idx: nat, frag: HmFragment)
      requires Valid() && idx < SLOTS && messages[idx] == null
      requires frag.Valid() && frag.Repr !! Repr
      requires frag.view.seqNum % SLOTS == idx && readSeq <= frag.view.seqNum < readSeq + SLOTS
      modifies this
      ensures Valid()
      ensures Repr == old(Repr) + frag.Repr
      ensures messages == old(messages)[idx := frag]
      ensures View() == old(View()).(slots := old(slots)[idx := Some(frag.view)])
    {
      messages := messages[idx := frag];
      slots := slots[idx := Some(frag.view)];
      Repr := Repr + frag.Repr;
      forall i | 0 <= i < SLOTS
        ensures Holds(messages[i], slots[i], Repr - {this})
      {
        if i != idx {
          assert old(Holds(messages[i], slots[i], Repr - {this}));
        }
      }
    }

    /** Copies a fragment's octets into an occupied, incomplete slot. */
    method FillSlot(idx: nat, frag: HmFragment, off: nat, octets: seq<Byte>)
      requires Valid() && idx < SLOTS && messages[idx] == frag
      requires frag.reassembly != null && off + |octets| <= frag.msgLen
      modifies this, frag.Repr
      ensures Valid() && Repr == old(Repr)
      ensures View() == old(View()).(slots := old(slots)[idx := Some(Filled(old(frag.view), off, octets))])
    {
      assert forall i :: 0 <= i < SLOTS ==> Holds(messages[i], slots[i], Repr - {this});
      frag.Fill(off, octets);
      slots := slots[idx := Some(frag.view)];
      forall i | 0 <= i < SLOTS
        ensures Holds(messages[i], slots[i], Repr - {this})
      {
        assert old(Holds(messages[i], slots[i], Repr - {this}));
      }
    }

    /** The body of the fragment loop. */
    method AcceptFragment(f: Fragment, maxLen: nat, epoch: nat) returns (alert: Option<Alert>)
      requires Valid() && Fits(f.hdr) && |f.body| == f.hdr.fragLen
      modifies Repr
      ensures Valid() && fresh(Repr - old(Repr))
      ensures (View(), alert) == Accept(old(View()), f, maxLen, epoch)
    {
      var h := f.hdr;
      if h.fragOff > h.msgLen || h.fragOff + h.fragLen > h.msgLen || h.msgLen > maxLen {
        return Some(IllegalParameter);
      }
      if epoch == 1 && h.seqNum != readSeq {
        return Some(UnexpectedMessage);
      }
      if h.seqNum < readSeq || h.seqNum > readSeq + SLOTS {
        return None;
      }
      var frag;
      frag, alert := GetIncomingMessage(h);
      if frag == null {
        return;
      }
      assert Holds(frag, slots[h.seqNum % SLOTS], Repr - {this});
      frag.NullIffComplete();
      if frag.reassembly == null {
        return None;
      }
      FillSlot(h.seqNum % SLOTS, frag, h.fragOff, f.body);
    }

    /** Takes every fragment of a handshake record in turn. */
    method ProcessRecord(record: seq<Byte>, maxLen: nat, epoch: nat) returns (alert: Option<Alert>)
      requires Valid()
      modifies Repr
      ensures Valid() && fresh(Repr - old(Repr))
      ensures (View(), alert) == AcceptAll(old(View()), record, maxLen, epoch)
    {
      var rest := record;
      while |rest| > 0
        invariant Valid() && fresh(Repr - old(Repr))
        invariant AcceptAll(View(), rest, maxLen, epoch) == AcceptAll(old(View()), record, maxLen, epoch)
        decreases |rest|
      {
        var parsed := ParseFragment(rest);
        if parsed.None? {
          return Some(DecodeError);
        }
        alert := AcceptFragment(parsed.value.0, maxLen, epoch);
        if alert.Some? {
          return;
        }
        rest := parsed.value.1;
      }
      return None;
    }

    /** The front message once it is complete. */
    method GetMessage() returns (raw: Option<seq<Byte>>)
      requires Valid()
      modifies this`hasMessage
      ensures Valid()
      ensures raw == if CurrentComplete(View()) then Some(Raw(Front(View()).value)) else None
      ensures View() == old(View()).(hasMessage := old(hasMessage) || CurrentComplete(View()))
    {
      var complete := IsCurrentMessageComplete();
      if !complete {
        return None;
      }
      var frag := messages[readSeq % SLOTS];
      assert Holds(frag, slots[readSeq % SLOTS], Repr - {this});
      frag.NullIffComplete();
      frag.DataIsRaw();
      raw := Some(frag.data[..]);
      hasMessage := true;
    }

    /** Frees the front message, which has been read, and moves the window up. */
    method NextMessage()
      requires Valid() && hasMessage && CurrentComplete(View())
      modifies this
      ensures Valid() && Repr == old(Repr)
      ensures View() == Advance(old(View()))
    {
      var index := readSeq % SLOTS;
      messages := messages[index := null];
      slots := slots[index := None];
      readSeq := (readSeq + 1) % 0x1_0000;
      hasMessage := false;
      assert View() == Advance(old(View()));
      forall i | 0 <= i < SLOTS
        ensures Holds(messages[i], slots[i], Repr - {this})
      {
        assert old(Holds(messages[i], slots[i], Repr - {this}));
      }
    }
  }

  /** Two sequence numbers of one window that share a slot are the same. */
  lemma SameWindowSlot(readSeq: nat, a: nat, b: nat)
    requires readSeq <= a < readSeq + SLOTS && readSeq <= b < readSeq + SLOTS
    requires a % SLOTS == b % SLOTS
    ensures a == b
  {
  }
}
