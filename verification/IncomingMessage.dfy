/** One incoming handshake message, possibly not yet assembled: what it means, and the buffer with a bitmap that
    holds it in memory. */
module IncomingMessage {
  import opened Bytes
  import opened HandshakeHeader
  import opened Reassembly

  /** A message under assembly: each octet of the body is known or still missing. */
  datatype Assembly = Assembly(msgType: nat, seqNum: nat, body: seq<Option<Byte>>)

  predicate Complete(a: Assembly) {
    forall i :: 0 <= i < |a.body| ==> a.body[i].Some?
  }

  function NewAssembly(h: Header): (a: Assembly)
    ensures |a.body| == h.msgLen && forall i :: 0 <= i < h.msgLen ==> a.body[i].None?
  {
    Assembly(h.msgType, h.seqNum, seq(h.msgLen, i => None))
  }

  /** The octets of a fragment at offset off are now known; whatever was known there is overwritten. */
  function Filled(a: Assembly, off: nat, octets: seq<Byte>): (r: Assembly)
    requires off + |octets| <= |a.body|
    ensures |r.body| == |a.body|
    ensures forall i :: 0 <= i < |a.body| ==>
                          r.body[i] == if off <= i < off + |octets| then Some(octets[i - off]) else a.body[i]
  {
    a.(body := a.body[..off] + Known(octets) + a.body[off + |octets|..])
  }

  function Known(octets: seq<Byte>): (r: seq<Option<Byte>>)
    ensures |r| == |octets| && forall i :: 0 <= i < |r| ==> r[i] == Some(octets[i])
  {
    seq(|octets|, i requires 0 <= i < |octets| => Some(octets[i]))
  }

  /** The octets of a complete body. */
  function Octets(body: seq<Option<Byte>>): (r: seq<Byte>)
    requires forall i :: 0 <= i < |body| ==> body[i].Some?
    ensures |r| == |body| && Known(r) == body
  {
    seq(|body|, i requires 0 <= i < |body| => body[i].value)
  }

  lemma KnownOctets(octets: seq<Byte>)
    ensures Octets(Known(octets)) == octets
  {
  }

  /** The message a complete assembly stands for, header included. */
  function Raw(a: Assembly): (raw: seq<Byte>)
    requires Complete(a)
  {
    RawMessage(a.msgType, a.seqNum, Octets(a.body))
  }

  // Any number of fragments, in any order.

  datatype Piece = Piece(off: nat, octets: seq<Byte>)

  predicate Covers(p: Piece, i: nat) {
    p.off <= i < p.off + |p.octets|
  }

  predicate InBounds(pieces: seq<Piece>, msgLen: nat) {
    forall k :: 0 <= k < |pieces| ==> pieces[k].off + |pieces[k].octets| <= msgLen
  }

  ghost predicate Covered(pieces: seq<Piece>, i: nat) {
    exists k :: 0 <= k < |pieces| && Covers(pieces[k], i)
  }

  /** Pieces arriving one after another; a complete message takes no more of them. */
  function Receive(a: Assembly, pieces: seq<Piece>): (r: Assembly)
    requires InBounds(pieces, |a.body|)
    ensures |r.body| == |a.body|
  {
    if |pieces| == 0 then a
    else
      var n := |pieces| - 1;
      var before := Receive(a, pieces[..n]);
      if Complete(before) then before else Filled(before, pieces[n].off, pieces[n].octets)
  }

  /** Whatever the order, overlap and repetition of the pieces, an octet is known exactly when some piece covers it;
      so the message is complete exactly when the pieces together cover all of it. */
  lemma {:induction false} KnownIffCovered(h: Header, pieces: seq<Piece>)
    requires InBounds(pieces, h.msgLen)
    ensures forall i :: 0 <= i < h.msgLen ==>
                          (Receive(NewAssembly(h), pieces).body[i].Some? <==> Covered(pieces, i))
    ensures Complete(Receive(NewAssembly(h), pieces)) <==> forall i :: 0 <= i < h.msgLen ==> Covered(pieces, i)
  {
    var r := Receive(NewAssembly(h), pieces);
    if |pieces| > 0 {
      var n := |pieces| - 1;
      var front := pieces[..n];
      KnownIffCovered(h, front);
      forall i | 0 <= i < h.msgLen
        ensures r.body[i].Some? <==> Covered(pieces, i)
      {
        CoveredStep(pieces, i);
      }
    }
  }

  lemma CoveredStep(pieces: seq<Piece>, i: nat)
    requires |pieces| > 0
    ensures Covered(pieces, i) <==> Covered(pieces[..|pieces| - 1], i) || Covers(pieces[|pieces| - 1], i)
  {
    var n := |pieces| - 1;
    if k :| 0 <= k < n && Covers(pieces[..n][k], i) {
      assert Covers(pieces[k], i);
    }
    if k :| 0 <= k < n && Covers(pieces[k], i) {
      assert Covers(pieces[..n][k], i);
    }
  }

  /** What the body of a message buffer and its bitmap say; with no bitmap every octet counts. */
  ghost function Contents(octets: seq<Byte>, map_: Option<seq<bv8>>): (body: seq<Option<Byte>>)
    requires map_.Some? ==> |octets| <= 8 * |map_.value|
    ensures |body| == |octets|
    ensures forall i :: 0 <= i < |octets| ==>
                          body[i] == if map_.None? || Marked(map_.value, i) then Some(octets[i]) else None
  {
    seq(|octets|, i requires 0 <= i < |octets| =>
      if map_.None? || Marked(map_.value, i) then Some(octets[i]) else None)
  }

  /** after, or no bitmap at all, is before with octets start to end marked too. */
  ghost predicate MarksAdded(before: seq<bv8>, after: Option<seq<bv8>>, msgLen: nat, start: nat, end: nat)
    requires msgLen <= 8 * |before| && (after.Some? ==> msgLen <= 8 * |after.value|)
  {
    forall j :: 0 <= j < msgLen ==>
      (after.None? || Marked(after.value, j) <==> Marked(before, j) || start <= j < end)
  }

  lemma FilledContents(a: Assembly, before: seq<bv8>, after: Option<seq<bv8>>, octets: seq<Byte>, octets': seq<Byte>,
                       off: nat, fragment: seq<Byte>)
    requires |octets| == |octets'| && off + |fragment| <= |octets|
    requires |octets| <= 8 * |before| && (after.Some? ==> |octets| <= 8 * |after.value|)
    requires MarksAdded(before, after, |octets|, off, off + |fragment|)
    requires octets' == octets[..off] + fragment + octets[off + |fragment|..]
    requires a.body == Contents(octets, Some(before))
    ensures Filled(a, off, fragment).body == Contents(octets', after)
  {
  }

  class HmFragment {
    const msgType: nat
    const seqNum: nat
    const msgLen: nat
    // The message, header included.
    const data: array<Byte>
    // One bit for each octet of the body; null once the message is complete.
    var reassembly: array?<bv8>
    // What the two say about the message, and the objects involved.
    ghost var view: Assembly
    ghost const Repr: set<object>

    ghost predicate Valid()
      reads this, Repr
    {
      && this in Repr && data in Repr && (reassembly != null ==> reassembly in Repr)
      && data.Length == HEADER_LENGTH + msgLen
      && Fits(Header(msgType, msgLen, seqNum, 0, msgLen))
      && data[..HEADER_LENGTH] == Serialize(Header(msgType, msgLen, seqNum, 0, msgLen))
      && (reassembly != null ==>
            && reassembly.Length == (msgLen + 7) / 8
            && (forall j :: msgLen <= j < 8 * reassembly.Length ==> !Marked(reassembly[..], j))
            && (exists j :: 0 <= j < msgLen && !Marked(reassembly[..], j)))
      && view == Assembly(msgType, seqNum, Contents(data[HEADER_LENGTH..], Map()))
    }

    ghost function Map(): Option<seq<bv8>>
      reads this, reassembly
    {
      if reassembly == null then None else Some(reassembly[..])
    }

    /** The bitmap is gone exactly when the message is complete. */
    lemma NullIffComplete()
      requires Valid()
      ensures reassembly == null <==> Complete(view)
    {
      if reassembly != null {
        var j :| 0 <= j < msgLen && !Marked(reassembly[..], j);
        assert view.body[j].None?;
      }
    }

    constructor (h: Header)
      requires Fits(h)
      ensures Valid() && fresh(Repr)
      ensures view == NewAssembly(h)
    {
      msgType, seqNum, msgLen := h.msgType, h.seqNum, h.msgLen;
      var header := Serialize(Header(h.msgType, h.msgLen, h.seqNum, 0, h.msgLen));
      var buffer := new Byte[HEADER_LENGTH + h.msgLen];
      forall i | 0 <= i < HEADER_LENGTH {
        buffer[i] := header[i];
      }
      data := buffer;
      var map_: array?<bv8> := null;
      ghost var parts: set<object> := {buffer};
      if h.msgLen > 0 {
        map_ := new bv8[(h.msgLen + 7) / 8](i => 0);
        parts := parts + {map_};
      }
      reassembly := map_;
      view := NewAssembly(h);
      Repr := {this} + parts;
      new;
      if reassembly != null {
        assert forall j :: 0 <= j < 8 * reassembly.Length ==> !Marked(reassembly[..], j) by {
          forall j | 0 <= j < 8 * reassembly.Length ensures !Marked(reassembly[..], j) {
            NoBits(j % 8);
          }
        }
        assert !Marked(reassembly[..], 0);
      }
      assert view.body == Contents(data[HEADER_LENGTH..], Map());
    }

    /** Marks octets start, inclusive, to end, exclusive, as received, and drops the bitmap when that completes the
        message. */
    method Mark(start: nat, end: nat)
      requires Valid() && reassembly != null && start <= end <= msgLen
      modifies Repr - {data}
      ensures Valid() && (reassembly == null || reassembly == old(reassembly))
      ensures MarksAdded(old(reassembly[..]), Map(), msgLen, start, end)
    {
      ghost var before := reassembly[..];
      if start == end {
        return;
      }
      SetRange(reassembly, start, end);
      ghost var after := reassembly[..];
      var all := AllSet(reassembly, msgLen);
      assert reassembly[..] == after;
      if all {
        reassembly := null;
      }
      view := Assembly(msgType, seqNum, Contents(data[HEADER_LENGTH..], Map()));
    }

    /** Copies octets into the body at offset off. */
    method CopyIn(off: nat, octets: seq<Byte>)
      requires Valid() && off + |octets| <= msgLen
      modifies this`view, data
      ensures Valid() && Map() == old(Map())
      ensures data[HEADER_LENGTH..] ==
              old(data[HEADER_LENGTH..])[..off] + octets + old(data[HEADER_LENGTH..])[off + |octets|..]
    {
      forall i | 0 <= i < |octets| {
        data[HEADER_LENGTH + off + i] := octets[i];
      }
      assert data[..HEADER_LENGTH] == old(data[..HEADER_LENGTH]);
      view := Assembly(msgType, seqNum, Contents(data[HEADER_LENGTH..], Map()));
      assert reassembly != null ==> reassembly[..] == old(reassembly[..]);
    }

    /** Copies a fragment's octets into the message and marks them. */
    method Fill(off: nat, octets: seq<Byte>)
      requires Valid() && reassembly != null && off + |octets| <= msgLen
      modifies Repr
      ensures Valid() && (reassembly == null || reassembly == old(reassembly))
      ensures view == Filled(old(view), off, octets)
    {
      ghost var body, map_ := data[HEADER_LENGTH..], reassembly[..];
      CopyIn(off, octets);
      ghost var body' := data[HEADER_LENGTH..];
      assert reassembly[..] == map_;
      Mark(off, off + |octets|);
      assert data[HEADER_LENGTH..] == body';
      FilledContents(old(view), map_, Map(), body, body', off, octets);
    }

    /** The octets of a complete message buffer are the message it stands for. */
    lemma DataIsRaw()
      requires Valid() && reassembly == null
      ensures Complete(view) && data[..] == Raw(view)
    {
      NullIffComplete();
      var octets := data[HEADER_LENGTH..];
      assert Known(octets) == view.body;
      KnownOctets(octets);
      assert data[..] == data[..HEADER_LENGTH] + octets;
    }
  }

  lemma NoBits(k: nat)
    requires k < 8
    ensures !Bit(0, k)
  {
  }
}
