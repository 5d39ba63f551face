/** The receiving side of a DTLS connection during the handshake: records are checked for epoch and replay, opened, and
    their handshake fragments handed to the ring. */
module DtlsReader {
  import opened Bytes
  import opened DtlsRecord
  import opened IncomingRing
  import opened IncomingMessage
  import ReplayWindow


  datatype Status = Partial | Discarded | Opened | AlertReceived | Failed(alert: Alert)

  /** The receiving state as a value. */
  datatype Reader = Reader(epoch: nat, window: ReplayWindow.Window, ring: Ring, hasCcs: bool)

  const INITIAL := Reader(0, ReplayWindow.EMPTY, EMPTY_RING, false)

  datatype OpenResult =
    OpenResult(status: Status, consumed: nat, contentType: Byte, plain: seq<Byte>, window: ReplayWindow.Window)

  predicate VersionOk(version: nat, aead: Aead) {
    if aead.isNull then version / 256 == 0xfe else version == aead.recordVersion
  }

  /** The eight octets of a sequence number, folded in one by one as a 64-bit integer. */
  method ToU64Be(input: seq<Byte>) returns (ret: nat)
    requires |input| == 8
    ensures ret == Value(input)
  {
    ret := 0;
    for i := 0 to 8
      invariant ret == Value(input[..i])
    {
      assert input[..i + 1][..i] == input[..i];
      EightOctets(input, i);
      ret := ret * 256 % 0x1_0000_0000_0000_0000;
      ret := ret + input[i];
    }
    assert input[..8] == input;
  }

  /** Fewer than eight octets leave room to shift in one more. */
  lemma EightOctets(input: seq<Byte>, i: nat)
    requires i < 8 == |input|
    ensures Value(input[..i]) * 256 < 0x1_0000_0000_0000_0000
  {
    assert Pow256(i) <= 0x100_0000_0000_0000 by {
      assert Pow256(7) == 256 * (256 * (256 * (256 * Pow256(3))));
      PowMonotone(i, 7);
    }
  }

  lemma PowMonotone(i: nat, j: nat)
    requires i <= j
    ensures Pow256(i) <= Pow256(j)
  {
    if i < j {
      PowMonotone(i, j - 1);
    }
  }

  /** Opening the first record of a packet. */
  function OpenRecord(epoch: nat, window: ReplayWindow.Window, aead: Aead, input: seq<Byte>): (res: OpenResult)
    ensures res.consumed <= |input|
    ensures res.status in {Discarded, Opened, AlertReceived} ==> 0 < res.consumed
  {
    if |input| == 0 then OpenResult(Partial, 0, 0, [], window)
    else
      var parsed := ParseRecord(input);
      if parsed.None? || !VersionOk(parsed.value.0.version, aead) then OpenResult(Discarded, |input|, 0, [], window)
      else
        var (r, rest) := parsed.value;
        var consumed := |input| - |rest|;
        if Epoch(r) != epoch || ReplayWindow.ShouldDiscard(window, Value(r.sequence)) then
          OpenResult(Discarded, consumed, 0, [], window)
        else
          var text := aead.open(r.contentType, r.version, r.sequence, r.payload);
          if text.None? then OpenResult(Discarded, consumed, 0, [], window)
          else if |text.value| > MAX_PLAIN_LENGTH then
            OpenResult(Failed(RecordOverflow), consumed, 0, [], window)
          else
            OpenResult(if r.contentType == ALERT then AlertReceived else Opened, consumed, r.contentType, text.value,
                       ReplayWindow.Record(window, Value(r.sequence)))
  }

  /** What a record of the given type does once it has been opened. */
  function Dispatch(rx: Reader, aead: Aead, contentType: Byte, plain: seq<Byte>, maxLen: nat): (res: (Reader, Status))
    requires WellPlaced(rx.ring)
    ensures WellPlaced(res.0.ring)
  {
    if contentType == APPLICATION_DATA then
      (rx, if aead.isNull then Failed(UnexpectedMessage) else Discarded)
    else if contentType == CHANGE_CIPHER_SPEC then
      if !aead.isNull then (rx, Failed(UnexpectedMessage))
      else if plain != CCS_BODY then (rx, Failed(IllegalParameter))
      else (rx.(hasCcs := true), Opened)
    else if contentType == HANDSHAKE then
      var (ring, alert) := AcceptAll(rx.ring, plain, maxLen, rx.epoch);
      (rx.(ring := ring), if alert.Some? then Failed(alert.value) else Opened)
    else (rx, Failed(UnexpectedMessage))
  }

  /** One call that opens the next record of a packet for the handshake. */
  function OpenHandshake(rx: Reader, aead: Aead, input: seq<Byte>, maxLen: nat): (r: (Reader, Status, nat))
    requires WellPlaced(rx.ring)
    ensures WellPlaced(r.0.ring)
    ensures r.2 <= |input|
  {
    var res := OpenRecord(rx.epoch, rx.window, aead, input);
    var rx' := rx.(window := res.window);
    if res.status != Opened then (rx', res.status, res.consumed)
    else
      var (rx'', status) := Dispatch(rx', aead, res.contentType, res.plain, maxLen);
      (rx'', status, res.consumed)
  }

  /** Something besides the message now being processed is waiting. */
  predicate HasUnprocessedData(rx: Reader)
    requires WellPlaced(rx.ring)
  {
    rx.hasCcs || exists i :: 0 <= i < SLOTS && rx.ring.slots[i].Some? && !(rx.ring.hasMessage && i == rx.ring.readSeq % SLOTS)
  }

  /** Moving on to the next epoch, which is refused while the current one has leftover data. */
  function NextEpoch(rx: Reader): (res: (Reader, bool))
    requires WellPlaced(rx.ring)
  {
    if HasUnprocessedData(rx) then (rx, false)
    else (rx.(epoch := (rx.epoch + 1) % 0x1_0000, window := ReplayWindow.EMPTY), true)
  }

  class ReadState {
    var epoch: nat
    var aead: Aead
    var hasChangeCipherSpec: bool
    const bitmap: ReplayWindow.Bitmap
    const incoming: Incoming
    ghost var Repr: set<object>

    ghost predicate Valid()
      reads this, Repr
    {
      && this in Repr && bitmap in Repr
      && incoming in Repr && incoming.Repr <= Repr && this !in incoming.Repr && bitmap !in incoming.Repr
      && incoming.Valid()
    }

    ghost function View(): (rx: Reader)
      requires Valid()
      reads this, Repr
      ensures WellPlaced(rx.ring)
    {
      Reader(epoch, bitmap.View(), incoming.View(), hasChangeCipherSpec)
    }

    constructor (nullCipher: Aead)
      ensures Valid() && fresh(Repr)
      ensures View() == INITIAL && aead == nullCipher
    {
      epoch, aead, hasChangeCipherSpec := 0, nullCipher, false;
      var b := new ReplayWindow.Bitmap();
      var i := new Incoming();
      bitmap, incoming := b, i;
      Repr := {this, b} + i.Repr;
    }

    method OpenRecordHere(input: seq<Byte>)
      returns (status: Status, consumed: nat, contentType: Byte, plain: seq<Byte>)
      requires Valid()
      modifies bitmap
      ensures Valid()
      ensures OpenResult(status, consumed, contentType, plain, bitmap.View())
              == OpenRecord(epoch, old(bitmap.View()), aead, input)
      ensures View() == old(View()).(window := bitmap.View())
    {
      consumed, contentType, plain := 0, 0, [];
      if |input| == 0 {
        status := Partial;
        return;
      }
      var parsed := ParseRecord(input);
      if parsed.None? {
        status, consumed := Discarded, |input|;
        return;
      }
      var (r, rest) := parsed.value;
      var versionOk;
      if aead.isNull {
        versionOk := r.version / 256 == 0xfe;
      } else {
        versionOk := r.version == aead.recordVersion;
      }
      if !versionOk {
        status, consumed := Discarded, |input|;
        return;
      }
      consumed := |input| - |rest|;
      var number := ToU64Be(r.sequence);
      var replayed := bitmap.CheckDiscard(number);
      if Epoch(r) != epoch || replayed {
        status := Discarded;
        return;
      }
      var text := aead.open(r.contentType, r.version, r.sequence, r.payload);
      if text.None? {
        status := Discarded;
        return;
      }
      if |text.value| > MAX_PLAIN_LENGTH {
        status := Failed(RecordOverflow);
        return;
      }
      bitmap.RecordNumber(number);
      contentType, plain := r.contentType, text.value;
      status := if contentType == ALERT then AlertReceived else Opened;
    }

    method Open(input: seq<Byte>, maxLen: nat) returns (status: Status, consumed: nat)
      requires Valid()
      modifies Repr
      ensures Valid() && fresh(Repr - old(Repr))
      ensures aead == old(aead)
      ensures (View(), status, consumed) == OpenHandshake(old(View()), aead, input, maxLen)
    {
      var contentType, plain;
      status, consumed, contentType, plain := OpenRecordHere(input);
      if status != Opened {
        return;
      }
      if contentType == APPLICATION_DATA {
        status := if aead.isNull then Failed(UnexpectedMessage) else Discarded;
      } else if contentType == CHANGE_CIPHER_SPEC {
        if !aead.isNull {
          status := Failed(UnexpectedMessage);
        } else if |plain| != 1 || plain[0] != 1 {
          status := Failed(IllegalParameter);
        } else {
          hasChangeCipherSpec := true;
        }
      } else if contentType == HANDSHAKE {
        var alert := incoming.ProcessRecord(plain, maxLen, epoch);
        Repr := Repr + incoming.Repr;
        if alert.Some? {
          status := Failed(alert.value);
        }
      } else {
        status := Failed(UnexpectedMessage);
      }
    }

    method HasUnprocessedHandshakeData() returns (has: bool)
      requires Valid()
      ensures has == HasUnprocessedData(View())
    {
      if hasChangeCipherSpec {
        return true;
      }
      var current := incoming.readSeq % SLOTS;
      for i := 0 to SLOTS
        invariant forall j :: 0 <= j < i ==> incoming.slots[j].None? || (incoming.hasMessage && j == current)
      {
        assert Incoming.Holds(incoming.messages[i], incoming.slots[i], incoming.Repr - {incoming});
        if incoming.hasMessage && i == current {
          continue;
        }
        if incoming.messages[i] != null {
          return true;
        }
      }
      return false;
    }

    method SetReadState(newAead: Aead) returns (ok: bool)
      requires Valid()
      modifies this, bitmap
      ensures Valid() && Repr == old(Repr)
      ensures (View(), ok) == NextEpoch(old(View()))
      ensures aead == if ok then newAead else old(aead)
    {
      var leftover := HasUnprocessedHandshakeData();
      if leftover {
        return false;
      }
      epoch := (epoch + 1) % 0x1_0000;
      bitmap.Zero();
      aead := newAead;
      return true;
    }
  }
}
