/** Writing TLS records: handshake records queue up in the pending flight, application data goes through the write buffer
    one record at a time, and both reach the transport in the order in which they were sealed, however little the
    transport takes at a time and however often it refuses. */
module TlsWriter {
  import opened Bytes
  import opened SslBuffer

  // Record types.
  const CHANGE_CIPHER_SPEC: nat := 20
  const ALERT: nat := 21
  const HANDSHAKE: nat := 22
  const APPLICATION_DATA: nat := 23

  const MAX_PLAIN_LENGTH: nat := 16384

  /** A stream transport that answers writes and flushes from a script, and blocks once the script has run out. */
  class Transport {
    var script: seq<int>
    var wire: seq<Byte>
    // How often it has taken nothing.
    ghost var refusals: nat

    constructor (answers: seq<int>)
      ensures script == answers && wire == [] && refusals == 0
    {
      script, wire, refusals := answers, [], 0;
    }

    /** Takes some of the octets, or none. */
    method Write(data: seq<Byte>) returns (ret: int)
      requires |data| > 0
      modifies this
      ensures ret <= |data|
      ensures wire == old(wire) + if ret > 0 then data[..ret] else []
      ensures refusals == old(refusals) + if ret > 0 then 0 else 1
    {
      ret := -1;
      if |script| > 0 {
        ret := if script[0] > |data| then |data| else script[0];
        script := script[1..];
      }
      if ret > 0 {
        wire := wire + data[..ret];
      } else {
        refusals := refusals + 1;
      }
    }

    method Flush() returns (ret: int)
      modifies this`script, this`refusals
      ensures refusals == old(refusals) + if ret > 0 then 0 else 1
    {
      ret := -1;
      if |script| > 0 {
        ret := script[0];
        script := script[1..];
      }
      if ret <= 0 {
        refusals := refusals + 1;
      }
    }
  }

  // A 32-bit signed int of the transport interface.
  const INT_MAX: nat := 0x7fff_ffff

  // The level of an alert that ends the connection.
  const FATAL: Byte := 2

  // The address of the two octets of an alert.
  const ALERT_ADDR: nat := 0

  /** What seals records: from the number of the attempt, the type and the plaintext to the octets of the record or
      records, or nothing. */
  type Sealer = (nat, nat, seq<Byte>) -> Option<seq<Byte>>

  /** A record that was sealed: its type, its plaintext and the octets it became. */
  datatype Entry = Entry(kind: nat, data: seq<Byte>, octets: seq<Byte>)

  /** The plaintexts of the records one after another. */
  function Plaintexts(log: seq<Entry>): seq<Byte> {
    if |log| == 0 then [] else Plaintexts(log[..|log| - 1]) + log[|log| - 1].data
  }

  /** The octets of the records one after another. */
  function Sealed(log: seq<Entry>): seq<Byte> {
    if |log| == 0 then [] else Sealed(log[..|log| - 1]) + log[|log| - 1].octets
  }

  /** The application data among them. */
  function AppData(log: seq<Entry>): seq<Byte> {
    if |log| == 0 then []
    else
      var last := log[|log| - 1];
      AppData(log[..|log| - 1]) + if last.kind == APPLICATION_DATA then last.data else []
  }

  lemma Logged(log: seq<Entry>, e: Entry)
    ensures Plaintexts(log + [e]) == Plaintexts(log) + e.data && Sealed(log + [e]) == Sealed(log) + e.octets
    ensures AppData(log + [e]) == AppData(log) + if e.kind == APPLICATION_DATA then e.data else []
  {
    assert (log + [e])[..|log|] == log;
  }

  // Messages in records.

  /** A message in pieces of at most max octets; an empty message is one empty piece. */
  function Fragments(msg: seq<Byte>, max: nat): (fs: seq<seq<Byte>>)
    requires max > 0
    ensures |fs| > 0
  {
    if |msg| <= max then [msg] else [msg[..max]] + Fragments(msg[max..], max)
  }

  function Join(fs: seq<seq<Byte>>): seq<Byte> {
    if |fs| == 0 then [] else fs[0] + Join(fs[1..])
  }

  /** The pieces make up the message, none is longer than max, and all but the last are full. */
  lemma {:induction false} FragmentsMeaning(msg: seq<Byte>, max: nat)
    requires max > 0
    ensures var fs := Fragments(msg, max);
            && Join(fs) == msg
            && (forall k :: 0 <= k < |fs| - 1 ==> |fs[k]| == max)
            && |fs[|fs| - 1]| <= max && (|fs[|fs| - 1]| > 0 || msg == [])
    decreases |msg|
  {
    var fs := Fragments(msg, max);
    if |msg| <= max {
      assert fs[0] + [] == msg;
    } else {
      FragmentsMeaning(msg[max..], max);
      assert fs[1..] == Fragments(msg[max..], max);
      assert msg == msg[..max] + msg[max..];
    }
  }

  /** The octets of a record that a sealer makes in the given attempt, if they fit. */
  function Attempt(sealer: Sealer, attempt: nat, kind: nat, data: seq<Byte>, maxOut: nat): Option<seq<Byte>> {
    var out := sealer(attempt, kind, data);
    if out.Some? && |out.value| > maxOut then None else out
  }

  /** The first pieces as records of one type, sealed in successive attempts. */
  predicate SealedInTurn(sealer: Sealer, attempt: nat, kind: nat, overhead: nat, fs: seq<seq<Byte>>, log: seq<Entry>) {
    && |log| <= |fs|
    && forall k :: 0 <= k < |log| ==>
         && log[k].kind == kind && log[k].data == fs[k]
         && Attempt(sealer, attempt + k, kind, fs[k], |fs[k]| + overhead) == Some(log[k].octets)
  }

  lemma NoneInTurn(sealer: Sealer, attempt: nat, kind: nat, overhead: nat, fs: seq<seq<Byte>>)
    ensures SealedInTurn(sealer, attempt, kind, overhead, fs, [])
  {
  }

  lemma InTurn(sealer: Sealer, attempt: nat, kind: nat, overhead: nat, fs: seq<seq<Byte>>, log: seq<Entry>, e: Entry)
    requires SealedInTurn(sealer, attempt, kind, overhead, fs, log) && |log| < |fs|
    requires e.kind == kind && e.data == fs[|log|]
    requires Attempt(sealer, attempt + |log|, kind, e.data, |e.data| + overhead) == Some(e.octets)
    ensures SealedInTurn(sealer, attempt, kind, overhead, fs, log + [e])
  {
    hide Attempt;
  }

  lemma FragmentStep(rest: seq<Byte>, max: nat)
    requires max > 0
    ensures var fs, n := Fragments(rest, max), if |rest| < max then |rest| else max;
            fs[0] == rest[..n] && fs[1..] == if |rest[n..]| > 0 then Fragments(rest[n..], max) else []
  {
  }

  /** As many records as there are pieces carry the message; fewer carry a prefix of it. */
  lemma {:induction false} RecordsCarry(sealer: Sealer, attempt: nat, kind: nat, overhead: nat, fs: seq<seq<Byte>>, log: seq<Entry>)
    requires SealedInTurn(sealer, attempt, kind, overhead, fs, log)
    ensures Plaintexts(log) <= Join(fs)
    ensures |log| == |fs| ==> Plaintexts(log) == Join(fs)
    decreases |log|
  {
    JoinSplit(fs, |log|);
    JoinIsPlaintexts(fs, log);
    assert fs[..|fs|] == fs;
  }

  lemma {:induction false} JoinIsPlaintexts(fs: seq<seq<Byte>>, log: seq<Entry>)
    requires |log| <= |fs| && forall k :: 0 <= k < |log| ==> log[k].data == fs[k]
    ensures Plaintexts(log) == Join(fs[..|log|])
    decreases |log|
  {
    if |log| > 0 {
      var n := |log| - 1;
      JoinIsPlaintexts(fs, log[..n]);
      JoinSnoc(fs[..n], fs[n]);
      assert fs[..n + 1] == fs[..n] + [fs[n]];
    }
  }

  lemma {:induction false} JoinSnoc(fs: seq<seq<Byte>>, f: seq<Byte>)
    ensures Join(fs + [f]) == Join(fs) + f
    decreases |fs|
  {
    if |fs| == 0 {
      assert fs + [f] == [f] && [f][1..] == [];
      assert Join([f]) == f + Join([]);
    } else {
      JoinSnoc(fs[1..], f);
      assert (fs + [f])[1..] == fs[1..] + [f];
      assert fs[0] + (Join(fs[1..]) + f) == (fs[0] + Join(fs[1..])) + f;
    }
  }

  lemma {:induction false} JoinSplit(fs: seq<seq<Byte>>, k: nat)
    requires k <= |fs|
    ensures Join(fs[..k]) <= Join(fs)
    decreases |fs|
  {
    if k > 0 {
      JoinSplit(fs[1..], k - 1);
      assert fs[..k][1..] == fs[1..][..k - 1];
    }
  }

  /** A record that waits in the write buffer. */
  datatype Pending = Pending(tot: nat, addr: nat, kind: nat)

  /** The octets sealed are those on the wire, then those of the write buffer, then what is left of the flight. */
  predicate InOrder(sealed: seq<Byte>, wire: seq<Byte>, buffered: seq<Byte>, rest: seq<Byte>) {
    sealed == wire + buffered + rest
  }

  lemma WrittenOut(sealed: seq<Byte>, wire: seq<Byte>, buffered: seq<Byte>, rest: seq<Byte>, n: nat)
    requires InOrder(sealed, wire, buffered, rest) && n <= |buffered|
    ensures InOrder(sealed, wire + buffered[..n], buffered[n..], rest)
  {
    assert buffered == buffered[..n] + buffered[n..];
  }

  lemma FlightWrittenOut(sealed: seq<Byte>, wire: seq<Byte>, flight: seq<Byte>, offset: nat, n: nat)
    requires offset + n <= |flight| && InOrder(sealed, wire, [], flight[offset..])
    ensures InOrder(sealed, wire + flight[offset..][..n], [], flight[offset + n..])
  {
    assert flight[offset..] == flight[offset..][..n] + flight[offset + n..];
  }

  lemma QueuedUp(sealed: seq<Byte>, wire: seq<Byte>, buffered: seq<Byte>, flight: seq<Byte>, offset: nat, record: seq<Byte>)
    requires offset <= |flight| && InOrder(sealed, wire, buffered, flight[offset..])
    ensures InOrder(sealed + record, wire, buffered, (flight + record)[offset..])
  {
    assert (flight + record)[offset..] == flight[offset..] + record;
  }

  lemma FlightMoved(sealed: seq<Byte>, wire: seq<Byte>, rest: seq<Byte>)
    requires InOrder(sealed, wire, [], rest)
    ensures InOrder(sealed, wire, [] + rest, [])
  {
  }

  lemma Buffered(sealed: seq<Byte>, wire: seq<Byte>, buffered: seq<Byte>, record: seq<Byte>)
    requires InOrder(sealed, wire, buffered, [])
    ensures InOrder(sealed + record, wire, buffered + record, [])
  {
  }

  class Writer {
    const bio: Transport
    const writeBuffer: SSLBuffer
    const sealer: Sealer
    const sealOverhead: nat
    const maxSendFragment: nat
    const partialWrite: bool
    const movingBuffer: bool
    // What the addresses of newly allocated buffers need to align the payload.
    const slackOf: nat -> nat

    var seals: nat
    var shutdown: bool
    var pendingFlight: Option<seq<Byte>>
    var pendingFlightOffset: nat
    // Application data of the current call that went into completed records.
    var wnum: nat
    // The record in the write buffer, if its octets are not known to be out.
    var wpend: Option<Pending>
    // An alert to be sent, once nothing else is under way.
    var alertDispatch: bool
    var sendAlert: seq<Byte>

    // All records ever sealed, all their octets, and all application data sealed.
    ghost var records: seq<Entry>
    ghost var sealed: seq<Byte>
    ghost var plain: seq<Byte>
    // How often sealing has failed.
    ghost var sealFailures: nat
    // Some buffer was allocated so large that its offset could leave 16 bits.
    ghost var tight: bool

    ghost predicate Valid()
      reads this, bio, writeBuffer, writeBuffer.buf
    {
      && writeBuffer.Valid()
      && 0 < maxSendFragment
      && sealed == Sealed(records) && plain == AppData(records)
      && (wpend.Some? ==> wpend.value.tot > 0)
      && (pendingFlight.None? ==> pendingFlightOffset == 0)
      && (pendingFlight.Some? ==> pendingFlightOffset <= |pendingFlight.value|)
      && (!tight ==> writeBuffer.Roomy() && InOrder(sealed, bio.wire, writeBuffer.Data(), Rest()))
    }

    /** What of the pending flight has not been written. */
    function Rest(): seq<Byte>
      reads this
    {
      if pendingFlight.None? || pendingFlightOffset > |pendingFlight.value| then []
      else pendingFlight.value[pendingFlightOffset..]
    }

    /** Validity does not depend on how much of the current call is done. */
    twostate lemma StillValid()
      requires old(Valid())
      requires unchanged(this`records, this`sealed, this`plain, this`tight, this`wpend, this`pendingFlight,
                         this`pendingFlightOffset, bio, writeBuffer)
      requires writeBuffer.buf != null ==> unchanged(writeBuffer.buf)
      ensures Valid() && Rest() == old(Rest())
    {
    }

    /** How much of the data of a call that has not succeeded yet has been sealed. */
    ghost function Submitted(): nat
      reads this
    {
      wnum + Waiting()
    }

    /** How much application data waits in the write buffer. */
    ghost function Waiting(): nat
      reads this
    {
      Held(wpend)
    }

    constructor (transport: Transport, seal: Sealer, overhead: nat, fragment: nat, partial: bool, moving: bool,
                 slack: nat -> nat)
      requires transport.wire == [] && fragment > 0
      ensures Valid() && bio == transport && fresh(writeBuffer)
      ensures records == [] && !tight && Submitted() == 0
    {
      bio, sealer, sealOverhead, maxSendFragment, partialWrite, movingBuffer, slackOf :=
        transport, seal, overhead, fragment, partial, moving, slack;
      writeBuffer := new SSLBuffer();
      seals, shutdown, pendingFlight, pendingFlightOffset, wnum, wpend := 0, false, None, 0, 0, None;
      alertDispatch, sendAlert := false, [];
      records, sealed, plain, tight, sealFailures := [], [], [], false, 0;
    }

    /** Seals a record into at most maxOut octets. */
    method SealRecord(kind: nat, data: seq<Byte>, maxOut: nat) returns (out: Option<seq<Byte>>)
      requires sealed == Sealed(records) && plain == AppData(records)
      modifies this`seals, this`records, this`sealed, this`plain, this`sealFailures
      ensures sealed == Sealed(records) && plain == AppData(records)
      ensures out == Attempt(sealer, old(seals), kind, data, maxOut) && seals == old(seals) + 1
      ensures records == old(records) + if out.Some? then [Entry(kind, data, out.value)] else []
      ensures sealed == if out.Some? then old(sealed) + out.value else old(sealed)
      ensures sealFailures == old(sealFailures) + if out.Some? then 0 else 1
    {
      out := sealer(seals, kind, data);
      seals := seals + 1;
      if out.Some? && |out.value| > maxOut {
        out := None;
      }
      if out.Some? {
        ghost var entry := Entry(kind, data, out.value);
        Logged(records, entry);
        records, sealed := records + [entry], sealed + out.value;
        plain := AppData(records);
      } else {
        sealFailures := sealFailures + 1;
      }
    }

    method AddRecordToFlight(kind: nat, data: seq<Byte>) returns (ok: bool)
      requires Valid()
      modifies this`seals, this`records, this`sealed, this`plain, this`sealFailures, this`pendingFlight
      ensures Valid() && seals == old(seals) + 1
      ensures var out := Attempt(sealer, old(seals), kind, data, |data| + sealOverhead);
              && (ok <==> out.Some?)
              && records == old(records) + if ok then [Entry(kind, data, out.value)] else []
    {
      hide InOrder, Sealed, AppData;
      var flight := if pendingFlight.None? then [] else pendingFlight.value;
      assert flight[pendingFlightOffset..] == Rest();
      ghost var was, data0 := sealed, writeBuffer.Data();
      pendingFlight := Some(flight);
      var out := SealRecord(kind, data, |data| + sealOverhead);
      if out.None? {
        return false;
      }
      pendingFlight := Some(flight + out.value);
      if !tight {
        QueuedUp(was, bio.wire, data0, flight, pendingFlightOffset, out.value);
      }
      return true;
    }

    /** Queues a handshake message, cut into as many records as it needs; an empty one still takes one. When a record cannot
        be sealed, those before it stay in the flight. */
    method AddMessage(msg: seq<Byte>) returns (ok: bool)
      requires Valid()
      modifies this`seals, this`records, this`sealed, this`plain, this`sealFailures, this`pendingFlight
      ensures Valid() && old(records) <= records
      ensures var fs, new' := Fragments(msg, maxSendFragment), records[|old(records)|..];
              && SealedInTurn(sealer, old(seals), HANDSHAKE, sealOverhead, fs, new')
              && (ok <==> |new'| == |fs|)
              && (!ok ==> var f := fs[|new'|];
                          Attempt(sealer, old(seals) + |new'|, HANDSHAKE, f, |f| + sealOverhead).None?)
      ensures Plaintexts(records[|old(records)|..]) <= msg
      ensures ok ==> Plaintexts(records[|old(records)|..]) == msg
    {
      hide InOrder, Sealed, AppData, Fragments, SealedInTurn, Attempt, Plaintexts, SSLBuffer.Roomy, SSLBuffer.Valid, Rest, Valid;
      assert 0 < maxSendFragment by { ValidParts(); }
      var rest, first := msg, true;
      ghost var fs, done := Fragments(msg, maxSendFragment), [];
      NoneInTurn(sealer, seals, HANDSHAKE, sealOverhead, fs);
      while first || |rest| > 0
        invariant Valid() && records == old(records) + done && seals == old(seals) + |done|
        invariant SealedInTurn(sealer, old(seals), HANDSHAKE, sealOverhead, fs, done)
        invariant |done| <= |fs|
        invariant fs[|done|..] == if first || |rest| > 0 then Fragments(rest, maxSendFragment) else []
        decreases first, |rest|
      {
        first := false;
        var n := if |rest| < maxSendFragment then |rest| else maxSendFragment;
        ghost var k := |done|;
        FragmentStep(rest, maxSendFragment);
        assert fs[k] == fs[k..][0] && fs[k + 1..] == fs[k..][1..];
        var added := AddRecordToFlight(HANDSHAKE, rest[..n]);
        if !added {
          CarriesPrefix(old(seals), msg, done);
          assert records[|old(records)|..] == done;
          return false;
        }
        InTurn(sealer, old(seals), HANDSHAKE, sealOverhead, fs, done, records[|records| - 1]);
        done := done + [records[|records| - 1]];
        rest := rest[n..];
      }
      CarriesPrefix(old(seals), msg, done);
      assert records[|old(records)|..] == done;
      return true;
    }

    lemma CarriesPrefix(attempt: nat, msg: seq<Byte>, log: seq<Entry>)
      requires 0 < maxSendFragment
      requires SealedInTurn(sealer, attempt, HANDSHAKE, sealOverhead, Fragments(msg, maxSendFragment), log)
      ensures Plaintexts(log) <= msg
      ensures |log| == |Fragments(msg, maxSendFragment)| ==> Plaintexts(log) == msg
    {
      FragmentsMeaning(msg, maxSendFragment);
      RecordsCarry(sealer, attempt, HANDSHAKE, sealOverhead, Fragments(msg, maxSendFragment), log);
    }

    /** Queues a ChangeCipherSpec. */
    method AddChangeCipherSpec() returns (ok: bool)
      requires Valid()
      modifies this`seals, this`records, this`sealed, this`plain, this`sealFailures, this`pendingFlight
      ensures Valid()
      ensures var out := Attempt(sealer, old(seals), CHANGE_CIPHER_SPEC, [1], 1 + sealOverhead);
              && (ok <==> out.Some?)
              && records == old(records) + if ok then [Entry(CHANGE_CIPHER_SPEC, [1], out.value)] else []
    {
      ok := AddRecordToFlight(CHANGE_CIPHER_SPEC, [1]);
    }

    /** Hands the write buffer to the transport once. */
    method WriteOnce() returns (ret: int)
      requires Valid() && writeBuffer.size > 0
      modifies bio, writeBuffer
      ensures Valid() && (ret > 0 ==> writeBuffer.size < old(writeBuffer.size)) && writeBuffer.buf == old(writeBuffer.buf)
      ensures bio.refusals == old(bio.refusals) + if ret > 0 then 0 else 1
    {
      hide InOrder, Window;
      var data := writeBuffer.Data();
      ghost var was, rest := bio.wire, Rest();
      ret := bio.Write(data);
      if ret <= 0 {
        assert bio.wire == was;
        return;
      }
      writeBuffer.Consume(ret);
      if !tight {
        WrittenOut(sealed, was, data, rest, ret);
      }
    }

    /** Writes out the write buffer. */
    method FlushBuffer() returns (ret: int)
      requires Valid()
      modifies bio, writeBuffer
      ensures Valid()
      ensures ret > 0 ==> writeBuffer.size == 0 && bio.refusals == old(bio.refusals)
      ensures ret <= 0 ==> bio.refusals > old(bio.refusals)
      ensures writeBuffer.buf == null || writeBuffer.buf == old(writeBuffer.buf)
    {
      while writeBuffer.size > 0
        invariant Valid() && writeBuffer.buf == old(writeBuffer.buf) && bio.refusals == old(bio.refusals)
        decreases writeBuffer.size
      {
        ret := WriteOnce();
        if ret <= 0 {
          return;
        }
      }
      writeBuffer.Clear();
      return 1;
    }

    /** Writes out the pending flight, behind what the write buffer holds. Without a flight it does nothing: it then says
        nothing about the write buffer. It fails only if the transport refuses, and always after an alert. */
    method FlushFlight() returns (ret: int)
      requires Valid()
      modifies this`pendingFlight, this`pendingFlightOffset, bio, writeBuffer
      ensures Valid()
      ensures ret > 0 ==> pendingFlight.None?
      ensures ret > 0 && old(pendingFlight.Some?) ==> writeBuffer.size == 0
      ensures ret > 0 && old(pendingFlight.None?) ==> bio.wire == old(bio.wire) && writeBuffer.size == old(writeBuffer.size)
      ensures ret <= 0 ==>
                && old(pendingFlight.Some?)
                && (shutdown || |old(pendingFlight).value| > INT_MAX || bio.refusals > old(bio.refusals))
      ensures old(pendingFlight.Some?) && shutdown ==> ret == -1 && bio.wire == old(bio.wire)
      ensures writeBuffer.buf == null || writeBuffer.buf == old(writeBuffer.buf)
    {
      hide InOrder, Window;
      if pendingFlight.None? {
        return 1;
      }
      if shutdown || |pendingFlight.value| > INT_MAX {
        return -1;
      }
      if writeBuffer.size > 0 {
        ret := FlushBuffer();
        if ret <= 0 {
          return;
        }
      }
      while pendingFlightOffset < |pendingFlight.value|
        invariant Valid() && writeBuffer.size == 0 && pendingFlight == old(pendingFlight) && pendingFlight.Some?
        invariant bio.refusals >= old(bio.refusals)
        invariant writeBuffer.buf == null || writeBuffer.buf == old(writeBuffer.buf)
        decreases |pendingFlight.value| - pendingFlightOffset
      {
        ret := WriteFlightOnce();
        if ret <= 0 {
          return;
        }
      }
      ret := bio.Flush();
      if ret <= 0 {
        return -1;
      }
      assert Rest() == [];
      pendingFlight, pendingFlightOffset := None, 0;
      return 1;
    }

    /** Hands the rest of the flight to the transport once. */
    method WriteFlightOnce() returns (ret: int)
      requires Valid() && pendingFlight.Some? && pendingFlightOffset < |pendingFlight.value| && writeBuffer.size == 0
      modifies this`pendingFlightOffset, bio
      ensures Valid() && pendingFlightOffset >= old(pendingFlightOffset)
      ensures ret > 0 ==> pendingFlightOffset > old(pendingFlightOffset)
      ensures bio.refusals == old(bio.refusals) + if ret > 0 then 0 else 1
    {
      hide InOrder, Window;
      var flight, offset := pendingFlight.value, pendingFlightOffset;
      ghost var was := bio.wire;
      ret := bio.Write(flight[offset..]);
      if ret <= 0 {
        assert bio.wire == was;
        return;
      }
      pendingFlightOffset := pendingFlightOffset + ret;
      if !tight {
        assert writeBuffer.Data() == [];
        FlightWrittenOut(sealed, was, flight, offset, ret);
      }
    }

    /** A retry with less data, from other memory or of another type than the record that waits. */
    predicate BadRetry(p: Pending, kind: nat, addr: nat, len: nat) {
      !(p.tot <= len && p.kind == kind && (movingBuffer || p.addr == addr))
    }

    /** Another try at the record in the write buffer. The caller has to come with the same type, at least as much data
        and, unless told otherwise, the same memory. */
    method WritePending(kind: nat, addr: nat, len: nat) returns (ret: int)
      requires Valid() && wpend.Some?
      modifies this`wpend, bio, writeBuffer
      ensures Valid()
      ensures ret > 0 ==> wpend.None? && ret == old(wpend).value.tot <= len && kind == old(wpend).value.kind
      ensures ret > 0 ==> writeBuffer.size == 0
      ensures bio.refusals >= old(bio.refusals)
      ensures ret <= 0 ==> wpend == old(wpend) && (BadRetry(wpend.value, kind, addr, len) || bio.refusals > old(bio.refusals))
      ensures BadRetry(old(wpend).value, kind, addr, len) ==> ret == -1 && bio.wire == old(bio.wire)
      ensures writeBuffer.buf == null || writeBuffer.buf == old(writeBuffer.buf)
    {
      hide InOrder, Window;
      if wpend.value.tot > len || (!movingBuffer && wpend.value.addr != addr) || wpend.value.kind != kind {
        return -1;
      }
      ret := FlushBuffer();
      if ret <= 0 {
        return;
      }
      ret := wpend.value.tot;
      wpend := None;
    }

    /** Makes room in the empty write buffer and puts the rest of the flight there, ahead of the record to come. */
    method MoveFlight(maxOut: nat) returns (ok: bool)
      requires Valid() && writeBuffer.size == 0 && |Rest()| <= maxOut
      modifies this`pendingFlight, this`pendingFlightOffset, this`tight, writeBuffer, writeBuffer.buf
      ensures Valid() && (ok ==> pendingFlight.None? && writeBuffer.size == old(|Rest()|))
      ensures ok <==> maxOut <= MAX_CAP
      ensures writeBuffer.buf == null || writeBuffer.buf == old(writeBuffer.buf) || fresh(writeBuffer.buf)
      ensures !ok ==>
                && tight == old(tight)
                && pendingFlight == old(pendingFlight) && pendingFlightOffset == old(pendingFlightOffset)
      ensures tight && !old(tight) ==> slackOf(seals) % ALIGN_PAYLOAD + maxOut > 0x1_0000
    {
      hide InOrder, Window;
      ok := writeBuffer.EnsureCap(slackOf(seals) % ALIGN_PAYLOAD, maxOut);
      if !ok {
        return;
      }
      if !writeBuffer.Roomy() {
        tight := true;
      }
      if pendingFlight.Some? {
        var rest := Rest();
        writeBuffer.Append(rest);
        pendingFlight, pendingFlightOffset := None, 0;
        if !tight {
          FlightMoved(sealed, bio.wire, rest);
        }
      }
    }

    /** What keeps a record from being written, however willing sealer and transport are. */
    predicate Unwritable(kind: nat, addr: nat, data: seq<Byte>, waiting: Option<Pending>, buffered: nat, flight: nat) {
      if waiting.Some? then BadRetry(waiting.value, kind, addr, |data|)
      else |data| == 0 || |data| > MAX_PLAIN_LENGTH || buffered > 0 || |data| + sealOverhead + flight > MAX_CAP
    }

    /** Seals one record into the write buffer and writes it out; or goes on writing out the one that is there. */
    method DoWrite(kind: nat, addr: nat, data: seq<Byte>) returns (ret: int)
      requires Valid()
      modifies this`seals, this`records, this`sealed, this`plain, this`sealFailures, this`pendingFlight,
               this`pendingFlightOffset, this`wpend, this`tight, bio, writeBuffer, writeBuffer.buf
      ensures Valid()
      ensures writeBuffer.buf == null || writeBuffer.buf == old(writeBuffer.buf) || fresh(writeBuffer.buf)
      ensures Progress(kind, data, ret, old(wpend), wpend, old(records), records)
      ensures ret > 0 ==> writeBuffer.size == 0
      ensures |Rest()| <= old(|Rest()|)
      ensures sealFailures >= old(sealFailures) && bio.refusals >= old(bio.refusals)
      ensures ret <= 0 ==>
                || Unwritable(kind, addr, data, old(wpend), old(writeBuffer.size), old(|Rest()|))
                || sealFailures > old(sealFailures) || bio.refusals > old(bio.refusals)
    {
      hide InOrder, Window, Sealed, AppData;
      if wpend.Some? {
        ret := WritePending(kind, addr, |data|);
        return;
      }
      if |data| > MAX_PLAIN_LENGTH || writeBuffer.size > 0 {
        return -1;
      }
      if |data| == 0 {
        return 0;
      }
      var maxOut := |data| + sealOverhead + |Rest()|;
      var ok := MoveFlight(maxOut);
      if !ok {
        return -1;
      }
      ok := SealIntoBuffer(kind, data);
      if !ok {
        return -1;
      }
      wpend := Some(Pending(|data|, addr, kind));
      ret := WritePending(kind, addr, |data|);
    }

    method SealIntoBuffer(kind: nat, data: seq<Byte>) returns (ok: bool)
      requires Valid() && pendingFlight.None? && |data| > 0
      modifies this`seals, this`records, this`sealed, this`plain, this`sealFailures, writeBuffer`size, writeBuffer.buf
      ensures Valid()
      ensures if ok then NewRecord(kind, data, old(records), records) else records == old(records)
      ensures sealFailures == old(sealFailures) + if ok then 0 else 1
    {
      hide InOrder, Window, Sealed, AppData;
      ghost var was, buffered := sealed, writeBuffer.Data();
      var out := SealRecord(kind, data, writeBuffer.cap - writeBuffer.size);
      if out.None? {
        return false;
      }
      writeBuffer.Append(out.value);
      if !tight {
        Buffered(was, bio.wire, buffered, out.value);
      }
      return true;
    }

    /** Exactly this record has been sealed. */
    static predicate NewRecord(kind: nat, data: seq<Byte>, log: seq<Entry>, log': seq<Entry>) {
      |data| > 0 && |log'| == |log| + 1 && log' == log + [Entry(kind, data, log'[|log|].octets)]
    }

    /** What a call of DoWrite has done: it sealed the data, which is then out or waits; or it got rid of the record that
        waited; or nothing changed. */
    static predicate Progress(kind: nat, data: seq<Byte>, ret: int, before: Option<Pending>, after: Option<Pending>,
                              log: seq<Entry>, log': seq<Entry>)
    {
      if before.Some? then
        && log' == log
        && (if ret > 0 then after.None? && ret == before.value.tot <= |data| && kind == before.value.kind
            else after == before)
      else if ret > 0 then
        after.None? && ret == |data| && NewRecord(kind, data, log, log')
      else if after.Some? then
        after.value.tot == |data| && after.value.kind == kind && NewRecord(kind, data, log, log')
      else log' == log
    }

    /** Only application data has been sealed, in records none of which is empty or longer than max. */
    static predicate DataAdded(log: seq<Entry>, log': seq<Entry>, max: nat) {
      && log <= log'
      && forall k :: |log| <= k < |log'| ==> log'[k].kind == APPLICATION_DATA && 0 < |log'[k].data| <= max
    }

    /** Writes application data. When a call fails, the caller comes back with the same data, and it goes on where it
        stopped: at any time the data sealed since the first call is the part of it that has been submitted, and on
        success that is exactly the part that is reported as written. base is what had been sealed before. */
    method WriteAppData(addr: nat, data: seq<Byte>, ghost base: seq<Byte>) returns (ret: int)
      requires Valid()
      modifies this, bio, writeBuffer, writeBuffer.buf
      ensures Valid()
      ensures SealedPart(base, data, old(Submitted()), old(plain)) ==>
                if ret > 0 then Submitted() == 0 && SealedPart(base, data, ret, plain)
                else SealedPart(base, data, Submitted(), plain)
      // Only application data is sealed, in records of at most the fragment size.
      ensures DataAdded(old(records), records, maxSendFragment)
      // A retry with less than what has been completed makes the connection forget how much that was.
      ensures old(wnum) > |data| && !old(shutdown) ==> ret == -1 && wnum == 0 && wpend == old(wpend) && records == old(records)
      ensures old(shutdown) ==> ret == -1 && wnum == old(wnum) && wpend == old(wpend) && records == old(records)
      // Without partial writes, success is writing all of it.
      ensures ret > 0 && !partialWrite ==> ret == |data|
      // It fails only for a reason.
      ensures ret <= 0 ==>
                || old(shutdown) || old(wnum) >= |data| || sealFailures > old(sealFailures) || bio.refusals > old(bio.refusals)
                || Hindered(addr, |data|, old(wnum), old(wpend), old(writeBuffer.size), old(|Rest()|))
    {
      hide InOrder, Window, SealedPart, Sealed, AppData, Progress, PlainProgress, DataAdded, Unwritable, Hindered, SSLBuffer.Roomy,
           SSLBuffer.Valid, BadRetry, Valid, Rest;
      assert DataAdded(records, records, maxSendFragment) by { NothingAdded(records, maxSendFragment); }
      if shutdown {
        return -1;
      }
      var tot := wnum;
      label Start:
      assert writeBuffer.Valid() && 0 < maxSendFragment && plain == AppData(records) by { ValidParts(); }
      wnum := 0;
      StillValid@Start();
      if |data| < tot {
        return -1;
      }
      var n := |data| - tot;
      ghost var retried := SealedPart(base, data, old(Submitted()), plain);
      ghost var first := true;
      while true
        invariant Valid() && 0 <= tot && 0 <= n && tot + n == |data| && wnum == 0
        invariant writeBuffer.buf == null || writeBuffer.buf == old(writeBuffer.buf) || fresh(writeBuffer.buf)
        invariant retried ==> SealedPart(base, data, tot + Waiting(), plain)
        invariant DataAdded(old(records), records, maxSendFragment)
        invariant |Rest()| <= old(|Rest()|) && sealFailures >= old(sealFailures) && bio.refusals >= old(bio.refusals)
        invariant if first then tot == old(wnum) && wpend == old(wpend) && writeBuffer.size == old(writeBuffer.size)
                  else n > 0 && tot > old(wnum) && wpend.None? && writeBuffer.size == 0
        decreases n
      {
        var nw := if n > maxSendFragment then maxSendFragment else n;
        ghost var before, log, size, flight := wpend, records, writeBuffer.size, |Rest()|;
        assert 0 < maxSendFragment && plain == AppData(records) by { ValidParts(); }
        ret := DoWrite(APPLICATION_DATA, addr + tot, data[tot..tot + nw]);
        assert plain == AppData(records) by { ValidParts(); }
        CallDone(base, data, tot, nw, ret, before, wpend, old(records), log, records);
        if ret <= 0 {
          if Unwritable(APPLICATION_DATA, addr + tot, data[tot..tot + nw], before, size, flight) {
            WhyNot(addr, data, old(wnum), tot, nw, before, size, flight, old(wpend), old(writeBuffer.size), old(|Rest()|));
          }
          label Tried:
          wnum := tot;
          StillValid@Tried();
          return;
        }
        if ret == n || partialWrite {
          return tot + ret;
        }
        n := n - ret;
        tot := tot + ret;
        first := false;
      }
    }

    /** What keeps application data from being written: no room for a record, too long a fragment size, octets left over in
        the buffer, or a record waiting that this is no retry of. */
    predicate Hindered(addr: nat, len: nat, done: nat, waiting: Option<Pending>, buffered: nat, flight: nat)
      requires done <= len
    {
      || maxSendFragment > MAX_PLAIN_LENGTH || maxSendFragment + sealOverhead + flight > MAX_CAP
      || if waiting.Some?
         then BadRetry(waiting.value, APPLICATION_DATA, addr + done,
                       if len - done > maxSendFragment then maxSendFragment else len - done)
         else buffered > 0
    }

    /** Starts an alert, after which no other data is accepted. It is sealed at once unless the write buffer is in use. */
    method SendAlert(level: Byte, desc: Byte) returns (ret: int)
      requires Valid()
      modifies this, bio, writeBuffer, writeBuffer.buf
      ensures Valid() && shutdown && wnum == old(wnum)
      ensures old(shutdown) ==> ret == -1 && records == old(records) && sendAlert == old(sendAlert)
      ensures !old(shutdown) ==> sendAlert == [level, desc] && alertDispatch == (ret <= 0)
      ensures !old(shutdown) && old(writeBuffer.size) > 0 ==> ret == -1 && records == old(records)
      ensures !old(shutdown) && old(writeBuffer.size) == 0 ==>
                && AlertProgress([level, desc], ret, old(wpend), wpend, old(records), records)
                && (ret <= 0 ==>
                      || Unwritable(ALERT, ALERT_ADDR, [level, desc], old(wpend), 0, old(|Rest()|))
                      || sealFailures > old(sealFailures) || bio.refusals > old(bio.refusals))
    {
      hide InOrder, Window, Sealed, AppData, Unwritable, AlertProgress, SSLBuffer.Roomy;
      if shutdown {
        return -1;
      }
      shutdown := true;
      alertDispatch, sendAlert := true, [level, desc];
      if writeBuffer.size == 0 {
        ret := DispatchAlert();
        return;
      }
      return -1;
    }

    /** The alert is out as one record of its two octets, or waits as such, or nothing of it was sealed. */
    static predicate AlertProgress(alert: seq<Byte>, ret: int, before: Option<Pending>, after: Option<Pending>,
                                   log: seq<Entry>, log': seq<Entry>)
    {
      var written := if ret <= 0 then ret else if before.Some? then before.value.tot else |alert|;
      ret <= 1 && (ret > 0 <==> written > 0) && Progress(ALERT, alert, written, before, after, log, log')
    }

    method DispatchAlert() returns (ret: int)
      requires Valid() && |sendAlert| == 2
      modifies this, bio, writeBuffer, writeBuffer.buf
      ensures Valid() && wnum == old(wnum) && shutdown == old(shutdown) && sendAlert == old(sendAlert)
      ensures AlertProgress(sendAlert, ret, old(wpend), wpend, old(records), records)
      ensures alertDispatch == (ret <= 0 && old(alertDispatch))
      ensures ret <= 0 ==>
                || Unwritable(ALERT, ALERT_ADDR, sendAlert, old(wpend), old(writeBuffer.size), old(|Rest()|))
                || sealFailures > old(sealFailures) || bio.refusals > old(bio.refusals)
    {
      hide InOrder, Window, Sealed, AppData, Unwritable, SSLBuffer.Roomy, SSLBuffer.Valid;
      ret := DoWrite(ALERT, ALERT_ADDR, sendAlert);
      if ret <= 0 {
        return;
      }
      alertDispatch := false;
      if sendAlert[0] == FATAL {
        var _ := bio.Flush();
      }
      return 1;
    }

    /** What a call of DoWrite has done to the application data. */
    lemma PlainAdvances(data: seq<Byte>, ret: int, before: Option<Pending>, after: Option<Pending>, log: seq<Entry>,
                        log': seq<Entry>)
      requires Progress(APPLICATION_DATA, data, ret, before, after, log, log')
      ensures forall base, max :: DataAdded(base, log, max) && |data| <= max ==> DataAdded(base, log', max)
      ensures PlainProgress(data, ret, before, after, AppData(log), AppData(log'))
    {
      if log' != log {
        Logged(log, log'[|log|]);
      }
    }

    /** What a call of DoWrite with the next piece of the data means for all of it. */
    lemma CallDone(base: seq<Byte>, data: seq<Byte>, tot: nat, nw: nat, ret: int, before: Option<Pending>,
                   after: Option<Pending>, log0: seq<Entry>, log: seq<Entry>, log': seq<Entry>)
      requires tot + nw <= |data| && nw <= maxSendFragment && DataAdded(log0, log, maxSendFragment)
      requires Progress(APPLICATION_DATA, data[tot..tot + nw], ret, before, after, log, log')
      ensures DataAdded(log0, log', maxSendFragment)
      ensures ret > 0 ==> after.None? && ret <= nw
      ensures SealedPart(base, data, tot + Held(before), AppData(log)) ==>
                SealedPart(base, data, tot + if ret > 0 then ret else Held(after), AppData(log'))
    {
      PlainAdvances(data[tot..tot + nw], ret, before, after, log, log');
      hide DataAdded, SealedPart;
      if SealedPart(base, data, tot + Held(before), AppData(log)) {
        Advanced(base, data, tot, nw, ret, before, after, AppData(log), AppData(log'));
      }
    }

    lemma ValidParts()
      requires Valid()
      ensures writeBuffer.Valid() && 0 < maxSendFragment && plain == AppData(records)
    {
    }

    static lemma NothingAdded(log: seq<Entry>, max: nat)
      ensures DataAdded(log, log, max)
    {
    }

    /** Why a record of the data could not be written, in terms of how things stood at the start of the call. */
    lemma WhyNot(addr: nat, data: seq<Byte>, done: nat, tot: nat, nw: nat, waiting: Option<Pending>, buffered: nat,
                 flight: nat, waiting0: Option<Pending>, buffered0: nat, flight0: nat)
      requires done <= tot <= |data| && flight <= flight0
      requires nw == if |data| - tot > maxSendFragment then maxSendFragment else |data| - tot
      requires if waiting.None? && buffered == 0 && tot > done then tot < |data|
               else tot == done && waiting == waiting0 && buffered == buffered0
      requires Unwritable(APPLICATION_DATA, addr + tot, data[tot..tot + nw], waiting, buffered, flight)
      ensures done >= |data| || Hindered(addr, |data|, done, waiting0, buffered0, flight0)
      requires maxSendFragment > 0
    {
    }
  }

  /** Of the data, exactly the first k octets have been sealed, each once, behind what was sealed before. */
  predicate SealedPart(base: seq<Byte>, data: seq<Byte>, k: nat, plain: seq<Byte>): (r: bool)
    ensures r ==> k <= |data|
  {
    k <= |data| && plain == base + data[..k]
  }

  /** How much application data a waiting record holds. */
  function Held(p: Option<Pending>): nat {
    if p.Some? && p.value.kind == APPLICATION_DATA then p.value.tot else 0
  }

  /** What a call of DoWrite has done to what is submitted. */
  predicate PlainProgress(data: seq<Byte>, ret: int, before: Option<Pending>, after: Option<Pending>, plain: seq<Byte>,
                          plain': seq<Byte>)
  {
    if before.Some? then
      && plain' == plain
      && (if ret > 0 then after.None? && ret == before.value.tot <= |data| && before.value.kind == APPLICATION_DATA
          else after == before)
    else if ret > 0 then after.None? && ret == |data| && plain' == plain + data
    else if after.Some? then after.value.tot == |data| && after.value.kind == APPLICATION_DATA && plain' == plain + data
    else plain' == plain
  }

  lemma Advanced(base: seq<Byte>, data: seq<Byte>, tot: nat, nw: nat, ret: int, before: Option<Pending>,
                 after: Option<Pending>, plain: seq<Byte>, plain': seq<Byte>)
    requires tot + nw <= |data| && SealedPart(base, data, tot + Held(before), plain)
    requires PlainProgress(data[tot..tot + nw], ret, before, after, plain, plain')
    ensures if ret > 0 then after.None? && SealedPart(base, data, tot + ret, plain')
            else SealedPart(base, data, tot + Held(after), plain')
  {
    assert data[..tot] + data[tot..tot + nw] == data[..tot + nw];
    if before.None? {
      assert base + data[..tot] + data[tot..tot + nw] == base + (data[..tot] + data[tot..tot + nw]);
    }
  }
}
