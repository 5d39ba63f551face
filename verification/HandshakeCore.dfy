/** What the client and the server of a TLS handshake below TLS 1.3 share: the transcript, the messages that come and go,
    the Finished messages, and an environment that answers every question and may block at any time. */
module HandshakeCore {
  import opened Bytes

  // Handshake message types.
  const CLIENT_HELLO: nat := 1
  const SERVER_HELLO: nat := 2
  const HELLO_VERIFY_REQUEST: nat := 3
  const NEW_SESSION_TICKET: nat := 4
  const CERTIFICATE: nat := 11
  const SERVER_KEY_EXCHANGE: nat := 12
  const CERTIFICATE_REQUEST: nat := 13
  const SERVER_HELLO_DONE: nat := 14
  const CERTIFICATE_VERIFY: nat := 15
  const CLIENT_KEY_EXCHANGE: nat := 16
  const FINISHED: nat := 20
  const CERTIFICATE_STATUS: nat := 22
  const NEXT_PROTO: nat := 67
  const CHANNEL_ID: nat := 203

  /** A handshake message: its octets with the header, and its body. */
  datatype Message = Message(kind: nat, raw: seq<Byte>, body: seq<Byte>)

  /** What a handshake waits for before it can go on. PendingOperation stands for the application's lookups, checks and
      private key operations. */
  datatype Wait = Ok | Error | Flush | ReadServerHello | ReadMessage | ReadChangeCipherSpec | PendingOperation | EarlyReturn

  /** What reading from the transport brings: a message, a record that is dropped, or nothing for now. */
  datatype Arrival = Comes(m: Message) | Dropped | Blocks

  /** What a handshake does besides sending and consuming messages: checks that succeed, changes of cipher, and the
      application's choice whether to show a certificate. */
  datatype Act =
    | CertificateOk | KeyExchangeSigned | WriteCipherChanged | ReadCipherChanged | NoCertificateAlert | Selected(has: bool)

  /** What a handshake did. */
  datatype Item = Sent(m: Message) | Received(m: Message) | Noted(act: Act)

  /** The same with messages told by their type alone. */
  datatype Event = Out(kind: nat) | In(kind: nat) | Did(act: Act)

  function EventOf(i: Item): Event {
    match i
    case Sent(m) => Out(m.kind)
    case Received(m) => In(m.kind)
    case Noted(act) => Did(act)
  }

  function Events(log: seq<Item>): (es: seq<Event>)
    ensures |es| == |log| && forall k :: 0 <= k < |log| ==> es[k] == EventOf(log[k])
  {
    seq(|log|, k requires 0 <= k < |log| => EventOf(log[k]))
  }

  lemma EventsSnoc(log: seq<Item>, i: Item)
    ensures Events(log + [i]) == Events(log) + [EventOf(i)]
  {
  }

  /** A log goes on by the given events. */
  predicate GoesOn(log: seq<Item>, log': seq<Item>, es: seq<Event>) {
    log <= log' && Events(log') == Events(log) + es
  }

  lemma GoesOnOn(log: seq<Item>, log': seq<Item>, log'': seq<Item>, es: seq<Event>, fs: seq<Event>)
    requires GoesOn(log, log', es) && GoesOn(log', log'', fs)
    ensures GoesOn(log, log'', es + fs)
  {
  }

  lemma OneMore(log: seq<Item>, i: Item)
    ensures GoesOn(log, log + [i], [EventOf(i)])
  {
    EventsSnoc(log, i);
  }

  lemma Idle(log: seq<Item>)
    ensures GoesOn(log, log, [])
  {
  }

  function Opt(b: bool, e: Event): seq<Event> {
    if b then [e] else []
  }

  /** The key exchange of a cipher. */
  datatype KeyExchange = Rsa | Ecdhe | Psk

  /** What the hello messages settle: whether a session is resumed, the kind of the cipher, SSL 3.0, and the extensions.
      params says that a server has parameters to send for the key exchange, request that it is to ask for a certificate,
      mustShow that it does not go on without one. */
  datatype Terms = Terms(resumed: bool, certAuth: bool, kx: KeyExchange, ssl3: bool, status: bool, ticket: bool,
                         nextProto: bool, channelId: bool, falseStart: bool, params: bool, request: bool, mustShow: bool)

  function RawOf(i: Item): seq<Byte> {
    if i.Sent? || i.Received? then i.m.raw else []
  }

  /** The messages of a handshake one after another, each once. */
  function Flatten(log: seq<Item>): seq<Byte> {
    if |log| == 0 then [] else Flatten(log[..|log| - 1]) + RawOf(log[|log| - 1])
  }

  lemma FlattenStep(log: seq<Item>, i: Item)
    ensures Flatten(log + [i]) == Flatten(log) + RawOf(i)
  {
    assert (log + [i])[..|log|] == log;
  }

  /** What is computed from messages: the Finished value of the server or the client over a transcript, a signature of ours,
      whether a body is a signature of the peer's, what the peer's hello settles, and whether a certificate or ticket message
      holds any. */
  datatype Crypto = Crypto(mac: (seq<Byte>, bool) -> seq<Byte>, sign: seq<Byte> -> seq<Byte>,
                           verify: (seq<Byte>, seq<Byte>) -> bool, terms: seq<Byte> -> Terms, holds: seq<Byte> -> bool)

  /** A message that covers the transcript covers all messages before it. */
  predicate Covers(c: Crypto, server: bool, before: seq<Byte>, i: Item) {
    match i
    case Sent(m) =>
      if m.kind == FINISHED then m.body == c.mac(before, server)
      else if m.kind == CERTIFICATE_VERIFY then m.body == c.sign(before)
      else true
    case Received(m) =>
      if m.kind == FINISHED then m.body == c.mac(before, !server)
      else if m.kind == CERTIFICATE_VERIFY then c.verify(before, m.body)
      else true
    case _ => true
  }

  predicate AllCover(c: Crypto, server: bool, log: seq<Item>) {
    |log| == 0 || (AllCover(c, server, log[..|log| - 1]) && Covers(c, server, Flatten(log[..|log| - 1]), log[|log| - 1]))
  }

  lemma AllCoverStep(c: Crypto, server: bool, log: seq<Item>, i: Item)
    requires AllCover(c, server, log) && Covers(c, server, Flatten(log), i)
    ensures AllCover(c, server, log + [i])
  {
    assert (log + [i])[..|log|] == log;
  }

  predicate Consumed(log: seq<Item>, kind: nat) {
    exists i :: i in log && i.Received? && i.m.kind == kind
  }

  predicate Emitted(log: seq<Item>, kind: nat) {
    exists i :: i in log && i.Sent? && i.m.kind == kind
  }

  lemma EventsTell(log: seq<Item>, kind: nat)
    ensures Consumed(log, kind) <==> In(kind) in Events(log)
    ensures Emitted(log, kind) <==> Out(kind) in Events(log)
  {
    if Consumed(log, kind) {
      var i :| i in log && i.Received? && i.m.kind == kind;
      var k :| 0 <= k < |log| && log[k] == i;
      assert Events(log)[k] == In(kind);
    }
    if In(kind) in Events(log) {
      var k :| 0 <= k < |log| && Events(log)[k] == In(kind);
      assert log[k] in log;
    }
    if Emitted(log, kind) {
      var i :| i in log && i.Sent? && i.m.kind == kind;
      var k :| 0 <= k < |log| && log[k] == i;
      assert Events(log)[k] == Out(kind);
    }
    if Out(kind) in Events(log) {
      var k :| 0 <= k < |log| && Events(log)[k] == Out(kind);
      assert log[k] in log;
    }
  }

  /** Every message of the given kind that was sent came after the check. */
  predicate SentAfter(log: seq<Item>, kind: nat, check: Item) {
    |log| == 0 ||
    (SentAfter(log[..|log| - 1], kind, check) &&
     (log[|log| - 1].Sent? && log[|log| - 1].m.kind == kind ==> check in log[..|log| - 1]))
  }

  /** Of any prefix that ends with such a message the check is part. */
  lemma {:induction false} SentAfterMeaning(log: seq<Item>, kind: nat, check: Item, k: nat)
    requires SentAfter(log, kind, check) && k < |log| && log[k].Sent? && log[k].m.kind == kind
    ensures check in log[..k]
    decreases |log|
  {
    var front := log[..|log| - 1];
    if k < |front| {
      SentAfterMeaning(front, kind, check, k);
      assert front[..k] == log[..k];
    }
  }

  /** One event comes before another. */
  ghost predicate Precedes(log: seq<Item>, a: Event, b: Event) {
    exists i, j :: 0 <= i < j < |log| && EventOf(log[i]) == a && EventOf(log[j]) == b
  }

  /** What is in the part before an event comes before it, what is in the part after it comes after it. */
  lemma ComesAround(log: seq<Item>, before: seq<Event>, e: Event, after: seq<Event>, a: Event, b: Event)
    requires Events(log) == before + [e] + after && a in before && b in after
    ensures Precedes(log, a, e) && Precedes(log, e, b)
  {
    var i :| 0 <= i < |before| && before[i] == a;
    var j :| 0 <= j < |after| && after[j] == b;
    var all, n := Events(log), |before|;
    assert all[i] == a && all[n] == e && all[n + 1 + j] == b;
    assert EventOf(log[i]) == a && EventOf(log[n]) == e && EventOf(log[n + 1 + j]) == b;
  }

  /** A message that was sent once is sent after whatever was done before it. */
  lemma {:induction false} OnceMeansAfter(log: seq<Item>, before: seq<Event>, after: seq<Event>, kind: nat, act: Act)
    requires Events(log) == before + [Out(kind)] + after && Did(act) in before && Out(kind) !in before && Out(kind) !in after
    ensures SentAfter(log, kind, Noted(act))
    decreases |after|
  {
    var n := |before|;
    var j :| 0 <= j < n && before[j] == Did(act);
    assert Events(log)[j] == Did(act) && log[j] == Noted(act);
    OnlyThere(before, Out(kind), after);
    forall k | 0 <= k < |log| && log[k].Sent? && log[k].m.kind == kind
      ensures k == n
    {
      assert Events(log)[k] == Out(kind);
    }
    SentAfterAll(log, kind, Noted(act), j, n);
  }

  lemma OnlyThere(before: seq<Event>, e: Event, after: seq<Event>)
    requires e !in before && e !in after
    ensures var all := before + [e] + after; forall k :: 0 <= k < |all| && all[k] == e ==> k == |before|
  {
    var all := before + [e] + after;
    assert forall k :: 0 <= k < |before| ==> all[k] == before[k];
    assert forall k :: |before| < k < |all| ==> all[k] == after[k - |before| - 1];
  }

  lemma {:induction false} SentAfterAll(log: seq<Item>, kind: nat, check: Item, j: nat, n: nat)
    requires j < |log| ==> log[j] == check
    requires j < n && forall k :: 0 <= k < |log| && log[k].Sent? && log[k].m.kind == kind ==> k == n
    ensures SentAfter(log, kind, check)
    decreases |log|
  {
    if |log| > 0 {
      var front := log[..|log| - 1];
      SentAfterAll(front, kind, check, j, n);
      if n == |log| - 1 {
        assert front[j] == check;
      }
    }
  }

  /** What is left of the environment, and how often something was not there yet. */
  datatype Counts = Counts(fuel: nat, pendings: nat, stalls: nat)

  /** The environment is only used up, and what is counted only grows. */
  predicate Onward(before: Counts, after: Counts) {
    after.fuel <= before.fuel && after.pendings >= before.pendings && after.stalls >= before.stalls
  }

  /** A handshake's connection. buffer and hash are the two forms of the transcript: all octets, and the running hash, which
      stands for the octets that went into it. */
  class Connection {
    const server: bool
    const crypto: Crypto
    var buffer: Option<seq<Byte>>
    var hash: Option<seq<Byte>>
    var inbox: seq<Message>
    // The environment.
    var arrivals: seq<Arrival>
    var answers: seq<int>
    var drafts: seq<seq<Byte>>
    // What was done since the transcript was last initialised.
    ghost var log: seq<Item>
    // How often the environment said no, or not yet, and how often the peer sent what could not be accepted.
    ghost var denials: nat
    ghost var pendings: nat
    ghost var refusals: nat
    // How often what the handshake waits for did not come.
    ghost var stalls: nat

    /** Each form of the transcript that is kept holds exactly the messages sent and consumed, in order, each once. */
    ghost predicate InStep()
      reads `buffer, `hash, `log
    {
      && (buffer.Some? ==> buffer.value == Flatten(log))
      && (hash.Some? ==> hash.value == Flatten(log))
      && AllCover(crypto, server, log)
    }

    constructor (isServer: bool, c: Crypto, peer: seq<Arrival>, choices: seq<int>, contents: seq<seq<Byte>>)
      ensures InStep() && buffer.Some? && hash.None? && log == [] && server == isServer && crypto == c
    {
      server, crypto, arrivals, answers, drafts := isServer, c, peer, choices, contents;
      buffer, hash, inbox, log := Some([]), None, [], [];
      denials, pendings, refusals, stalls := 0, 0, 0, 0;
    }

    /** Starts the transcript over. */
    method Init()
      modifies this`buffer, this`hash, this`log
      ensures InStep() && buffer.Some? && hash.None? && log == []
    {
      buffer, hash, log := Some([]), None, [];
    }

    method InitHash()
      requires buffer.Some? && InStep()
      modifies this`hash
      ensures InStep() && hash.Some?
    {
      hash := buffer;
    }

    method FreeBuffer()
      modifies this`buffer
      ensures buffer.None? && (old(InStep()) ==> InStep())
    {
      buffer := None;
    }

    method Update(raw: seq<Byte>)
      modifies this`buffer, this`hash
      ensures buffer == if old(buffer).Some? then Some(old(buffer).value + raw) else None
      ensures hash == if old(hash).Some? then Some(old(hash).value + raw) else None
    {
      if buffer.Some? {
        buffer := Some(buffer.value + raw);
      }
      if hash.Some? {
        hash := Some(hash.value + raw);
      }
    }

    /** The environment's answer to a question; zero once it has run out of answers. */
    method Ask() returns (a: int)
      modifies this`answers
      ensures a == if |old(answers)| > 0 then old(answers)[0] else 0
      ensures answers == if |old(answers)| > 0 then old(answers)[1..] else []
    {
      if |answers| == 0 {
        return 0;
      }
      a := answers[0];
      answers := answers[1..];
    }

    /** Whether the environment lets a step go on: contents parse, memory is there, limits are kept. */
    method Allow() returns (ok: bool)
      modifies this`answers, this`denials
      ensures |answers| <= |old(answers)| && denials == old(denials) + if ok then 0 else 1
    {
      var a := Ask();
      ok := a != 0;
      if !ok {
        denials := denials + 1;
      }
    }

    /** The same for an operation that may have to be tried again: negative as long as it is not done. */
    method Consult() returns (a: int)
      modifies this`answers, this`denials, this`pendings
      ensures |answers| <= |old(answers)|
      ensures denials == old(denials) + if a == 0 then 1 else 0
      ensures pendings == old(pendings) + if a < 0 then 1 else 0
    {
      a := Ask();
      if a == 0 {
        denials := denials + 1;
      } else if a < 0 {
        pendings := pendings + 1;
      }
    }

    /** The message being processed stays the same until it is consumed. */
    method GetMessage() returns (m: Option<Message>)
      ensures m == if |inbox| > 0 then Some(inbox[0]) else None
    {
      m := if |inbox| > 0 then Some(inbox[0]) else None;
    }

    method NextMessage()
      requires |inbox| > 0
      modifies this`inbox, this`log
      ensures inbox == old(inbox)[1..] && log == old(log) + [Received(old(inbox)[0])]
    {
      log := log + [Received(inbox[0])];
      inbox := inbox[1..];
    }

    method HashMessage(m: Message)
      modifies this`buffer, this`hash
      ensures buffer == if old(buffer).Some? then Some(old(buffer).value + m.raw) else None
      ensures hash == if old(hash).Some? then Some(old(hash).value + m.raw) else None
    {
      Update(m.raw);
    }

    /** Notes what was done. */
    ghost method Note(act: Act)
      requires InStep()
      modifies this`log
      ensures InStep() && log == old(log) + [Noted(act)]
    {
      FlattenStep(log, Noted(act));
      AllCoverStep(crypto, server, log, Noted(act));
      log := log + [Noted(act)];
    }

    /** Does something that the environment may refuse, and that is not part of the transcript. */
    method Do(act: Act) returns (ok: bool)
      requires InStep() && !act.Selected?
      modifies this`log, this`answers, this`denials
      ensures InStep() && |answers| <= |old(answers)|
      ensures if ok then GoesOn(old(log), log, [Did(act)]) else log == old(log)
      ensures denials == old(denials) + if ok then 0 else 1
    {
      ok := Allow();
      if ok {
        Note(act);
        OneMore(old(log), Noted(act));
      }
    }

    /** The same for what may have to be tried again. */
    method Attempt(act: Act) returns (a: int)
      requires InStep() && !act.Selected?
      modifies this`log, this`answers, this`denials, this`pendings
      ensures InStep() && |answers| <= |old(answers)|
      ensures if a > 0 then GoesOn(old(log), log, [Did(act)]) else log == old(log)
      ensures denials == old(denials) + if a == 0 then 1 else 0
      ensures pendings == old(pendings) + if a < 0 then 1 else 0
    {
      a := Consult();
      if a > 0 {
        Note(act);
        OneMore(old(log), Noted(act));
      }
    }

    /** The application's choice. */
    method Select() returns (has: bool)
      requires InStep()
      modifies this`log, this`answers
      ensures InStep() && |answers| <= |old(answers)|
      ensures has == (|old(answers)| > 0 && old(answers)[0] != 0)
      ensures GoesOn(old(log), log, [Did(Selected(has))])
    {
      var a := Ask();
      has := a != 0;
      Note(Selected(has));
      OneMore(old(log), Noted(Selected(has)));
    }

    /** After hashing and consuming the current message the transcript is in step again. */
    lemma ConsumedInStep(was: seq<Item>, buffer0: Option<seq<Byte>>, hash0: Option<seq<Byte>>, m: Message)
      requires buffer0.Some? ==> buffer0.value == Flatten(was)
      requires hash0.Some? ==> hash0.value == Flatten(was)
      requires AllCover(crypto, server, was) && Covers(crypto, server, Flatten(was), Received(m))
      requires buffer == (if buffer0.Some? then Some(buffer0.value + m.raw) else None)
      requires hash == (if hash0.Some? then Some(hash0.value + m.raw) else None)
      requires log == was + [Received(m)]
      ensures InStep()
    {
      FlattenStep(was, Received(m));
      AllCoverStep(crypto, server, was, Received(m));
    }

    /** The common way to read a message: wait for it, check its type, hash it, check its contents, consume it. */
    method ReadHashed(kind: nat) returns (w: Wait)
      requires InStep() && kind != FINISHED && kind != CERTIFICATE_VERIFY
      modifies this`buffer, this`hash, this`inbox, this`log, this`answers, this`denials
      ensures |answers| <= |old(answers)| && denials >= old(denials)
      ensures buffer.Some? == old(buffer).Some? && hash.Some? == old(hash).Some?
      ensures if |old(inbox)| == 0 then w == ReadMessage else w == Ok || w == Error
      ensures w == Ok ==>
                && InStep() && old(inbox)[0].kind == kind
                && log == old(log) + [Received(old(inbox)[0])] && inbox == old(inbox)[1..]
      ensures w == ReadMessage ==>
                InStep() && log == old(log) && buffer == old(buffer) && hash == old(hash) && inbox == old(inbox)
      ensures w == Error ==> log == old(log) && (denials > old(denials) || old(inbox)[0].kind != kind)
    {
      hide Flatten, AllCover;
      var msg := GetMessage();
      if msg.None? {
        return ReadMessage;
      }
      if msg.value.kind != kind {
        return Error;
      }
      HashMessage(msg.value);
      var parsed := Allow();
      if !parsed {
        return Error;
      }
      NextMessage();
      ConsumedInStep(old(log), old(buffer), old(hash), msg.value);
      return Ok;
    }

    /** Consumes the message after which the transcript can be hashed, as the hash is known now; keeps the buffer only if
        it will be signed. */
    method StartHash(keepBuffer: bool) returns (ok: bool)
      requires InStep() && buffer.Some? && |inbox| > 0 && inbox[0].kind != FINISHED && inbox[0].kind != CERTIFICATE_VERIFY
      modifies this`buffer, this`hash, this`inbox, this`log, this`answers, this`denials
      ensures |answers| <= |old(answers)| && denials == old(denials) + if ok then 0 else 1
      ensures ok ==> InStep() && hash.Some? && buffer.Some? == keepBuffer
      ensures ok ==> log == old(log) + [Received(old(inbox)[0])] && inbox == old(inbox)[1..]
    {
      hide Flatten, AllCover;
      var msg := inbox[0];
      InitHash();
      HashMessage(msg);
      if !keepBuffer {
        FreeBuffer();
      }
      ok := Allow();
      if !ok {
        return;
      }
      NextMessage();
      ConsumedInStep(old(log), if keepBuffer then old(buffer) else None, old(buffer), msg);
    }

    /** Sends a message: hands it to the record layer, and adds it to the transcript. */
    method AddMessage(kind: nat, body: seq<Byte>) returns (ok: bool)
      requires InStep()
      requires kind == FINISHED ==> body == crypto.mac(Flatten(log), server)
      requires kind == CERTIFICATE_VERIFY ==> body == crypto.sign(Flatten(log))
      modifies this`buffer, this`hash, this`log, this`answers, this`drafts, this`denials
      ensures |answers| <= |old(answers)| && denials == old(denials) + if ok then 0 else 1
      ensures buffer.Some? == old(buffer).Some? && hash.Some? == old(hash).Some?
      ensures ok ==> InStep() && IsSent(old(log), log, kind) && log[|log| - 1].m.body == body
      ensures !ok ==> log == old(log)
    {
      hide Flatten, AllCover;
      var header := if |drafts| > 0 then drafts[0] else [];
      drafts := if |drafts| > 0 then drafts[1..] else [];
      var m := Message(kind, header + body, body);
      ok := Allow();
      if !ok {
        return;
      }
      FlattenStep(log, Sent(m));
      AllCoverStep(crypto, server, log, Sent(m));
      Update(m.raw);
      log := log + [Sent(m)];
    }

    /** The log has grown by a message sent. */
    static predicate IsSent(log: seq<Item>, log': seq<Item>, kind: nat) {
      |log'| == |log| + 1 && log' == log + [log'[|log|]] && log'[|log|].Sent? && log'[|log|].m.kind == kind
    }

    /** Sends a message with contents of the environment's. */
    method Send(kind: nat) returns (ok: bool)
      requires InStep() && kind != FINISHED && kind != CERTIFICATE_VERIFY
      modifies this`buffer, this`hash, this`log, this`answers, this`drafts, this`denials
      ensures |answers| <= |old(answers)| && denials == old(denials) + if ok then 0 else 1
      ensures buffer.Some? == old(buffer).Some? && hash.Some? == old(hash).Some?
      ensures ok ==> InStep() && GoesOn(old(log), log, [Out(kind)])
      ensures !ok ==> log == old(log)
    {
      hide Flatten, AllCover, InStep, Events, GoesOn;
      var body := if |drafts| > 0 then drafts[0] else [];
      drafts := if |drafts| > 0 then drafts[1..] else [];
      ok := AddMessage(kind, body);
      if ok {
        OneMore(old(log), log[|log| - 1]);
      }
    }

    /** Sends a message only if it is agreed on. */
    method SendIf(agreed: bool, kind: nat) returns (ok: bool)
      requires InStep() && kind != FINISHED && kind != CERTIFICATE_VERIFY
      modifies this`buffer, this`hash, this`log, this`answers, this`drafts, this`denials
      ensures |answers| <= |old(answers)| && denials == old(denials) + if ok then 0 else 1
      ensures buffer.Some? == old(buffer).Some? && hash.Some? == old(hash).Some?
      ensures ok ==> InStep() && GoesOn(old(log), log, Opt(agreed, Out(kind)))
      ensures !ok ==> log == old(log)
    {
      hide Flatten, AllCover, InStep, Events, GoesOn;
      ok := true;
      Idle(log);
      if agreed {
        ok := Send(kind);
      }
    }

    /** Two messages, each only if it is agreed on. */
    method SendEachIf(agreed: bool, kind: nat, agreed': bool, kind': nat) returns (ok: bool)
      requires InStep() && kind != FINISHED && kind != CERTIFICATE_VERIFY && kind' != FINISHED && kind' != CERTIFICATE_VERIFY
      modifies this`buffer, this`hash, this`log, this`answers, this`drafts, this`denials
      ensures |answers| <= |old(answers)| && denials == old(denials) + if ok then 0 else 1
      ensures buffer.Some? == old(buffer).Some? && hash.Some? == old(hash).Some?
      ensures ok ==> InStep() && GoesOn(old(log), log, Opt(agreed, Out(kind)) + Opt(agreed', Out(kind')))
    {
      hide Flatten, AllCover, InStep, Events, GoesOn, Opt;
      ok := SendIf(agreed, kind);
      if ok {
        ghost var mid := log;
        ok := SendIf(agreed', kind');
        if ok {
          GoesOnOn(old(log), mid, log, Opt(agreed, Out(kind)), Opt(agreed', Out(kind')));
        }
      }
    }

    /** Checks the peer's signature over everything before it. The buffer is not needed after that. */
    method ReadCertificateVerify() returns (w: Wait)
      requires InStep() && buffer.Some?
      modifies this`buffer, this`hash, this`inbox, this`log, this`answers, this`denials
      ensures |answers| <= |old(answers)| && denials >= old(denials)
      ensures hash.Some? == old(hash).Some?
      ensures if |old(inbox)| == 0 then w == ReadMessage else w == Ok || w == Error
      ensures w == Ok ==>
                && InStep() && old(inbox)[0].kind == CERTIFICATE_VERIFY && buffer.None?
                && log == old(log) + [Received(old(inbox)[0])] && inbox == old(inbox)[1..]
      ensures w == ReadMessage ==>
                InStep() && log == old(log) && buffer == old(buffer) && hash == old(hash) && inbox == old(inbox)
      ensures w == Error ==>
                && log == old(log)
                && (denials > old(denials) || old(inbox)[0].kind != CERTIFICATE_VERIFY
                    || !crypto.verify(Flatten(old(log)), old(inbox)[0].body))
    {
      hide Flatten, AllCover;
      var msg := GetMessage();
      if msg.None? {
        return ReadMessage;
      }
      if msg.value.kind != CERTIFICATE_VERIFY {
        return Error;
      }
      var parsed := Allow();
      if !parsed || !crypto.verify(buffer.value, msg.value.body) {
        return Error;
      }
      FreeBuffer();
      HashMessage(msg.value);
      NextMessage();
      ConsumedInStep(old(log), None, old(hash), msg.value);
      return Ok;
    }

    /** Checks the peer's Finished against the hash of everything before it. */
    method GetFinished() returns (w: Wait)
      requires InStep() && hash.Some?
      modifies this`buffer, this`hash, this`inbox, this`log
      ensures buffer.Some? == old(buffer).Some? && hash.Some? == old(hash).Some?
      ensures w == (if |old(inbox)| == 0 then ReadMessage
                    else if IsFinished(old(log), old(inbox)[0]) then Ok else Error)
      ensures w == Ok ==> InStep() && log == old(log) + [Received(old(inbox)[0])] && inbox == old(inbox)[1..]
      ensures w == ReadMessage ==>
                InStep() && log == old(log) && buffer == old(buffer) && hash == old(hash) && inbox == old(inbox)
      ensures w == Error ==> log == old(log)
    {
      hide Flatten, AllCover;
      var msg := GetMessage();
      if msg.None? {
        return ReadMessage;
      }
      if msg.value.kind != FINISHED {
        return Error;
      }
      var finished := crypto.mac(hash.value, !server);
      HashMessage(msg.value);
      if msg.value.body != finished {
        return Error;
      }
      NextMessage();
      ConsumedInStep(old(log), old(buffer), old(hash), msg.value);
      return Ok;
    }

    /** The peer's Finished over all messages before it. */
    predicate IsFinished(before: seq<Item>, m: Message) {
      m.kind == FINISHED && m.body == crypto.mac(Flatten(before), !server)
    }

    method SendFinished() returns (ok: bool)
      requires InStep() && hash.Some?
      modifies this`buffer, this`hash, this`log, this`answers, this`drafts, this`denials
      ensures |answers| <= |old(answers)| && denials == old(denials) + if ok then 0 else 1
      ensures buffer.Some? == old(buffer).Some? && hash.Some? == old(hash).Some?
      ensures ok ==> InStep() && GoesOn(old(log), log, [Out(FINISHED)])
      ensures !ok ==> log == old(log)
    {
      hide Flatten, AllCover, Events, GoesOn;
      ok := AddMessage(FINISHED, crypto.mac(hash.value, server));
      if ok {
        OneMore(old(log), log[|log| - 1]);
      }
    }

    /** How much of the environment is left. */
    ghost function Fuel(): nat
      reads this
    {
      |arrivals| + |answers|
    }

    ghost function Tally(): Counts
      reads this
    {
      Counts(Fuel(), pendings, stalls)
    }

    /** Resolves what the handshake waits for. Nothing of the transcript changes; while it stays blocked, nothing at all
        needs to be done again. */
    method Resolve(w: Wait) returns (resolved: bool)
      requires w != Ok && w != Error
      modifies this`arrivals, this`answers, this`inbox, this`stalls
      ensures stalls == old(stalls) + if resolved then 0 else 1
      ensures resolved ==> Fuel() < old(Fuel())
      ensures Fuel() <= old(Fuel())
      ensures old(inbox) <= inbox
    {
      if w == ReadMessage || w == ReadServerHello {
        while |arrivals| > 0
          invariant old(inbox) == inbox && |arrivals| + |answers| <= old(Fuel()) && answers == old(answers)
          invariant stalls == old(stalls)
          decreases |arrivals|
        {
          var a := arrivals[0];
          arrivals := arrivals[1..];
          if a.Comes? {
            inbox := inbox + [a.m];
            return true;
          }
          if a.Blocks? {
            break;
          }
        }
        stalls := stalls + 1;
        return false;
      }
      var a := Ask();
      resolved := a != 0;
      if !resolved {
        stalls := stalls + 1;
      }
    }
  }
}
