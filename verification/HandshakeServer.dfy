/** The server's handshake below TLS 1.3, as a machine that can be left at any blocking point and run again. */
module HandshakeServer {
  import opened Bytes
  import opened HandshakeCore

  datatype State =
    | StartAccept | ReadClientHello | SelectCertificate | SelectParameters | SendServerHello | SendServerCertificate
    | SendKeyExchange | SendHelloDone | ReadClientCertificate | VerifyClientCertificate | ReadKeyExchange
    | ReadCertificateVerify | ReadChangeCipher | ProcessChangeCipher | ReadNextProto | ReadChannelId | ReadFinished
    | SendFinished | Finish | Done

  /** How far a state is from the end: a resumed handshake sends the server's Finished before it reads the client's. */
  function Rank(s: State, resumed: bool): (r: nat)
    ensures r <= 22 && (r == 0 <==> s.Done?)
  {
    match s
    case StartAccept => 22
    case ReadClientHello => 21
    case SelectCertificate => 20
    case SelectParameters => 19
    case SendServerHello => 18
    case SendServerCertificate => 17
    case SendKeyExchange => 16
    case SendHelloDone => 15
    case ReadClientCertificate => 14
    case VerifyClientCertificate => 13
    case ReadKeyExchange => 12
    case ReadCertificateVerify => 11
    case ReadChangeCipher => 8
    case ProcessChangeCipher => 7
    case ReadNextProto => 6
    case ReadChannelId => 5
    case ReadFinished => 4
    case SendFinished => if resumed then 9 else 3
    case Finish => 1
    case Done => 0
  }

  /** What distinguishes one handshake from another: what the ClientHello and our configuration settle, whether the client
      sent a Certificate message, and whether there was a certificate in it. */
  datatype Course = Course(terms: Terms, certRequest: bool, certificateCame: bool, clientCert: bool)

  /** What the invariant of the machine is about. */
  datatype View = View(state: State, course: Course, needsParams: bool, buffered: bool, hashed: bool, log: seq<Item>)

  /** How things stand before a step. */
  datatype Standing = Standing(
    view: View, inbox: seq<Message>, denials: nat, pendings: nat, refusals: nat, stalls: nat, fuel: nat)

  function RankOf(v: View): nat {
    Rank(v.state, v.course.terms.resumed)
  }

  // What has been done by the time a state is reached: each stage in terms of the one before.

  function HelloRead(): seq<Event> {
    [In(CLIENT_HELLO)]
  }

  function HelloSent(): seq<Event> {
    HelloRead() + [Out(SERVER_HELLO)]
  }

  function Certificates(c: Course): seq<Event> {
    Opt(c.terms.certAuth, Out(CERTIFICATE)) + Opt(c.terms.certAuth && c.terms.status, Out(CERTIFICATE_STATUS))
  }

  function CertificateSent(c: Course): seq<Event> {
    HelloSent() + Certificates(c)
  }

  /** Our parameters for the key exchange, signed if we have shown a certificate. */
  function Params(c: Course): seq<Event> {
    Opt(c.terms.params && c.terms.certAuth, Did(KeyExchangeSigned)) + Opt(c.terms.params, Out(SERVER_KEY_EXCHANGE))
  }

  function ParamsSent(c: Course): seq<Event> {
    CertificateSent(c) + Params(c)
  }

  function HelloDoneSent(c: Course): seq<Event> {
    ParamsSent(c) + (Opt(c.certRequest, Out(CERTIFICATE_REQUEST)) + [Out(SERVER_HELLO_DONE)])
  }

  function CertificateRead(c: Course): seq<Event> {
    HelloDoneSent(c) + Opt(c.certificateCame, In(CERTIFICATE))
  }

  function CertificateVerified(c: Course): seq<Event> {
    CertificateRead(c) + Opt(c.clientCert, Did(CertificateOk))
  }

  function KeyExchangeRead(c: Course): seq<Event> {
    CertificateVerified(c) + [In(CLIENT_KEY_EXCHANGE)]
  }

  function SignatureRead(c: Course): seq<Event> {
    KeyExchangeRead(c) + Opt(c.clientCert, In(CERTIFICATE_VERIFY))
  }

  /** The server's own last messages. */
  function OwnEnd(c: Course): seq<Event> {
    Opt(c.terms.ticket, Out(NEW_SESSION_TICKET)) + [Did(WriteCipherChanged)] + [Out(FINISHED)]
  }

  /** What is done before the client's last messages: in a resumed handshake the server goes first. */
  function BeforePeersEnd(c: Course): seq<Event> {
    if c.terms.resumed then HelloSent() + OwnEnd(c) else SignatureRead(c)
  }

  function CipherRead(c: Course): seq<Event> {
    BeforePeersEnd(c) + [Did(ReadCipherChanged)]
  }

  function NextProtoRead(c: Course): seq<Event> {
    CipherRead(c) + Opt(c.terms.nextProto, In(NEXT_PROTO))
  }

  function ChannelIdRead(c: Course): seq<Event> {
    NextProtoRead(c) + Opt(c.terms.channelId, In(CHANNEL_ID))
  }

  function FinishedRead(c: Course): seq<Event> {
    ChannelIdRead(c) + [In(FINISHED)]
  }

  /** The whole handshake. */
  function AllDone(c: Course): seq<Event> {
    if c.terms.resumed then FinishedRead(c) else FinishedRead(c) + OwnEnd(c)
  }

  function Past(s: State, c: Course): seq<Event> {
    match s
    case StartAccept => []
    case ReadClientHello => []
    case SelectCertificate => []
    case SelectParameters => []
    case SendServerHello => HelloRead()
    case SendServerCertificate => HelloSent()
    case SendKeyExchange => CertificateSent(c)
    case SendHelloDone => ParamsSent(c)
    case ReadClientCertificate => HelloDoneSent(c)
    case VerifyClientCertificate => CertificateRead(c)
    case ReadKeyExchange => CertificateVerified(c)
    case ReadCertificateVerify => KeyExchangeRead(c)
    case ReadChangeCipher => BeforePeersEnd(c)
    case ProcessChangeCipher => BeforePeersEnd(c)
    case ReadNextProto => CipherRead(c)
    case ReadChannelId => NextProtoRead(c)
    case ReadFinished => ChannelIdRead(c)
    case SendFinished => if c.terms.resumed then HelloSent() else FinishedRead(c)
    case Finish => AllDone(c)
    case Done => AllDone(c)
  }

  /** Before the parameters are settled the whole transcript is buffered; from then on it is hashed, and buffered only as long
      as a signature of the client's may have to be checked. */
  predicate TranscriptKept(v: View) {
    && (if RankOf(v) >= 19 then v.buffered && !v.hashed else v.hashed)
    && (14 <= RankOf(v) <= 18 && v.course.certRequest ==> v.buffered)
    && (11 <= RankOf(v) <= 13 && v.course.clientCert ==> v.buffered)
  }

  /** Who may have to show a certificate. */
  predicate Ruled(v: View) {
    var c := v.course;
    && (10 <= RankOf(v) <= 17 ==> !c.terms.resumed)
    && (c.certRequest <==> RankOf(v) < 19 && c.terms.request && c.terms.certAuth && !c.terms.resumed)
    && (c.certificateCame ==> c.certRequest && RankOf(v) < 14)
    && (c.clientCert ==> c.certificateCame)
    && (c.certRequest && RankOf(v) < 14 ==>
          (c.terms.mustShow ==> c.clientCert) && (c.terms.ssl3 ==> c.certificateCame == c.clientCert)
          && (!c.certificateCame ==> c.terms.ssl3))
    && (v.state == SendKeyExchange ==> v.needsParams == c.terms.params)
  }

  predicate Agreed(c: Crypto, log: seq<Item>, terms: Terms) {
    |log| >= 1 && log[0].Received? && log[0].m.kind == CLIENT_HELLO && terms == c.terms(log[0].m.body)
  }

  /** The history is that of the state, and the terms are those of the ClientHello. */
  predicate Coherent(c: Crypto, v: View) {
    && TranscriptKept(v) && Ruled(v) && Events(v.log) == Past(v.state, v.course)
    && (RankOf(v) < 19 ==> Agreed(c, v.log, v.course.terms))
  }

  /** Where the machine may go from a state without learning anything, and what it has to do for it. */
  predicate Leads(v: View, s: State, es: seq<Event>) {
    var c := v.course;
    match v.state
    case StartAccept => s == ReadClientHello && es == []
    case ReadClientHello => s == SelectCertificate && es == []
    case SelectCertificate => s == SelectParameters && es == []
    case SendServerHello => s == (if c.terms.resumed then SendFinished else SendServerCertificate) && es == [Out(SERVER_HELLO)]
    case SendServerCertificate => s == SendKeyExchange && es == Certificates(c)
    case SendKeyExchange => s == SendHelloDone && es == Params(c)
    case SendHelloDone =>
      s == ReadClientCertificate && es == Opt(c.certRequest, Out(CERTIFICATE_REQUEST)) + [Out(SERVER_HELLO_DONE)]
    case VerifyClientCertificate => s == ReadKeyExchange && es == Opt(c.clientCert, Did(CertificateOk))
    case ReadKeyExchange => s == ReadCertificateVerify && es == [In(CLIENT_KEY_EXCHANGE)]
    case ReadCertificateVerify => s == ReadChangeCipher && es == Opt(c.clientCert, In(CERTIFICATE_VERIFY))
    case ReadChangeCipher => s == ProcessChangeCipher && es == []
    case ProcessChangeCipher => s == ReadNextProto && es == [Did(ReadCipherChanged)]
    case ReadNextProto => s == ReadChannelId && es == Opt(c.terms.nextProto, In(NEXT_PROTO))
    case ReadChannelId => s == ReadFinished && es == Opt(c.terms.channelId, In(CHANNEL_ID))
    case ReadFinished => s == (if c.terms.resumed then Finish else SendFinished) && es == [In(FINISHED)]
    case SendFinished => s == (if c.terms.resumed then ReadChangeCipher else Finish) && es == OwnEnd(c)
    case Finish => s == Done && es == []
    case _ => false
  }

  /** A transition with its events keeps the invariant and brings the machine nearer to the end. */
  lemma MovesOn(c: Crypto, v: View, v': View, es: seq<Event>)
    requires Coherent(c, v) && GoesOn(v.log, v'.log, es) && Leads(v, v'.state, es) && v'.course == v.course
    requires v'.hashed == v.hashed && (v'.buffered == v.buffered || v.state == ReadCertificateVerify)
    requires v'.state == SendKeyExchange ==> v'.needsParams == v.course.terms.params
    ensures Coherent(c, v') && RankOf(v') < RankOf(v)
  {
    Staged(v, v'.state, es);
    StillRuled(v, v', es);
    hide Past, Events, Leads, TranscriptKept, Ruled;
  }

  lemma StillRuled(v: View, v': View, es: seq<Event>)
    requires TranscriptKept(v) && Ruled(v) && Leads(v, v'.state, es) && v'.course == v.course
    requires v'.hashed == v.hashed && (v'.buffered == v.buffered || v.state == ReadCertificateVerify)
    requires v'.state == SendKeyExchange ==> v'.needsParams == v.course.terms.params
    ensures TranscriptKept(v') && Ruled(v') && RankOf(v') < RankOf(v)
  {
    hide OwnEnd, Opt, Certificates, Params;
  }

  lemma Staged(v: View, s: State, es: seq<Event>)
    requires Leads(v, s, es) && Ruled(v)
    ensures Past(s, v.course) == Past(v.state, v.course) + es
  {
    if Rank(v.state, v.course.terms.resumed) >= 14 {
      StagedEarly(v, s, es);
    } else {
      StagedLate(v, s, es);
    }
  }

  lemma StagedEarly(v: View, s: State, es: seq<Event>)
    requires Leads(v, s, es) && Ruled(v) && Rank(v.state, v.course.terms.resumed) >= 14
    ensures Past(s, v.course) == Past(v.state, v.course) + es
  {
    hide Opt, Params, Certificates, OwnEnd, CertificateRead, SignatureRead, BeforePeersEnd, FinishedRead, ChannelIdRead;
  }

  lemma StagedLate(v: View, s: State, es: seq<Event>)
    requires Leads(v, s, es) && Ruled(v) && Rank(v.state, v.course.terms.resumed) < 14
    ensures Past(s, v.course) == Past(v.state, v.course) + es
  {
    hide Opt, OwnEnd, HelloSent, CertificateRead;
  }

  /** The parameters are settled: the transcript is hashed from here on, and kept only to check a client's signature. */
  lemma ParametersSettled(c: Crypto, v: View, v': View)
    requires Coherent(c, v) && v.state == SelectParameters && v'.state == SendServerHello
    requires GoesOn(v.log, v'.log, [In(CLIENT_HELLO)])
    requires var terms := v'.course.terms;
             v'.course == Course(terms, terms.request && terms.certAuth && !terms.resumed, false, false)
    requires v'.hashed && v'.buffered == v'.course.certRequest
    requires v'.log[|v'.log| - 1].Received? && v'.course.terms == c.terms(v'.log[|v'.log| - 1].m.body)
    ensures Coherent(c, v') && RankOf(v') < RankOf(v)
  {
    assert Events(v.log) == [];
    assert |v'.log| == |Events(v'.log)| == 1;
    assert Events(v'.log)[0] == In(CLIENT_HELLO);
    hide Events;
  }

  lemma ClientCertificateSettled(c: Crypto, v: View, v': View)
    requires Coherent(c, v) && v.state == ReadClientCertificate && v'.state == VerifyClientCertificate
    requires v'.course == v.course.(certificateCame := v'.course.certificateCame, clientCert := v'.course.clientCert)
    requires GoesOn(v.log, v'.log, Opt(v'.course.certificateCame, In(CERTIFICATE)))
    requires v'.hashed == v.hashed && (v'.course.clientCert ==> v'.buffered && v'.course.certificateCame)
    requires v'.course.certificateCame ==> v.course.certRequest
    requires v.course.certRequest ==> Suffices(v'.course)
    ensures Coherent(c, v') && RankOf(v') < RankOf(v)
  {
    hide Events, Opt;
  }

  /** What the client has shown is enough for a server that asked: nothing at all only in SSL 3.0. */
  predicate Suffices(c: Course) {
    && (c.terms.mustShow ==> c.clientCert) && (c.terms.ssl3 ==> c.certificateCame == c.clientCert)
    && (!c.certificateCame ==> c.terms.ssl3)
  }

  /** What the invariant says of the transcript in a state. */
  lemma Known(c: Crypto, v: View)
    requires Coherent(c, v)
    ensures RankOf(v) >= 19 ==> v.buffered && !v.hashed
    ensures RankOf(v) < 19 ==> v.hashed
    ensures v.state == SelectParameters ==> v.buffered && !v.course.certificateCame && !v.course.clientCert
    ensures v.state == ReadClientCertificate && v.course.certRequest ==> v.buffered
    ensures v.state == ReadClientCertificate ==> !v.course.clientCert && !v.course.certificateCame
    ensures v.state == ReadCertificateVerify && v.course.clientCert ==> v.buffered
    ensures v.state == SendKeyExchange ==> v.needsParams == v.course.terms.params
    ensures v.state == SendFinished || v.state == ReadFinished ==> v.hashed
  {
    hide Past, Events;
  }

  lemma Started(c: Crypto, terms: Terms)
    ensures Coherent(c, View(StartAccept, Course(terms, false, false, false), false, true, false, []))
  {
  }

  class Server {
    const conn: Connection
    var state: State
    var wait: Wait
    // What the ClientHello and our configuration have settled.
    var terms: Terms
    // Parameters for the key exchange that are still to be signed and sent.
    var needsParams: bool
    var certRequest: bool
    var clientCert: bool
    // Whether the client has sent a Certificate message.
    ghost var certificateCame: bool

    ghost function Now(): View
      reads this, conn
    {
      View(state, Course(terms, certRequest, certificateCame, clientCert), needsParams, conn.buffer.Some?, conn.hash.Some?,
                                conn.log)
    }

    /** The transcript is in step with the messages, and the machine with its history. */
    ghost predicate Valid()
      reads this, conn
    {
      conn.server && conn.InStep() && Coherent(conn.crypto, Now())
    }

    /** noTerms stands for the cipher and extensions as long as there are none. */
    constructor (c: Connection, noTerms: Terms)
      requires c.server && c.InStep() && c.buffer.Some? && c.hash.None? && c.log == []
      ensures Valid() && conn == c && state == StartAccept && wait == Ok
    {
      conn, state, wait, terms := c, StartAccept, Ok, noTerms;
      needsParams, certRequest, clientCert, certificateCame := false, false, false, false;
      new;
      Started(c.crypto, noTerms);
    }

    /** Whether a message is one that the state can take. */
    ghost predicate Welcome(v: View, m: Message) {
      var terms := v.course.terms;
      match v.state
      case ReadClientHello => m.kind == CLIENT_HELLO
      case SelectParameters => m.kind == CLIENT_HELLO
      case ReadClientCertificate => v.course.certRequest ==> AcceptableCertificate(terms, m)
      case ReadKeyExchange => m.kind == CLIENT_KEY_EXCHANGE
      case ReadCertificateVerify =>
        v.course.clientCert ==> m.kind == CERTIFICATE_VERIFY && conn.crypto.verify(Flatten(v.log), m.body)
      case ReadNextProto => terms.nextProto ==> m.kind == NEXT_PROTO
      case ReadChannelId => terms.channelId ==> m.kind == CHANNEL_ID
      case ReadFinished => conn.IsFinished(v.log, m)
      case _ => true
    }

    /** A Certificate message that holds one, or none where there need not be any; in SSL 3.0 leaving the message out means to
        have none. */
    predicate AcceptableCertificate(terms: Terms, m: Message) {
      if m.kind == CERTIFICATE then conn.crypto.holds(m.body) || (!terms.ssl3 && !terms.mustShow)
      else terms.ssl3 && m.kind == CLIENT_KEY_EXCHANGE && !terms.mustShow
    }

    /** What a step is judged by. */
    ghost function Snapshot(): Standing
      reads this, conn
    {
      Standing(Now(), conn.inbox, conn.denials, conn.pendings, conn.refusals, conn.stalls, conn.Fuel())
    }

    /** A step that succeeds or flushes leads nearer to the end, with the history that belongs there. One that waits for a
        message or an operation has changed nothing. It fails only if the environment says no, or the peer sent what cannot
        be taken. */
    ghost predicate Kept(w: Wait, was: Standing)
      reads this, conn
    {
      && (w != Error ==> Valid())
      && (w == ReadMessage ==> Now() == was.view && conn.inbox == was.inbox == [])
      && (w == PendingOperation ==> Now() == was.view && conn.pendings > was.pendings)
      && (w.Ok? || w.Flush? || w.ReadChangeCipherSpec? ==> RankOf(Now()) < RankOf(was.view))
      && !w.EarlyReturn? && !w.ReadServerHello?
      && (w == Error ==> conn.denials > was.denials || conn.refusals > was.refusals)
      && conn.denials >= was.denials && conn.refusals >= was.refusals && conn.pendings >= was.pendings
      && conn.stalls >= was.stalls && conn.Fuel() <= was.fuel
    }

    /** Notes that the message at hand cannot be taken. */
    ghost method Refuse(v: View, m: Message)
      requires !Welcome(v, m)
      modifies conn`refusals
      ensures conn.refusals == old(conn.refusals) + 1
    {
      conn.refusals := conn.refusals + 1;
    }

    /** Reads a message without leaving the state. */
    method Read(kind: nat) returns (w: Wait)
      requires conn.InStep() && kind != FINISHED && kind != CERTIFICATE_VERIFY
      requires |conn.inbox| > 0 && conn.inbox[0].kind != kind ==> !Welcome(Now(), conn.inbox[0])
      modifies conn
      ensures if |old(conn.inbox)| == 0 then w == ReadMessage else w == Ok || w == Error
      ensures w != Error ==>
                conn.InStep() && conn.buffer.Some? == old(conn.buffer).Some? && conn.hash.Some? == old(conn.hash).Some?
      ensures w == Ok ==> GoesOn(old(conn.log), conn.log, [In(kind)])
      ensures w == ReadMessage ==> conn.log == old(conn.log) && conn.inbox == old(conn.inbox)
      ensures w == Error ==> conn.denials > old(conn.denials) || conn.refusals > old(conn.refusals)
      ensures conn.denials >= old(conn.denials) && conn.refusals >= old(conn.refusals) && Onward(old(conn.Tally()), conn.Tally())
    {
      hide Flatten, AllCover, Connection.InStep;
      ghost var v, inbox := Now(), conn.inbox;
      w := conn.ReadHashed(kind);
      if w == Ok {
        OneMore(v.log, Received(inbox[0]));
      } else if w == Error && inbox[0].kind != kind {
        Refuse(v, inbox[0]);
      }
    }

    /** Reads a message only if it is to come. */
    method ReadIf(due: bool, kind: nat) returns (w: Wait)
      requires conn.InStep() && kind != FINISHED && kind != CERTIFICATE_VERIFY
      requires due && |conn.inbox| > 0 && conn.inbox[0].kind != kind ==> !Welcome(Now(), conn.inbox[0])
      modifies conn
      ensures w == Ok || w == Error || (due && w == ReadMessage && |old(conn.inbox)| == 0)
      ensures w != Error ==>
                conn.InStep() && conn.buffer.Some? == old(conn.buffer).Some? && conn.hash.Some? == old(conn.hash).Some?
      ensures w == Ok ==> GoesOn(old(conn.log), conn.log, Opt(due, In(kind)))
      ensures w == ReadMessage ==> conn.log == old(conn.log) && conn.inbox == old(conn.inbox)
      ensures w == Error ==> conn.denials > old(conn.denials) || conn.refusals > old(conn.refusals)
      ensures conn.denials >= old(conn.denials) && conn.refusals >= old(conn.refusals) && Onward(old(conn.Tally()), conn.Tally())
    {
      hide Flatten, AllCover, Connection.InStep, Events, GoesOn, Welcome;
      Idle(conn.log);
      w := Ok;
      if due {
        w := Read(kind);
      }
    }

    method DoStartAccept() returns (w: Wait)
      requires Valid() && state == StartAccept
      modifies this, conn
      ensures Kept(w, old(Snapshot()))
    {
      hide Flatten, AllCover, Connection.InStep, Coherent, Events, Past, OwnEnd, Opt, GoesOn, RankOf;
      state := ReadClientHello;
      Idle(conn.log);
      MovesOn(conn.crypto, old(Now()), Now(), []);
      return Ok;
    }

    method DoReadClientHello() returns (w: Wait)
      requires Valid() && state == ReadClientHello
      modifies this, conn
      ensures Kept(w, old(Snapshot()))
    {
      hide Flatten, AllCover, Connection.InStep, Coherent, Events, Past, OwnEnd, Opt, GoesOn, RankOf;
      var msg := conn.GetMessage();
      if msg.None? {
        return ReadMessage;
      }
      if msg.value.kind != CLIENT_HELLO {
        Refuse(old(Now()), msg.value);
        return Error;
      }
      // The early callback may reject the connection or ask to be called again.
      var verdict := conn.Consult();
      if verdict <= 0 {
        return if verdict == 0 then Error else PendingOperation;
      }
      var ok := conn.Allow();
      if !ok {
        return Error;
      }
      state := SelectCertificate;
      Idle(conn.log);
      MovesOn(conn.crypto, old(Now()), Now(), []);
      return Ok;
    }

    method DoSelectCertificate() returns (w: Wait)
      requires Valid() && state == SelectCertificate
      modifies this, conn
      ensures Kept(w, old(Snapshot()))
    {
      hide Flatten, AllCover, Connection.InStep, Coherent, Events, Past, OwnEnd, Opt, GoesOn, RankOf;
      var msg := conn.GetMessage();
      if msg.None? {
        return ReadMessage;
      }
      var verdict := conn.Consult();
      if verdict <= 0 {
        return if verdict == 0 then Error else PendingOperation;
      }
      var ok := conn.Allow();
      if !ok {
        return Error;
      }
      state := SelectParameters;
      Idle(conn.log);
      MovesOn(conn.crypto, old(Now()), Now(), []);
      return Ok;
    }

    /** Takes over what the ClientHello settles, starts the hash and consumes the message. */
    method TakeHello() returns (ok: bool)
      requires conn.InStep() && conn.buffer.Some? && |conn.inbox| > 0 && conn.inbox[0].kind == CLIENT_HELLO
      modifies this`terms, this`certRequest, conn
      ensures ok ==>
                && conn.InStep() && conn.hash.Some? && conn.buffer.Some? == certRequest
                && terms == conn.crypto.terms(old(conn.inbox)[0].body)
                && certRequest == (terms.request && terms.certAuth && !terms.resumed)
                && conn.log == old(conn.log) + [Received(old(conn.inbox)[0])]
                && GoesOn(old(conn.log), conn.log, [In(CLIENT_HELLO)])
      ensures !ok ==> conn.denials > old(conn.denials)
      ensures conn.denials >= old(conn.denials) && conn.refusals == old(conn.refusals) && Onward(old(conn.Tally()), conn.Tally())
    {
      hide Flatten, AllCover, Connection.InStep, Coherent, Events, Past, GoesOn, RankOf;
      var msg := conn.inbox[0];
      ok := conn.Allow();
      if !ok {
        return;
      }
      terms := conn.crypto.terms(msg.body);
      // A certificate is asked for only in a full handshake with certificates.
      certRequest := terms.request && terms.certAuth && !terms.resumed;
      ok := conn.StartHash(certRequest);
      if ok {
        OneMore(old(conn.log), Received(msg));
      }
    }

    method DoSelectParameters() returns (w: Wait)
      requires Valid() && state == SelectParameters
      modifies this, conn
      ensures Kept(w, old(Snapshot()))
    {
      hide Flatten, AllCover, Connection.InStep, Coherent, Events, Past, OwnEnd, Opt, GoesOn, RankOf;
      Known(conn.crypto, Now());
      var msg := conn.GetMessage();
      if msg.None? {
        return ReadMessage;
      }
      if msg.value.kind != CLIENT_HELLO {
        Refuse(old(Now()), msg.value);
        return Error;
      }
      // A session may have to be looked up first.
      var verdict := conn.Consult();
      if verdict <= 0 {
        return if verdict == 0 then Error else PendingOperation;
      }
      var ok := TakeHello();
      if !ok {
        return Error;
      }
      state := SendServerHello;
      ParametersSettled(conn.crypto, old(Now()), Now());
      return Ok;
    }

    method DoSendServerHello() returns (w: Wait)
      requires Valid() && state == SendServerHello
      modifies this, conn
      ensures Kept(w, old(Snapshot()))
    {
      hide Flatten, AllCover, Connection.InStep, Coherent, Events, Past, OwnEnd, Opt, GoesOn, RankOf;
      var ok := conn.Send(SERVER_HELLO);
      if !ok {
        return Error;
      }
      state := if terms.resumed then SendFinished else SendServerCertificate;
      MovesOn(conn.crypto, old(Now()), Now(), [Out(SERVER_HELLO)]);
      return Ok;
    }

    /** Our certificate chain, with the status of the certificate if that was agreed on, and what is needed for the
        parameters of the key exchange. */
    method SendCertificates() returns (ok: bool)
      requires conn.InStep()
      modifies conn
      ensures ok ==>
                && conn.InStep() && conn.buffer.Some? == old(conn.buffer).Some? && conn.hash.Some? == old(conn.hash).Some?
                && GoesOn(old(conn.log), conn.log, Certificates(Now().course))
      ensures !ok ==> conn.denials > old(conn.denials)
      ensures conn.denials >= old(conn.denials) && conn.refusals == old(conn.refusals) && Onward(old(conn.Tally()), conn.Tally())
    {
      hide Flatten, AllCover, Connection.InStep, Coherent, Events, Past, GoesOn, RankOf, Opt;
      ok := conn.Allow();
      if ok {
        ok := conn.SendEachIf(terms.certAuth, CERTIFICATE, terms.certAuth && terms.status, CERTIFICATE_STATUS);
      }
      if ok {
        ok := conn.Allow();
      }
    }

    method DoSendServerCertificate() returns (w: Wait)
      requires Valid() && state == SendServerCertificate
      modifies this, conn
      ensures Kept(w, old(Snapshot()))
    {
      hide Flatten, AllCover, Connection.InStep, Coherent, Events, Past, Certificates, GoesOn, RankOf;
      var ok := SendCertificates();
      if !ok {
        return Error;
      }
      state, needsParams := SendKeyExchange, terms.params;
      MovesOn(conn.crypto, old(Now()), Now(), Certificates(Now().course));
      return Ok;
    }

    /** Signs our parameters if there is a certificate to sign them with, and sends them. Signing may take several calls. */
    method SendParams() returns (a: int)
      requires conn.InStep() && terms.params
      modifies conn
      ensures a > 0 ==>
                && conn.InStep() && conn.buffer.Some? == old(conn.buffer).Some? && conn.hash.Some? == old(conn.hash).Some?
                && GoesOn(old(conn.log), conn.log, Params(Now().course))
      ensures a == 0 ==> conn.denials > old(conn.denials)
      ensures a < 0 ==>
                && conn.InStep() && conn.log == old(conn.log) && conn.buffer == old(conn.buffer) && conn.hash == old(conn.hash)
                && conn.pendings > old(conn.pendings)
      ensures conn.denials >= old(conn.denials) && conn.refusals == old(conn.refusals) && Onward(old(conn.Tally()), conn.Tally())
    {
      hide Flatten, AllCover, Connection.InStep, Coherent, Events, Past, GoesOn, RankOf;
      Idle(conn.log);
      if terms.certAuth {
        a := conn.Attempt(KeyExchangeSigned);
        if a <= 0 {
          return;
        }
      }
      ghost var mid := conn.log;
      var ok := conn.Send(SERVER_KEY_EXCHANGE);
      a := if ok then 1 else 0;
      if ok {
        GoesOnOn(old(conn.log), mid, conn.log, Opt(terms.certAuth, Did(KeyExchangeSigned)), [Out(SERVER_KEY_EXCHANGE)]);
      }
    }

    method DoSendKeyExchange() returns (w: Wait)
      requires Valid() && state == SendKeyExchange
      modifies this, conn
      ensures Kept(w, old(Snapshot()))
    {
      hide Flatten, AllCover, Connection.InStep, Coherent, Events, Past, Params, GoesOn, RankOf;
      Known(conn.crypto, Now());
      if needsParams {
        var a := SendParams();
        if a <= 0 {
          return if a == 0 then Error else PendingOperation;
        }
        needsParams := false;
      } else {
        Idle(conn.log);
        NoParams(Now().course);
      }
      state := SendHelloDone;
      MovesOn(conn.crypto, old(Now()), Now(), Params(Now().course));
      return Ok;
    }

    lemma NoParams(c: Course)
      ensures !c.terms.params ==> Params(c) == []
    {
    }

    method DoSendHelloDone() returns (w: Wait)
      requires Valid() && state == SendHelloDone
      modifies this, conn
      ensures Kept(w, old(Snapshot()))
    {
      hide Flatten, AllCover, Connection.InStep, Coherent, Events, Past, OwnEnd, Opt, GoesOn, RankOf;
      var ok := conn.SendIf(certRequest, CERTIFICATE_REQUEST);
      if !ok {
        return Error;
      }
      ghost var mid := conn.log;
      ok := conn.Send(SERVER_HELLO_DONE);
      if !ok {
        return Error;
      }
      GoesOnOn(old(conn.log), mid, conn.log, Opt(certRequest, Out(CERTIFICATE_REQUEST)), [Out(SERVER_HELLO_DONE)]);
      state := ReadClientCertificate;
      MovesOn(conn.crypto, old(Now()), Now(), Opt(certRequest, Out(CERTIFICATE_REQUEST)) + [Out(SERVER_HELLO_DONE)]);
      return Flush;
    }

    /** Reads the client's certificates. An empty list may be refused, and leaves nothing to check a signature of. */
    method ReadCertificates() returns (w: Wait)
      requires Valid() && state == ReadClientCertificate && certRequest && |conn.inbox| > 0
      modifies this`clientCert, this`certificateCame, conn
      ensures w == Ok || w == Error
      ensures w == Ok ==>
                && conn.InStep() && conn.hash.Some? == old(conn.hash).Some? && (clientCert ==> conn.buffer.Some?)
                && certificateCame == (old(conn.inbox)[0].kind == CERTIFICATE)
                && clientCert == (certificateCame && conn.crypto.holds(old(conn.inbox)[0].body))
                && Suffices(Now().course)
                && GoesOn(old(conn.log), conn.log, Opt(certificateCame, In(CERTIFICATE)))
      ensures w == Error ==> conn.denials > old(conn.denials) || conn.refusals > old(conn.refusals)
      ensures conn.denials >= old(conn.denials) && conn.refusals >= old(conn.refusals) && Onward(old(conn.Tally()), conn.Tally())
    {
      hide Flatten, AllCover, Connection.InStep, Coherent, Events, Past, GoesOn, RankOf;
      ghost var v := Now();
      Known(conn.crypto, v);
      var msg := conn.inbox[0];
      if msg.kind != CERTIFICATE && !(terms.ssl3 && msg.kind == CLIENT_KEY_EXCHANGE && !terms.mustShow) {
        Refuse(v, msg);
        return Error;
      }
      w := ReadIf(msg.kind == CERTIFICATE, CERTIFICATE);
      if w != Ok {
        return;
      }
      certificateCame := msg.kind == CERTIFICATE;
      clientCert := msg.kind == CERTIFICATE && conn.crypto.holds(msg.body);
      if msg.kind == CERTIFICATE && !clientCert {
        conn.FreeBuffer();
        if terms.ssl3 || terms.mustShow {
          Refuse(v, msg);
          return Error;
        }
      }
    }

    method DoReadClientCertificate() returns (w: Wait)
      requires Valid() && state == ReadClientCertificate
      modifies this, conn
      ensures Kept(w, old(Snapshot()))
      ensures w == Ok ==>
                clientCert == (certRequest && |old(conn.inbox)| > 0 && old(conn.inbox)[0].kind == CERTIFICATE
                               && conn.crypto.holds(old(conn.inbox)[0].body))
    {
      hide Flatten, AllCover, Connection.InStep, Coherent, Events, Past, OwnEnd, Opt, GoesOn, RankOf;
      Known(conn.crypto, Now());
      Idle(conn.log);
      if certRequest {
        var msg := conn.GetMessage();
        if msg.None? {
          return ReadMessage;
        }
        w := ReadCertificates();
        if w != Ok {
          return;
        }
      }
      NoOpt(In(CERTIFICATE));
      state := VerifyClientCertificate;
      ClientCertificateSettled(conn.crypto, old(Now()), Now());
      return Ok;
    }

    lemma NoOpt(e: Event)
      ensures Opt(false, e) == []
    {
    }

    method DoVerifyClientCertificate() returns (w: Wait)
      requires Valid() && state == VerifyClientCertificate
      modifies this, conn
      ensures Kept(w, old(Snapshot()))
    {
      hide Flatten, AllCover, Connection.InStep, Coherent, Events, Past, GoesOn, RankOf, Connection.IsFinished;
      Idle(conn.log);
      if clientCert {
        var verdict := conn.Attempt(CertificateOk);
        if verdict <= 0 {
          return if verdict == 0 then Error else PendingOperation;
        }
      }
      state := ReadKeyExchange;
      MovesOn(conn.crypto, old(Now()), Now(), Opt(clientCert, Did(CertificateOk)));
      return Ok;
    }

    method DoReadKeyExchange() returns (w: Wait)
      requires Valid() && state == ReadKeyExchange
      modifies this, conn
      ensures Kept(w, old(Snapshot()))
    {
      hide Flatten, AllCover, Connection.InStep, Coherent, Events, Past, OwnEnd, Opt, GoesOn, RankOf;
      var msg := conn.GetMessage();
      if msg.None? {
        return ReadMessage;
      }
      if msg.value.kind != CLIENT_KEY_EXCHANGE {
        Refuse(old(Now()), msg.value);
        return Error;
      }
      // Decrypting the premaster secret may take several calls; only then is the message hashed.
      var key := conn.Consult();
      if key <= 0 {
        return if key == 0 then Error else PendingOperation;
      }
      w := Read(CLIENT_KEY_EXCHANGE);
      if w == Ok {
        state := ReadCertificateVerify;
        MovesOn(conn.crypto, old(Now()), Now(), [In(CLIENT_KEY_EXCHANGE)]);
      }
    }

    /** Checks the client's signature. */
    method CheckSignature() returns (w: Wait)
      requires Valid() && state == ReadCertificateVerify && clientCert
      modifies conn
      ensures w == Ok || w == Error || (w == ReadMessage && |old(conn.inbox)| == 0)
      ensures w == Ok ==>
                && conn.InStep() && conn.hash.Some? == old(conn.hash).Some?
                && GoesOn(old(conn.log), conn.log, [In(CERTIFICATE_VERIFY)])
      ensures w == ReadMessage ==>
                && conn.InStep() && conn.log == old(conn.log) && conn.inbox == old(conn.inbox)
                && conn.buffer == old(conn.buffer) && conn.hash == old(conn.hash)
      ensures w == Error ==> conn.denials > old(conn.denials) || conn.refusals > old(conn.refusals)
      ensures conn.denials >= old(conn.denials) && conn.refusals >= old(conn.refusals) && Onward(old(conn.Tally()), conn.Tally())
    {
      hide Flatten, AllCover, Connection.InStep, Coherent, Events, Past, GoesOn, RankOf;
      ghost var v, inbox, denials := Now(), conn.inbox, conn.denials;
      Known(conn.crypto, v);
      w := conn.ReadCertificateVerify();
      if w == Ok {
        OneMore(v.log, Received(inbox[0]));
      } else if w == Error && conn.denials == denials {
        Refuse(v, inbox[0]);
      }
    }

    method DoReadCertificateVerify() returns (w: Wait)
      requires Valid() && state == ReadCertificateVerify
      modifies this, conn
      ensures Kept(w, old(Snapshot()))
    {
      hide Flatten, AllCover, Connection.InStep, Coherent, Events, Past, GoesOn, RankOf, Connection.IsFinished;
      Idle(conn.log);
      if clientCert {
        w := CheckSignature();
        if w != Ok {
          return;
        }
      } else {
        conn.FreeBuffer();
      }
      state := ReadChangeCipher;
      MovesOn(conn.crypto, old(Now()), Now(), Opt(clientCert, In(CERTIFICATE_VERIFY)));
      return Ok;
    }

    method DoReadChangeCipher() returns (w: Wait)
      requires Valid() && state == ReadChangeCipher
      modifies this, conn
      ensures Kept(w, old(Snapshot()))
    {
      hide Flatten, AllCover, Connection.InStep, Coherent, Events, Past, OwnEnd, Opt, GoesOn, RankOf;
      state := ProcessChangeCipher;
      Idle(conn.log);
      MovesOn(conn.crypto, old(Now()), Now(), []);
      return ReadChangeCipherSpec;
    }

    method DoProcessChangeCipher() returns (w: Wait)
      requires Valid() && state == ProcessChangeCipher
      modifies this, conn
      ensures Kept(w, old(Snapshot()))
    {
      hide Flatten, AllCover, Connection.InStep, Coherent, Events, Past, OwnEnd, Opt, GoesOn, RankOf;
      var ok := conn.Do(ReadCipherChanged);
      if !ok {
        return Error;
      }
      state := ReadNextProto;
      MovesOn(conn.crypto, old(Now()), Now(), [Did(ReadCipherChanged)]);
      return Ok;
    }

    method DoReadNextProto() returns (w: Wait)
      requires Valid() && state == ReadNextProto
      modifies this, conn
      ensures Kept(w, old(Snapshot()))
    {
      hide Flatten, AllCover, Connection.InStep, Coherent, Events, Past, OwnEnd, Opt, GoesOn, RankOf;
      w := ReadIf(terms.nextProto, NEXT_PROTO);
      if w == Ok {
        state := ReadChannelId;
        MovesOn(conn.crypto, old(Now()), Now(), Opt(terms.nextProto, In(NEXT_PROTO)));
      }
    }

    method DoReadChannelId() returns (w: Wait)
      requires Valid() && state == ReadChannelId
      modifies this, conn
      ensures Kept(w, old(Snapshot()))
    {
      hide Flatten, AllCover, Connection.InStep, Coherent, Events, Past, OwnEnd, Opt, GoesOn, RankOf;
      w := ReadIf(terms.channelId, CHANNEL_ID);
      if w == Ok {
        state := ReadFinished;
        MovesOn(conn.crypto, old(Now()), Now(), Opt(terms.channelId, In(CHANNEL_ID)));
      }
    }

    /** Reads the client's Finished without leaving the state. */
    method ReadPeersFinished() returns (w: Wait)
      requires Valid() && state == ReadFinished
      modifies conn
      ensures w == Ok || w == Error || (w == ReadMessage && |old(conn.inbox)| == 0)
      ensures w == Ok ==> conn.InStep() && GoesOn(old(conn.log), conn.log, [In(FINISHED)])
      ensures w == ReadMessage ==> conn.InStep() && conn.log == old(conn.log) && conn.inbox == old(conn.inbox)
      ensures conn.buffer.Some? == old(conn.buffer).Some? && conn.hash.Some? == old(conn.hash).Some?
      ensures w == Error ==> conn.refusals > old(conn.refusals)
      ensures conn.denials == old(conn.denials) && conn.refusals >= old(conn.refusals) && Onward(old(conn.Tally()), conn.Tally())
    {
      hide Flatten, AllCover, Connection.InStep, Coherent, Events, Past, GoesOn, RankOf;
      ghost var v, inbox := Now(), conn.inbox;
      Known(conn.crypto, v);
      w := conn.GetFinished();
      if w == Error {
        Refuse(v, inbox[0]);
      } else if w == Ok {
        OneMore(v.log, Received(inbox[0]));
      }
    }

    method DoReadFinished() returns (w: Wait)
      requires Valid() && state == ReadFinished
      modifies this, conn
      ensures Kept(w, old(Snapshot()))
    {
      hide Flatten, AllCover, Connection.InStep, Coherent, Events, Past, OwnEnd, Opt, GoesOn, RankOf;
      w := ReadPeersFinished();
      if w != Ok {
        return;
      }
      state := if terms.resumed then Finish else SendFinished;
      MovesOn(conn.crypto, old(Now()), Now(), [In(FINISHED)]);
      if !terms.resumed && terms.channelId {
        var ok := conn.Allow();
        w := if ok then Ok else Error;
      }
    }

    /** A ticket if one is expected, the change of cipher and the Finished. */
    method SendOwnEnd() returns (ok: bool)
      requires Valid() && state == SendFinished
      modifies conn
      ensures ok ==>
                && conn.InStep() && conn.buffer.Some? == old(conn.buffer).Some? && conn.hash.Some?
                && GoesOn(old(conn.log), conn.log, OwnEnd(Now().course))
      ensures !ok ==> conn.denials > old(conn.denials)
      ensures conn.denials >= old(conn.denials) && conn.refusals == old(conn.refusals) && Onward(old(conn.Tally()), conn.Tally())
    {
      hide Flatten, AllCover, Connection.InStep, Coherent, Events, Past, GoesOn, RankOf, Opt;
      Known(conn.crypto, Now());
      ghost var ticket := Opt(terms.ticket, Out(NEW_SESSION_TICKET));
      ok := conn.SendIf(terms.ticket, NEW_SESSION_TICKET);
      if !ok {
        return;
      }
      ghost var log1 := conn.log;
      ok := conn.Do(WriteCipherChanged);
      if !ok {
        return;
      }
      ghost var log2 := conn.log;
      GoesOnOn(old(conn.log), log1, log2, ticket, [Did(WriteCipherChanged)]);
      ok := conn.SendFinished();
      if ok {
        GoesOnOn(old(conn.log), log2, conn.log, ticket + [Did(WriteCipherChanged)], [Out(FINISHED)]);
      }
    }

    method DoSendFinished() returns (w: Wait)
      requires Valid() && state == SendFinished
      modifies this, conn
      ensures Kept(w, old(Snapshot()))
    {
      hide Flatten, AllCover, Connection.InStep, Coherent, Events, Past, OwnEnd, Opt, GoesOn, RankOf;
      Known(conn.crypto, Now());
      var ok := SendOwnEnd();
      if !ok {
        return Error;
      }
      state := if terms.resumed then ReadChangeCipher else Finish;
      MovesOn(conn.crypto, old(Now()), Now(), OwnEnd(Now().course));
      return Flush;
    }

    method DoFinish() returns (w: Wait)
      requires Valid() && state == Finish
      modifies this, conn
      ensures Kept(w, old(Snapshot()))
    {
      hide Flatten, AllCover, Connection.InStep, Coherent, Events, Past, OwnEnd, Opt, GoesOn, RankOf;
      state := Done;
      Idle(conn.log);
      MovesOn(conn.crypto, old(Now()), Now(), []);
      return Ok;
    }

    method Step() returns (w: Wait)
      requires Valid() && state != Done
      modifies this, conn
      ensures Kept(w, old(Snapshot()))
    {
      hide Flatten, AllCover, Connection.InStep, Coherent, Rank;
      match state {
        case StartAccept => w := DoStartAccept();
        case ReadClientHello => w := DoReadClientHello();
        case SelectCertificate => w := DoSelectCertificate();
        case SelectParameters => w := DoSelectParameters();
        case SendServerHello => w := DoSendServerHello();
        case SendServerCertificate => w := DoSendServerCertificate();
        case SendKeyExchange => w := DoSendKeyExchange();
        case SendHelloDone => w := DoSendHelloDone();
        case ReadClientCertificate => w := DoReadClientCertificate();
        case VerifyClientCertificate => w := DoVerifyClientCertificate();
        case ReadKeyExchange => w := DoReadKeyExchange();
        case ReadCertificateVerify => w := DoReadCertificateVerify();
        case ReadChangeCipher => w := DoReadChangeCipher();
        case ProcessChangeCipher => w := DoProcessChangeCipher();
        case ReadNextProto => w := DoReadNextProto();
        case ReadChannelId => w := DoReadChannelId();
        case ReadFinished => w := DoReadFinished();
        case SendFinished => w := DoSendFinished();
        case Finish => w := DoFinish();
      }
    }

    /** Runs the machine until it has to wait, fails or is done. It fails only if the environment says no, or the peer sends
        what cannot be taken. */
    method Handshake() returns (w: Wait)
      requires Valid()
      modifies this, conn
      ensures w != Error ==> Valid()
      ensures w == Ok ==> state == Done
      ensures w == Error ==> conn.denials > old(conn.denials) || conn.refusals > old(conn.refusals)
      ensures w == ReadMessage ==> conn.inbox == []
      ensures w == PendingOperation ==> conn.pendings > old(conn.pendings)
      ensures conn.denials >= old(conn.denials) && conn.refusals >= old(conn.refusals)
      ensures Onward(old(conn.Tally()), conn.Tally())
    {
      hide Flatten, AllCover, Connection.InStep, Coherent, Rank;
      while state != Done
        invariant Valid() && Onward(old(conn.Tally()), conn.Tally())
        invariant conn.denials >= old(conn.denials) && conn.refusals >= old(conn.refusals)
        decreases RankOf(Now())
      {
        w := Step();
        if w != Ok {
          return;
        }
      }
      return Ok;
    }

    /** One call of the handshake: resolves what it was waiting for and goes on. It can be called again after any outcome;
        after a failure it only fails again. */
    method Run() returns (ret: int, early: bool)
      requires wait != Error ==> Valid()
      modifies this, conn
      ensures wait != Error ==> Valid()
      ensures ret > 0 && !early ==> wait == Ok && state == Done
      ensures old(wait) == Error ==> ret < 0 && wait == Error
      // It stops short of the end only after a failure, or because something it waits for is not there yet.
      ensures ret <= 0 ==>
                || old(wait) == Error || old(wait) == PendingOperation || conn.stalls > old(conn.stalls)
                || conn.denials > old(conn.denials) || conn.refusals > old(conn.refusals) || conn.pendings > old(conn.pendings)
    {
      hide Flatten, AllCover, Connection.InStep, Coherent, Rank;
      early := false;
      while true
        invariant wait != Error ==> Valid()
        invariant old(wait) == Error ==> wait == Error
        invariant conn.denials >= old(conn.denials) && conn.refusals >= old(conn.refusals)
        invariant conn.pendings >= old(conn.pendings) && conn.stalls >= old(conn.stalls)
        invariant wait == Error || wait == PendingOperation ==>
                    || old(wait) == wait || conn.denials > old(conn.denials) || conn.refusals > old(conn.refusals)
                    || conn.pendings > old(conn.pendings)
        decreases conn.Fuel(), wait == Ok
      {
        if wait == Error {
          return -1, false;
        }
        if wait == PendingOperation {
          wait := Ok;
          return -1, false;
        }
        if wait == EarlyReturn {
          wait := Ok;
          return 1, true;
        }
        if wait != Ok {
          var resolved := conn.Resolve(wait);
          if !resolved {
            return -1, false;
          }
        }
        wait := Handshake();
        if wait == Error {
          return -1, false;
        }
        if wait == Ok {
          return 1, false;
        }
      }
    }
  }

  // What a handshake that is done has done.

  /** What the server does from the ServerHello to the ClientKeyExchange of a full handshake, and after it. */
  function AfterKeyExchange(c: Course): seq<Event> {
    Opt(c.clientCert, In(CERTIFICATE_VERIFY)) + [Did(ReadCipherChanged)] + Opt(c.terms.nextProto, In(NEXT_PROTO))
    + Opt(c.terms.channelId, In(CHANNEL_ID)) + [In(FINISHED)] + OwnEnd(c)
  }

  lemma FullSplits(c: Course)
    requires !c.terms.resumed
    ensures AllDone(c) == CertificateVerified(c) + [In(CLIENT_KEY_EXCHANGE)] + AfterKeyExchange(c)
  {
    hide CertificateVerified, OwnEnd, Opt;
  }

  lemma BeforeCertificate(c: Course)
    ensures In(CERTIFICATE_VERIFY) !in HelloDoneSent(c) && In(CLIENT_KEY_EXCHANGE) !in HelloDoneSent(c)
    ensures Out(CERTIFICATE) in HelloDoneSent(c) <==> c.terms.certAuth
    ensures Out(SERVER_KEY_EXCHANGE) in HelloDoneSent(c) <==> c.terms.params
    ensures Out(CERTIFICATE_REQUEST) in HelloDoneSent(c) <==> c.certRequest
    ensures c.terms.params && c.terms.certAuth ==> Did(KeyExchangeSigned) in HelloDoneSent(c)
  {
  }

  lemma BeforeKeyExchange(c: Course)
    ensures In(CERTIFICATE_VERIFY) !in CertificateVerified(c) && In(CLIENT_KEY_EXCHANGE) !in CertificateVerified(c)
    ensures c.clientCert ==> Did(CertificateOk) in CertificateVerified(c)
    ensures Out(CERTIFICATE) in CertificateVerified(c) <==> c.terms.certAuth
    ensures Out(SERVER_KEY_EXCHANGE) in CertificateVerified(c) <==> c.terms.params
  {
    hide HelloDoneSent;
    BeforeCertificate(c);
  }

  lemma SinceKeyExchange(c: Course)
    ensures In(CLIENT_KEY_EXCHANGE) !in AfterKeyExchange(c)
    ensures Out(CERTIFICATE) !in AfterKeyExchange(c) && Out(SERVER_KEY_EXCHANGE) !in AfterKeyExchange(c)
    ensures In(CERTIFICATE_VERIFY) in AfterKeyExchange(c) <==> c.clientCert
    ensures Out(FINISHED) in AfterKeyExchange(c) && In(FINISHED) in AfterKeyExchange(c)
  {
  }

  /** None of the messages of a full handshake. */
  predicate Brief(es: seq<Event>) {
    && In(CERTIFICATE_VERIFY) !in es && In(CLIENT_KEY_EXCHANGE) !in es
    && Out(CERTIFICATE) !in es && Out(SERVER_KEY_EXCHANGE) !in es
  }

  lemma OwnEndIsBrief(c: Course)
    ensures Brief(OwnEnd(c)) && Out(FINISHED) in OwnEnd(c)
  {
  }

  lemma ResumedStart(c: Course)
    requires c.terms.resumed
    ensures Brief(CipherRead(c)) && Out(FINISHED) in CipherRead(c)
  {
    hide OwnEnd;
    OwnEndIsBrief(c);
  }

  lemma ResumedEvents(c: Course)
    requires c.terms.resumed
    ensures Out(FINISHED) in AllDone(c) && In(FINISHED) in AllDone(c) && Brief(AllDone(c))
  {
    hide CipherRead;
    ResumedStart(c);
  }

  /** A handshake that is done has gone through exactly the messages and acts of its course, in their order, and each Finished
      and signature is over all messages before it. */
  lemma DoneMeans(s: Server)
    requires s.Valid() && s.state == Done
    ensures Events(s.conn.log) == AllDone(s.Now().course) && Agreed(s.conn.crypto, s.conn.log, s.terms)
    ensures AllCover(s.conn.crypto, true, s.conn.log)
    ensures s.conn.hash == Some(Flatten(s.conn.log))
    ensures Consumed(s.conn.log, FINISHED) && Emitted(s.conn.log, FINISHED)
    ensures Consumed(s.conn.log, CLIENT_KEY_EXCHANGE) <==> !s.terms.resumed
    ensures Emitted(s.conn.log, CERTIFICATE) <==> !s.terms.resumed && s.terms.certAuth
    ensures Emitted(s.conn.log, SERVER_KEY_EXCHANGE) <==> !s.terms.resumed && s.terms.params
  {
    hide Flatten, AllCover, Emitted, Consumed, Events, Agreed, CertificateVerified, AfterKeyExchange, AllDone, Rank;
    var course := s.Now().course;
    assert Past(Done, course) == AllDone(course);
    assert RankOf(s.Now()) == 0;
    EventsTell(s.conn.log, FINISHED);
    EventsTell(s.conn.log, CLIENT_KEY_EXCHANGE);
    EventsTell(s.conn.log, CERTIFICATE);
    EventsTell(s.conn.log, SERVER_KEY_EXCHANGE);
    if s.terms.resumed {
      ResumedEvents(course);
    } else {
      FullSplits(course);
      BeforeKeyExchange(course);
      SinceKeyExchange(course);
    }
  }

  /** A certificate that the client has shown was found good before its ClientKeyExchange was read, and the client has signed
      with it after that; no signature is read without one. A server that insists on a certificate got one. */
  lemma ClientProvesCertificate(s: Server)
    requires s.Valid() && s.state == Done
    ensures if s.clientCert then
              && Precedes(s.conn.log, Did(CertificateOk), In(CLIENT_KEY_EXCHANGE))
              && Precedes(s.conn.log, In(CLIENT_KEY_EXCHANGE), In(CERTIFICATE_VERIFY))
            else !Consumed(s.conn.log, CERTIFICATE_VERIFY)
    ensures s.terms.mustShow && s.terms.request && s.terms.certAuth && !s.terms.resumed ==> s.clientCert
  {
    hide Flatten, AllCover, Consumed, Events, Agreed, CertificateVerified, AfterKeyExchange, AllDone, Precedes;
    var course := s.Now().course;
    DoneMeans(s);
    EventsTell(s.conn.log, CERTIFICATE_VERIFY);
    if s.terms.resumed {
      ResumedEvents(course);
    } else {
      FullSplits(course);
      BeforeKeyExchange(course);
      SinceKeyExchange(course);
      if s.clientCert {
        ComesAround(s.conn.log, CertificateVerified(course), In(CLIENT_KEY_EXCHANGE), AfterKeyExchange(course),
                    Did(CertificateOk), In(CERTIFICATE_VERIFY));
      }
    }
  }
}
