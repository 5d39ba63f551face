/** The client's handshake below TLS 1.3, as a machine that can be left at any blocking point and run again. */
module HandshakeClient {
  import opened Bytes
  import opened HandshakeCore

  datatype State =
    | StartConnect | EnterEarlyData | ReadHelloVerify | ReadHello | ReadServerCertificate | ReadCertificateStatus
    | VerifyServerCertificate | ReadKeyExchange | ReadCertificateRequest | ReadHelloDone | SendCertificate
    | SendKeyExchange | SendCertificateVerify | SendFinished | FinishFlight | ReadSessionTicket | ProcessChangeCipherSpec
    | ReadFinished | Finish | Done

  /** How far a state is from the end: a resumed handshake reads the server's Finished before it sends its own. */
  function Rank(s: State, resumed: bool): (r: nat)
    ensures r <= 20 && (r == 0 <==> s.Done?)
  {
    match s
    case StartConnect => 20
    case EnterEarlyData => 19
    case ReadHelloVerify => 18
    case ReadHello => 17
    case ReadServerCertificate => 16
    case ReadCertificateStatus => 15
    case VerifyServerCertificate => 14
    case ReadKeyExchange => 13
    case ReadCertificateRequest => 12
    case ReadHelloDone => 11
    case SendCertificate => 10
    case SendKeyExchange => 9
    case SendCertificateVerify => 8
    case SendFinished => if resumed then 4 else 7
    case FinishFlight => if resumed then 3 else 6
    case ReadSessionTicket => if resumed then 7 else 5
    case ProcessChangeCipherSpec => if resumed then 6 else 4
    case ReadFinished => if resumed then 5 else 3
    case Finish => 1
    case Done => 0
  }

  /** What distinguishes one handshake from another: what the ServerHello settles, which of the optional messages came,
      whether a certificate was asked for, and whether there was one. */
  datatype Course = Course(terms: Terms, statusCame: bool, paramsCame: bool, certRequest: bool, hasCertificate: bool)

  /** What the invariant of the machine is about. */
  datatype View = View(state: State, course: Course, ticketExpected: bool, buffered: bool, hashed: bool, log: seq<Item>)

  /** How things stand before a step. */
  datatype Standing = Standing(
    view: View, inbox: seq<Message>, denials: nat, pendings: nat, refusals: nat, stalls: nat, fuel: nat)

  function RankOf(v: View): nat {
    Rank(v.state, v.course.terms.resumed)
  }

  // What has been done by the time a state is reached: each stage in terms of the one before.

  function Greeted(): seq<Event> {
    [Out(CLIENT_HELLO)]
  }

  function HelloRead(): seq<Event> {
    Greeted() + [In(SERVER_HELLO)]
  }

  function CertificateRead(c: Course): seq<Event> {
    HelloRead() + Opt(c.terms.certAuth, In(CERTIFICATE))
  }

  function StatusRead(c: Course): seq<Event> {
    CertificateRead(c) + Opt(c.statusCame, In(CERTIFICATE_STATUS))
  }

  function CertificateVerified(c: Course): seq<Event> {
    StatusRead(c) + Opt(c.terms.certAuth, Did(CertificateOk))
  }

  /** The server's parameters for the key exchange, and the check of their signature. */
  function Params(c: Course): seq<Event> {
    Opt(c.paramsCame && c.terms.certAuth, Did(KeyExchangeSigned)) + Opt(c.paramsCame, In(SERVER_KEY_EXCHANGE))
  }

  function ParamsRead(c: Course): seq<Event> {
    CertificateVerified(c) + Params(c)
  }

  function RequestRead(c: Course): seq<Event> {
    ParamsRead(c) + Opt(c.certRequest, In(CERTIFICATE_REQUEST))
  }

  function HelloDoneRead(c: Course): seq<Event> {
    RequestRead(c) + [In(SERVER_HELLO_DONE)]
  }

  /** The application chooses a certificate; in SSL 3.0 a warning alert stands for an empty one. */
  function Shown(c: Course): seq<Event> {
    if !c.certRequest then []
    else
      [Did(Selected(c.hasCertificate)),
       if c.hasCertificate || !c.terms.ssl3 then Out(CERTIFICATE) else Did(NoCertificateAlert)]
  }

  function CertificateSent(c: Course): seq<Event> {
    HelloDoneRead(c) + Shown(c)
  }

  function KeyExchangeSent(c: Course): seq<Event> {
    CertificateSent(c) + [Out(CLIENT_KEY_EXCHANGE)]
  }

  function SignatureSent(c: Course): seq<Event> {
    KeyExchangeSent(c) + Opt(c.certRequest && c.hasCertificate, Out(CERTIFICATE_VERIFY))
  }

  /** The client's own last messages. */
  function OwnEnd(c: Course): seq<Event> {
    [Did(WriteCipherChanged)] + Opt(c.terms.nextProto, Out(NEXT_PROTO)) + Opt(c.terms.channelId, Out(CHANNEL_ID))
    + [Out(FINISHED)]
  }

  /** What is done before the server's last messages: in a resumed handshake hardly anything. */
  function BeforePeersEnd(c: Course): seq<Event> {
    if c.terms.resumed then HelloRead() else SignatureSent(c) + OwnEnd(c)
  }

  function TicketRead(c: Course): seq<Event> {
    BeforePeersEnd(c) + Opt(c.terms.ticket, In(NEW_SESSION_TICKET))
  }

  function CipherRead(c: Course): seq<Event> {
    TicketRead(c) + [Did(ReadCipherChanged)]
  }

  function FinishedRead(c: Course): seq<Event> {
    CipherRead(c) + [In(FINISHED)]
  }

  /** The whole handshake. */
  function AllDone(c: Course): seq<Event> {
    if c.terms.resumed then FinishedRead(c) + OwnEnd(c) else FinishedRead(c)
  }

  function Past(s: State, c: Course): seq<Event> {
    match s
    case StartConnect => []
    case EnterEarlyData => Greeted()
    case ReadHelloVerify => Greeted()
    case ReadHello => Greeted()
    case ReadServerCertificate => HelloRead()
    case ReadCertificateStatus => CertificateRead(c)
    case VerifyServerCertificate => StatusRead(c)
    case ReadKeyExchange => CertificateVerified(c)
    case ReadCertificateRequest => ParamsRead(c)
    case ReadHelloDone => RequestRead(c)
    case SendCertificate => HelloDoneRead(c)
    case SendKeyExchange => CertificateSent(c)
    case SendCertificateVerify => KeyExchangeSent(c)
    case SendFinished => if c.terms.resumed then FinishedRead(c) else SignatureSent(c)
    case FinishFlight => if c.terms.resumed then AllDone(c) else SignatureSent(c) + OwnEnd(c)
    case ReadSessionTicket => BeforePeersEnd(c)
    case ProcessChangeCipherSpec => TicketRead(c)
    case ReadFinished => CipherRead(c)
    case Finish => AllDone(c)
    case Done => AllDone(c)
  }

  /** Before the ServerHello the whole transcript is buffered; from then on it is hashed, and buffered only as long as it may
      have to be signed. */
  predicate TranscriptKept(v: View) {
    && (if RankOf(v) >= 17 then v.buffered && !v.hashed else v.hashed)
    && (12 <= RankOf(v) <= 16 && v.course.terms.certAuth ==> v.buffered)
    && (10 <= RankOf(v) <= 11 && v.course.certRequest ==> v.buffered)
    && (8 <= RankOf(v) <= 9 && v.course.certRequest && v.course.hasCertificate ==> v.buffered)
  }

  /** Which optional messages there can be. */
  predicate Ruled(v: View) {
    var c := v.course;
    && (8 <= RankOf(v) <= 16 ==> !c.terms.resumed)
    // Only in a handshake with certificates can the server ask for one.
    && (c.certRequest ==> c.terms.certAuth && !c.terms.resumed && RankOf(v) < 12)
    && (c.statusCame ==> c.terms.status && !c.terms.resumed && RankOf(v) < 15)
    && (RankOf(v) <= 12 && !c.terms.resumed ==> (c.terms.kx.Ecdhe? ==> c.paramsCame) && (c.terms.kx.Rsa? ==> !c.paramsCame))
    && (RankOf(v) <= 16 && (if c.terms.resumed then RankOf(v) >= 7 else RankOf(v) >= 5) ==> v.ticketExpected == c.terms.ticket)
  }

  predicate Agreed(c: Crypto, log: seq<Item>, terms: Terms) {
    |log| >= 2 && log[1].Received? && log[1].m.kind == SERVER_HELLO && terms == c.terms(log[1].m.body)
  }

  /** The history is that of the state, and the terms are those of the ServerHello. */
  predicate Coherent(c: Crypto, v: View) {
    && TranscriptKept(v) && Ruled(v) && Events(v.log) == Past(v.state, v.course)
    && (RankOf(v) < 17 ==> Agreed(c, v.log, v.course.terms))
  }

  /** Where the machine may go from a state without learning anything, and what it has to do for it. */
  predicate Leads(v: View, s: State, es: seq<Event>) {
    var c := v.course;
    match v.state
    case StartConnect => s == EnterEarlyData && es == [Out(CLIENT_HELLO)]
    case EnterEarlyData => (s == ReadHelloVerify || s == ReadHello) && es == []
    case ReadHelloVerify => s == ReadHello && es == []
    case ReadServerCertificate => s == ReadCertificateStatus && es == Opt(c.terms.certAuth, In(CERTIFICATE))
    case VerifyServerCertificate => s == ReadKeyExchange && es == Opt(c.terms.certAuth, Did(CertificateOk))
    case ReadHelloDone => s == SendCertificate && es == [In(SERVER_HELLO_DONE)]
    case SendKeyExchange => s == SendCertificateVerify && es == [Out(CLIENT_KEY_EXCHANGE)]
    case SendCertificateVerify =>
      s == SendFinished && es == Opt(c.certRequest && c.hasCertificate, Out(CERTIFICATE_VERIFY))
    case SendFinished => s == FinishFlight && es == OwnEnd(c)
    case FinishFlight => s == (if c.terms.resumed then Finish else ReadSessionTicket) && es == []
    case ReadSessionTicket => s == ProcessChangeCipherSpec && es == Opt(c.terms.ticket, In(NEW_SESSION_TICKET))
    case ProcessChangeCipherSpec => s == ReadFinished && es == [Did(ReadCipherChanged)]
    case ReadFinished => s == (if c.terms.resumed then SendFinished else Finish) && es == [In(FINISHED)]
    case Finish => s == Done && es == []
    case _ => false
  }

  /** A transition with its events keeps the invariant and brings the machine nearer to the end. */
  lemma MovesOn(c: Crypto, v: View, v': View, es: seq<Event>)
    requires Coherent(c, v) && GoesOn(v.log, v'.log, es) && Leads(v, v'.state, es)
    requires v'.course == v.course && v'.hashed == v.hashed
    requires v'.buffered == v.buffered || v.state == SendCertificateVerify
    requires v'.ticketExpected == v.ticketExpected || v.state == ReadSessionTicket
    ensures Coherent(c, v') && RankOf(v') < RankOf(v)
  {
    Staged(v, v'.state, es);
    StillRuled(v, v', es);
    hide Past, Events, Leads, TranscriptKept, Ruled;
  }

  lemma StillRuled(v: View, v': View, es: seq<Event>)
    requires TranscriptKept(v) && Ruled(v) && Leads(v, v'.state, es) && v'.course == v.course && v'.hashed == v.hashed
    requires v'.buffered == v.buffered || v.state == SendCertificateVerify
    requires v'.ticketExpected == v.ticketExpected || v.state == ReadSessionTicket
    ensures TranscriptKept(v') && Ruled(v') && RankOf(v') < RankOf(v)
  {
    hide OwnEnd, Opt;
  }

  lemma Staged(v: View, s: State, es: seq<Event>)
    requires Leads(v, s, es) && Ruled(v)
    ensures Past(s, v.course) == Past(v.state, v.course) + es
  {
    if RankOf(v) >= 11 {
      StagedEarly(v, s, es);
    } else {
      StagedLate(v, s, es);
    }
  }

  lemma StagedEarly(v: View, s: State, es: seq<Event>)
    requires Leads(v, s, es) && Ruled(v) && RankOf(v) >= 11
    ensures Past(s, v.course) == Past(v.state, v.course) + es
  {
    hide Opt, Params, OwnEnd, CertificateSent, KeyExchangeSent, SignatureSent, BeforePeersEnd, FinishedRead, CipherRead;
  }

  lemma StagedLate(v: View, s: State, es: seq<Event>)
    requires Leads(v, s, es) && Ruled(v) && RankOf(v) < 11
    ensures Past(s, v.course) == Past(v.state, v.course) + es
  {
    hide Opt, OwnEnd, HelloRead, HelloDoneRead, CertificateSent;
  }

  /** Before the ServerHello nothing is known of the cipher, and whatever it turns out to be will do. */
  lemma HelloChosen(c: Crypto, v: View, v': View)
    requires Coherent(c, v) && v.state == ReadHello && GoesOn(v.log, v'.log, [In(SERVER_HELLO)])
    requires v'.course == v.course.(terms := v'.course.terms) && v'.ticketExpected == v'.course.terms.ticket
    requires v'.state == if v'.course.terms.resumed then ReadSessionTicket else ReadServerCertificate
    requires v'.hashed && v'.buffered == (!v'.course.terms.resumed && v'.course.terms.certAuth)
    requires v'.log[|v'.log| - 1].Received? && v'.course.terms == c.terms(v'.log[|v'.log| - 1].m.body)
    ensures Coherent(c, v') && RankOf(v') < RankOf(v)
  {
    assert Events(v.log) == Greeted();
    assert |v'.log| == |Events(v'.log)| == 2;
    assert Events(v'.log)[1] == In(SERVER_HELLO);
    hide Events;
  }

  lemma StatusSettled(c: Crypto, v: View, v': View)
    requires Coherent(c, v) && v.state == ReadCertificateStatus && v'.state == VerifyServerCertificate
    requires v'.course == v.course.(statusCame := v'.course.statusCame)
    requires v'.course.statusCame ==> v.course.terms.status
    requires GoesOn(v.log, v'.log, Opt(v'.course.statusCame, In(CERTIFICATE_STATUS)))
    requires v'.hashed == v.hashed && v'.buffered == v.buffered && v'.ticketExpected == v.ticketExpected
    ensures Coherent(c, v') && RankOf(v') < RankOf(v)
  {
    hide Events, Opt;
  }

  lemma ParamsSettled(c: Crypto, v: View, v': View)
    requires Coherent(c, v) && v.state == ReadKeyExchange && v'.state == ReadCertificateRequest
    requires v'.course == v.course.(paramsCame := v'.course.paramsCame)
    requires if v'.course.paramsCame then !v.course.terms.kx.Rsa? else !v.course.terms.kx.Ecdhe?
    requires GoesOn(v.log, v'.log, Params(v'.course))
    requires v'.hashed == v.hashed && v'.buffered == v.buffered && v'.ticketExpected == v.ticketExpected
    ensures Coherent(c, v') && RankOf(v') < RankOf(v)
  {
    hide Events, Opt, Params;
  }

  lemma NoParams(c: Course)
    ensures !c.paramsCame ==> Params(c) == []
  {
  }

  lemma NothingShown(c: Course)
    ensures !c.certRequest ==> Shown(c) == []
  {
  }

  lemma RequestSettled(c: Crypto, v: View, v': View)
    requires Coherent(c, v) && v.state == ReadCertificateRequest && v'.state == ReadHelloDone
    requires v'.course == v.course.(certRequest := v'.course.certRequest)
    requires v'.course.certRequest ==> v.course.terms.certAuth && v'.buffered
    requires GoesOn(v.log, v'.log, Opt(v'.course.certRequest, In(CERTIFICATE_REQUEST)))
    requires v'.hashed == v.hashed && v'.ticketExpected == v.ticketExpected
    ensures Coherent(c, v') && RankOf(v') < RankOf(v)
  {
    hide Events, Opt;
  }

  lemma SelectionSettled(c: Crypto, v: View, v': View)
    requires Coherent(c, v) && v.state == SendCertificate && v'.state == SendKeyExchange
    requires v'.course == v.course.(hasCertificate := v'.course.hasCertificate)
    requires v'.course.certRequest && v'.course.hasCertificate ==> v'.buffered
    requires GoesOn(v.log, v'.log, Shown(v'.course))
    requires v'.hashed == v.hashed && v'.ticketExpected == v.ticketExpected
    ensures Coherent(c, v') && RankOf(v') < RankOf(v)
  {
    hide Events, Opt, Shown;
  }

  lemma Restarted(c: Crypto, v: View, v': View)
    requires Coherent(c, v) && v.state == ReadHelloVerify && v'.state == ReadHello && Events(v'.log) == [Out(CLIENT_HELLO)]
    requires v'.course == v.course && v'.buffered && !v'.hashed
    ensures Coherent(c, v') && RankOf(v') < RankOf(v)
  {
    hide Events;
  }

  /** What the invariant says of the transcript in a state. */
  lemma Known(c: Crypto, v: View)
    requires Coherent(c, v)
    ensures RankOf(v) >= 17 ==> v.buffered && !v.hashed
    ensures RankOf(v) < 17 ==> v.hashed
    ensures v.state == ReadCertificateRequest && v.course.terms.certAuth ==> v.buffered
    ensures v.state == ReadCertificateRequest ==> !v.course.certRequest
    ensures v.state == SendCertificate && v.course.certRequest ==> v.buffered
    ensures v.state == SendCertificateVerify && v.course.certRequest && v.course.hasCertificate ==> v.buffered
    ensures v.state == ReadCertificateStatus ==> !v.course.statusCame
    ensures v.state == ReadSessionTicket ==> v.ticketExpected == v.course.terms.ticket
    ensures v.state == SendFinished || v.state == ReadFinished ==> v.hashed
    ensures v.state == ReadHello ==> v.buffered
  {
    hide Past, Events;
  }

  lemma Started(c: Crypto, terms: Terms)
    ensures Coherent(c, View(StartConnect, Course(terms, false, false, false, false), false, true, false, []))
  {
  }

  class Client {
    const conn: Connection
    const dtls: bool
    var state: State
    var wait: Wait
    // What the ServerHello has settled.
    var terms: Terms
    var ticketExpected: bool
    var certRequest: bool
    var hasCertificate: bool
    // Which of the optional messages have come.
    ghost var statusCame: bool
    ghost var paramsCame: bool

    ghost function Now(): View
      reads this, conn
    {
      View(state, Course(terms, statusCame, paramsCame, certRequest, hasCertificate), ticketExpected,
                                conn.buffer.Some?, conn.hash.Some?, conn.log)
    }

    /** The transcript is in step with the messages, and the machine with its history. */
    ghost predicate Valid()
      reads this, conn
    {
      !conn.server && conn.InStep() && Coherent(conn.crypto, Now())
    }

    /** noTerms stands for the cipher and extensions as long as there are none. */
    constructor (c: Connection, isDtls: bool, noTerms: Terms)
      requires !c.server && c.InStep() && c.buffer.Some? && c.hash.None? && c.log == []
      ensures Valid() && conn == c && state == StartConnect && wait == Ok
    {
      conn, dtls, state, wait, terms := c, isDtls, StartConnect, Ok, noTerms;
      ticketExpected, certRequest, hasCertificate, statusCame, paramsCame := false, false, false, false, false;
      new;
      Started(c.crypto, noTerms);
    }

    /** Whether a message is one that the state can take. */
    ghost predicate Welcome(v: View, m: Message) {
      var terms := v.course.terms;
      match v.state
      case ReadHello => m.kind == SERVER_HELLO
      case ReadServerCertificate => terms.certAuth ==> m.kind == CERTIFICATE
      case ReadKeyExchange => if m.kind == SERVER_KEY_EXCHANGE then !terms.kx.Rsa? else !terms.kx.Ecdhe?
      case ReadCertificateRequest => terms.certAuth ==> m.kind == CERTIFICATE_REQUEST || m.kind == SERVER_HELLO_DONE
      case ReadHelloDone => m.kind == SERVER_HELLO_DONE
      case ReadSessionTicket => v.ticketExpected ==> m.kind == NEW_SESSION_TICKET
      case ReadFinished => conn.IsFinished(v.log, m)
      case _ => true
    }

    /** What a step is judged by. */
    ghost function Snapshot(): Standing
      reads this, conn
    {
      Standing(Now(), conn.inbox, conn.denials, conn.pendings, conn.refusals, conn.stalls, conn.Fuel())
    }

    /** A step that succeeds or flushes leads nearer to the end, with the history that belongs there. One that waits for a
        message or an operation has changed nothing. It fails only if the environment says no, or the peer sent what cannot
        be taken. */
    ghost predicate Kept(w: Wait, was: Standing)
      reads this, conn
    {
      && (w != Error ==> Valid())
      && (w == ReadMessage || w == ReadServerHello ==> Now() == was.view && conn.inbox == was.inbox == [])
      && (w == PendingOperation ==> Now() == was.view && conn.pendings > was.pendings)
      && (w.Ok? || w.Flush? || w.ReadChangeCipherSpec? || w.EarlyReturn? ==> RankOf(Now()) < RankOf(was.view))
      && (w == EarlyReturn ==> terms.falseStart)
      && (w == Error ==> conn.denials > was.denials || conn.refusals > was.refusals)
      && conn.denials >= was.denials && conn.refusals >= was.refusals && conn.pendings >= was.pendings
      && conn.stalls >= was.stalls && conn.Fuel() <= was.fuel
    }

    /** Notes that the message at hand cannot be taken. */
    ghost method Refuse(v: View, m: Message)
      requires !Welcome(v, m)
      modifies conn`refusals
      ensures conn.refusals == old(conn.refusals) + 1
    {
      conn.refusals := conn.refusals + 1;
    }

    /** Reads a message without leaving the state. */
    method Read(kind: nat) returns (w: Wait)
      requires conn.InStep() && kind != FINISHED && kind != CERTIFICATE_VERIFY
      requires |conn.inbox| > 0 && conn.inbox[0].kind != kind ==> !Welcome(Now(), conn.inbox[0])
      modifies conn
      ensures if |old(conn.inbox)| == 0 then w == ReadMessage else w == Ok || w == Error
      ensures w != Error ==>
                conn.InStep() && conn.buffer.Some? == old(conn.buffer).Some? && conn.hash.Some? == old(conn.hash).Some?
      ensures w == Ok ==>
                GoesOn(old(conn.log), conn.log, [In(kind)]) && conn.log == old(conn.log) + [Received(old(conn.inbox)[0])]
      ensures w == ReadMessage ==> conn.log == old(conn.log) && conn.inbox == old(conn.inbox)
      ensures w == Error ==> conn.denials > old(conn.denials) || conn.refusals > old(conn.refusals)
      ensures conn.denials >= old(conn.denials) && conn.refusals >= old(conn.refusals) && Onward(old(conn.Tally()), conn.Tally())
    {
      hide Flatten, AllCover, Connection.InStep;
      ghost var v, inbox := Now(), conn.inbox;
      w := conn.ReadHashed(kind);
      if w == Ok {
        OneMore(v.log, Received(inbox[0]));
      } else if w == Error && inbox[0].kind != kind {
        Refuse(v, inbox[0]);
      }
    }

    /** Reads a message only if it is to come. */
    method ReadIf(due: bool, kind: nat) returns (w: Wait)
      requires conn.InStep() && kind != FINISHED && kind != CERTIFICATE_VERIFY
      requires due && |conn.inbox| > 0 && conn.inbox[0].kind != kind ==> !Welcome(Now(), conn.inbox[0])
      modifies conn
      ensures w == Ok || w == Error || (due && w == ReadMessage && |old(conn.inbox)| == 0)
      ensures w != Error ==>
                conn.InStep() && conn.buffer.Some? == old(conn.buffer).Some? && conn.hash.Some? == old(conn.hash).Some?
      ensures w == Ok ==> GoesOn(old(conn.log), conn.log, Opt(due, In(kind))) && (due ==> |old(conn.inbox)| > 0)
      ensures w == ReadMessage ==> conn.log == old(conn.log) && conn.inbox == old(conn.inbox)
      ensures w == Error ==> conn.denials > old(conn.denials) || conn.refusals > old(conn.refusals)
      ensures conn.denials >= old(conn.denials) && conn.refusals >= old(conn.refusals) && Onward(old(conn.Tally()), conn.Tally())
    {
      hide Flatten, AllCover, Connection.InStep, Events, GoesOn, Welcome;
      Idle(conn.log);
      w := Ok;
      if due {
        w := Read(kind);
      }
    }

    method DoStartConnect() returns (w: Wait)
      requires Valid() && state == StartConnect
      modifies this, conn
      ensures Kept(w, old(Snapshot()))
    {
      hide Flatten, AllCover, Connection.InStep, Coherent, Events, Past, OwnEnd, Opt, GoesOn, RankOf;
      var ok := conn.Allow();
      if ok {
        ok := conn.Send(CLIENT_HELLO);
      }
      if !ok {
        return Error;
      }
      state := EnterEarlyData;
      MovesOn(conn.crypto, old(Now()), Now(), [Out(CLIENT_HELLO)]);
      return Flush;
    }

    method DoEnterEarlyData() returns (w: Wait)
      requires Valid() && state == EnterEarlyData
      modifies this, conn
      ensures Kept(w, old(Snapshot()))
      ensures state == if dtls then ReadHelloVerify else ReadHello
    {
      hide Flatten, AllCover, Connection.InStep, Coherent, Events, Past, OwnEnd, Opt, GoesOn, RankOf;
      state := if dtls then ReadHelloVerify else ReadHello;
      Idle(conn.log);
      MovesOn(conn.crypto, old(Now()), Now(), []);
      return Ok;
    }

    /** Consumes a HelloVerifyRequest, starts the transcript over and says hello again. */
    method SayHelloAgain() returns (ok: bool)
      requires conn.InStep() && |conn.inbox| > 0
      modifies conn
      ensures ok ==> conn.InStep() && conn.buffer.Some? && conn.hash.None? && Events(conn.log) == [Out(CLIENT_HELLO)]
      ensures Onward(old(conn.Tally()), conn.Tally()) && conn.refusals == old(conn.refusals)
      ensures conn.denials == old(conn.denials) + if ok then 0 else 1
    {
      hide Flatten, AllCover, Connection.InStep;
      ok := conn.Allow();
      if !ok {
        return;
      }
      conn.NextMessage();
      conn.Init();
      ok := conn.Send(CLIENT_HELLO);
    }

    method DoReadHelloVerify() returns (w: Wait)
      requires Valid() && state == ReadHelloVerify
      modifies this, conn
      ensures Kept(w, old(Snapshot()))
      // Only a HelloVerifyRequest starts the transcript over.
      ensures w == Ok || w == Flush ==>
                |old(conn.inbox)| > 0 && (w == Flush <==> old(conn.inbox)[0].kind == HELLO_VERIFY_REQUEST)
    {
      hide Flatten, AllCover, Connection.InStep, Coherent, Events, Past, OwnEnd, Opt, GoesOn, RankOf;
      var msg := conn.GetMessage();
      if msg.None? {
        return ReadMessage;
      }
      if msg.value.kind != HELLO_VERIFY_REQUEST {
        state := ReadHello;
        Idle(conn.log);
        MovesOn(conn.crypto, old(Now()), Now(), []);
        return Ok;
      }
      var ok := SayHelloAgain();
      if !ok {
        return Error;
      }
      state := ReadHello;
      Restarted(conn.crypto, old(Now()), Now());
      return Flush;
    }

    /** Takes over what the ServerHello settles, starts the hash and consumes the message. */
    method TakeHello() returns (ok: bool)
      requires conn.InStep() && conn.buffer.Some? && |conn.inbox| > 0 && state == ReadHello
      modifies this`terms, this`ticketExpected, conn
      ensures ok ==>
                && conn.InStep() && conn.hash.Some? && conn.buffer.Some? == (!terms.resumed && terms.certAuth)
                && terms == conn.crypto.terms(old(conn.inbox)[0].body) && ticketExpected == terms.ticket
                && conn.log == old(conn.log) + [Received(old(conn.inbox)[0])]
                && GoesOn(old(conn.log), conn.log, [In(SERVER_HELLO)])
      ensures !ok ==> conn.denials > old(conn.denials) || conn.refusals > old(conn.refusals)
      ensures conn.denials >= old(conn.denials) && conn.refusals >= old(conn.refusals) && Onward(old(conn.Tally()), conn.Tally())
    {
      hide Flatten, AllCover, Connection.InStep, Coherent, Events, Past, GoesOn, RankOf;
      var msg := conn.inbox[0];
      if msg.kind != SERVER_HELLO {
        Refuse(Now(), msg);
        return false;
      }
      ok := conn.Allow();
      if !ok {
        return;
      }
      terms := conn.crypto.terms(msg.body);
      ticketExpected := terms.ticket;
      // A certificate can only be asked for in a full handshake with certificates.
      ok := conn.StartHash(!terms.resumed && terms.certAuth);
      if ok {
        OneMore(old(conn.log), Received(msg));
      }
    }

    method DoReadHello() returns (w: Wait)
      requires Valid() && state == ReadHello
      modifies this, conn
      ensures Kept(w, old(Snapshot()))
    {
      hide Flatten, AllCover, Connection.InStep, Coherent, Events, Past, GoesOn, RankOf, Welcome;
      Known(conn.crypto, Now());
      if |conn.inbox| == 0 {
        return ReadServerHello;
      }
      var ok := TakeHello();
      if !ok {
        return Error;
      }
      state := if terms.resumed then ReadSessionTicket else ReadServerCertificate;
      HelloChosen(conn.crypto, old(Now()), Now());
      return Ok;
    }

    method DoReadServerCertificate() returns (w: Wait)
      requires Valid() && state == ReadServerCertificate
      modifies this, conn
      ensures Kept(w, old(Snapshot()))
    {
      hide Flatten, AllCover, Connection.InStep, Coherent, Events, Past, GoesOn, RankOf, Connection.IsFinished;
      w := ReadIf(terms.certAuth, CERTIFICATE);
      if w == Ok {
        state := ReadCertificateStatus;
        MovesOn(conn.crypto, old(Now()), Now(), Opt(terms.certAuth, In(CERTIFICATE)));
      }
    }

    static predicate StatusComes(terms: Terms, inbox: seq<Message>) {
      terms.status && |inbox| > 0 && inbox[0].kind == CERTIFICATE_STATUS
    }

    /** Reads the status if it was agreed on and does come: the server may change its mind about sending one. */
    method TakeStatus() returns (w: Wait, came: bool)
      requires conn.InStep()
      modifies conn
      ensures w == Ok || w == Error || (w == ReadMessage && |old(conn.inbox)| == 0)
      ensures w != Error ==>
                conn.InStep() && conn.buffer.Some? == old(conn.buffer).Some? && conn.hash.Some? == old(conn.hash).Some?
      ensures w == Ok ==>
                came == StatusComes(terms, old(conn.inbox)) && GoesOn(old(conn.log), conn.log, Opt(came, In(CERTIFICATE_STATUS)))
      ensures w == ReadMessage ==> conn.log == old(conn.log) && conn.inbox == old(conn.inbox)
      ensures w == Error ==> conn.denials > old(conn.denials) || conn.refusals > old(conn.refusals)
      ensures conn.denials >= old(conn.denials) && conn.refusals >= old(conn.refusals) && Onward(old(conn.Tally()), conn.Tally())
    {
      hide Flatten, AllCover, Connection.InStep, Coherent, Events, Past, GoesOn, RankOf, Welcome, Opt;
      if terms.status && |conn.inbox| == 0 {
        return ReadMessage, false;
      }
      came := StatusComes(terms, conn.inbox);
      w := ReadIf(came, CERTIFICATE_STATUS);
    }

    method DoReadCertificateStatus() returns (w: Wait)
      requires Valid() && state == ReadCertificateStatus
      modifies this, conn
      ensures Kept(w, old(Snapshot()))
      ensures w == Ok ==> statusCame == StatusComes(terms, old(conn.inbox))
    {
      hide Flatten, AllCover, Connection.InStep, Coherent, Events, Past, GoesOn, RankOf, Welcome, Opt;
      Known(conn.crypto, Now());
      var came;
      w, came := TakeStatus();
      if w == Ok {
        state, statusCame := VerifyServerCertificate, came;
        StatusSettled(conn.crypto, old(Now()), Now());
      }
    }

    method DoVerifyServerCertificate() returns (w: Wait)
      requires Valid() && state == VerifyServerCertificate
      modifies this, conn
      ensures Kept(w, old(Snapshot()))
    {
      hide Flatten, AllCover, Connection.InStep, Coherent, Events, Past, GoesOn, RankOf, Connection.IsFinished;
      Idle(conn.log);
      var verdict := 1;
      if terms.certAuth {
        verdict := conn.Attempt(CertificateOk);
      }
      if verdict <= 0 {
        return if verdict == 0 then Error else PendingOperation;
      }
      state := ReadKeyExchange;
      MovesOn(conn.crypto, old(Now()), Now(), Opt(terms.certAuth, Did(CertificateOk)));
      return Ok;
    }

    /** Takes the server's parameters for the key exchange. Some ciphers need them, some have none. */
    method TakeParams(came: bool) returns (ok: bool)
      requires conn.InStep() && state == ReadKeyExchange
      requires |conn.inbox| > 0 && came == (conn.inbox[0].kind == SERVER_KEY_EXCHANGE)
      modifies conn
      ensures ok ==>
                && (if came then terms.kx != Rsa else terms.kx != Ecdhe)
                && conn.InStep() && conn.buffer.Some? == old(conn.buffer).Some? && conn.hash.Some? == old(conn.hash).Some?
                && GoesOn(old(conn.log), conn.log, Params(Now().course.(paramsCame := came)))
      ensures !ok ==> conn.denials > old(conn.denials) || conn.refusals > old(conn.refusals)
      ensures conn.denials >= old(conn.denials) && conn.refusals >= old(conn.refusals) && Onward(old(conn.Tally()), conn.Tally())
    {
      hide Flatten, AllCover, Connection.InStep, Coherent, Events, Past, GoesOn, RankOf, Params;
      if if came then terms.kx == Rsa else terms.kx == Ecdhe {
        Refuse(Now(), conn.inbox[0]);
        return false;
      }
      if came {
        ok := CheckParams();
      } else {
        Idle(conn.log);
        NoParams(Now().course.(paramsCame := false));
        ok := true;
      }
    }

    /** Checks the signature of the server's parameters, if there is a certificate to check it with, and consumes them. */
    method CheckParams() returns (ok: bool)
      requires conn.InStep() && |conn.inbox| > 0 && conn.inbox[0].kind == SERVER_KEY_EXCHANGE
      modifies conn
      ensures ok ==>
                && conn.InStep() && conn.buffer.Some? == old(conn.buffer).Some? && conn.hash.Some? == old(conn.hash).Some?
                && GoesOn(old(conn.log), conn.log, Params(Now().course.(paramsCame := true)))
      ensures !ok ==> conn.denials > old(conn.denials) || conn.refusals > old(conn.refusals)
      ensures conn.denials >= old(conn.denials) && conn.refusals >= old(conn.refusals) && Onward(old(conn.Tally()), conn.Tally())
    {
      hide Flatten, AllCover, Connection.InStep, Coherent, Events, Past, GoesOn, RankOf;
      Idle(conn.log);
      if terms.certAuth {
        ok := conn.Do(KeyExchangeSigned);
        if !ok {
          return;
        }
      }
      ghost var mid := conn.log;
      var w := Read(SERVER_KEY_EXCHANGE);
      ok := w == Ok;
      if ok {
        GoesOnOn(old(conn.log), mid, conn.log, Opt(terms.certAuth, Did(KeyExchangeSigned)), [In(SERVER_KEY_EXCHANGE)]);
      }
    }

    method DoReadKeyExchange() returns (w: Wait)
      requires Valid() && state == ReadKeyExchange
      modifies this, conn
      ensures Kept(w, old(Snapshot()))
      ensures w == Ok ==> |old(conn.inbox)| > 0 && paramsCame == (old(conn.inbox)[0].kind == SERVER_KEY_EXCHANGE)
    {
      hide Flatten, AllCover, Connection.InStep, Coherent, Events, Past, Params, Opt, GoesOn, Rank, Welcome;
      var msg := conn.GetMessage();
      if msg.None? {
        return ReadMessage;
      }
      var came := msg.value.kind == SERVER_KEY_EXCHANGE;
      var ok := TakeParams(came);
      if !ok {
        return Error;
      }
      state, paramsCame := ReadCertificateRequest, came;
      ParamsSettled(conn.crypto, old(Now()), Now());
      return Ok;
    }

    /** Consumes the CertificateRequest if there is one. Otherwise no certificate of ours is going to be signed for, and the
        buffer is no longer needed. */
    method TakeRequest() returns (ok: bool)
      requires Valid() && state == ReadCertificateRequest && terms.certAuth && |conn.inbox| > 0
      modifies this`certRequest, conn
      ensures ok ==>
                && conn.InStep() && conn.hash.Some? == old(conn.hash).Some? && (certRequest ==> conn.buffer.Some?)
                && certRequest == (old(conn.inbox)[0].kind != SERVER_HELLO_DONE)
                && GoesOn(old(conn.log), conn.log, Opt(certRequest, In(CERTIFICATE_REQUEST)))
      ensures !ok ==> conn.denials > old(conn.denials) || conn.refusals > old(conn.refusals)
      ensures conn.denials >= old(conn.denials) && conn.refusals >= old(conn.refusals) && Onward(old(conn.Tally()), conn.Tally())
    {
      hide Flatten, AllCover, Connection.InStep, Coherent, Events, Past, GoesOn, RankOf, Connection.IsFinished;
      Known(conn.crypto, Now());
      Idle(conn.log);
      if conn.inbox[0].kind == SERVER_HELLO_DONE {
        conn.FreeBuffer();
        return true;
      }
      var w := Read(CERTIFICATE_REQUEST);
      ok := w == Ok;
      certRequest := true;
    }

    method DoReadCertificateRequest() returns (w: Wait)
      requires Valid() && state == ReadCertificateRequest
      modifies this, conn
      ensures Kept(w, old(Snapshot()))
      // The message that follows says whether there is a request.
      ensures w == Ok && terms.certAuth ==>
                |old(conn.inbox)| > 0 && certRequest == (old(conn.inbox)[0].kind != SERVER_HELLO_DONE)
    {
      hide Flatten, AllCover, Connection.InStep, Coherent, Events, Past, GoesOn, RankOf, Welcome;
      Known(conn.crypto, Now());
      Idle(conn.log);
      if terms.certAuth {
        if |conn.inbox| == 0 {
          return ReadMessage;
        }
        var ok := TakeRequest();
        if !ok {
          return Error;
        }
      }
      state := ReadHelloDone;
      RequestSettled(conn.crypto, old(Now()), Now());
      return Ok;
    }

    method DoReadHelloDone() returns (w: Wait)
      requires Valid() && state == ReadHelloDone
      modifies this, conn
      ensures Kept(w, old(Snapshot()))
    {
      hide Flatten, AllCover, Connection.InStep, Coherent, Events, Past, GoesOn, RankOf, Connection.IsFinished;
      ghost var v := Now();
      w := Read(SERVER_HELLO_DONE);
      if w == Ok {
        state := SendCertificate;
        MovesOn(conn.crypto, v, Now(), [In(SERVER_HELLO_DONE)]);
      }
    }

    /** The application is asked for a certificate, and our chain, possibly empty, is sent. Without one the buffer is no longer
        needed; in SSL 3.0 a warning alert stands for an empty chain. */
    method ShowCertificate() returns (ok: bool)
      requires Valid() && state == SendCertificate && certRequest
      modifies this`hasCertificate, conn
      ensures ok ==>
                && conn.InStep() && (hasCertificate ==> conn.buffer.Some?) && conn.hash.Some? == old(conn.hash).Some?
                && GoesOn(old(conn.log), conn.log, Shown(Now().course))
      ensures !ok ==> conn.denials > old(conn.denials)
      ensures conn.denials >= old(conn.denials) && conn.refusals == old(conn.refusals) && Onward(old(conn.Tally()), conn.Tally())
    {
      hide Flatten, AllCover, Connection.InStep, Coherent, Events, Past, GoesOn, Rank;
      ghost var v := Now();
      Known(conn.crypto, v);
      hasCertificate := conn.Select();
      if !hasCertificate {
        conn.FreeBuffer();
      }
      ghost var mid := conn.log;
      if !hasCertificate && terms.ssl3 {
        ok := conn.Do(NoCertificateAlert);
      } else {
        ok := conn.Send(CERTIFICATE);
      }
      if ok {
        var shown := Shown(Now().course);
        assert shown == [shown[0]] + [shown[1]];
        GoesOnOn(v.log, mid, conn.log, [shown[0]], [shown[1]]);
      }
    }

    method DoSendCertificate() returns (w: Wait)
      requires Valid() && state == SendCertificate
      modifies this, conn
      ensures Kept(w, old(Snapshot()))
    {
      hide Flatten, AllCover, Connection.InStep, Coherent, Events, GoesOn, Past, Params, Shown, RankOf;
      ghost var v := Now();
      Known(conn.crypto, v);
      if certRequest {
        // The application may have to look a certificate up first.
        var chosen := conn.Consult();
        if chosen <= 0 {
          return if chosen == 0 then Error else PendingOperation;
        }
        var ok := ShowCertificate();
        if !ok {
          return Error;
        }
      } else {
        Idle(v.log);
        NothingShown(v.course);
      }
      state := SendKeyExchange;
      SelectionSettled(conn.crypto, v, Now());
      return Ok;
    }

    method DoSendKeyExchange() returns (w: Wait)
      requires Valid() && state == SendKeyExchange
      modifies this, conn
      ensures Kept(w, old(Snapshot()))
    {
      hide Flatten, AllCover, Connection.InStep, Coherent, Events, Past, OwnEnd, Opt, GoesOn, RankOf;
      var ok := conn.Allow();
      if ok {
        ok := conn.Send(CLIENT_KEY_EXCHANGE);
      }
      if ok {
        ok := conn.Allow();
      }
      if !ok {
        return Error;
      }
      state := SendCertificateVerify;
      MovesOn(conn.crypto, old(Now()), Now(), [Out(CLIENT_KEY_EXCHANGE)]);
      return Ok;
    }

    /** Signs all messages so far. */
    method SignTranscript() returns (ok: bool)
      requires Valid() && state == SendCertificateVerify && certRequest && hasCertificate
      modifies conn
      ensures ok ==>
                && conn.InStep() && conn.hash.Some? == old(conn.hash).Some?
                && GoesOn(old(conn.log), conn.log, [Out(CERTIFICATE_VERIFY)])
      ensures conn.denials == old(conn.denials) + (if ok then 0 else 1) && conn.refusals == old(conn.refusals)
      ensures Onward(old(conn.Tally()), conn.Tally())
    {
      hide Flatten, AllCover, Coherent, Events, Past, Rank;
      Known(conn.crypto, Now());
      ok := conn.AddMessage(CERTIFICATE_VERIFY, conn.crypto.sign(conn.buffer.value));
      if ok {
        OneMore(old(conn.log), conn.log[|conn.log| - 1]);
        // The buffer is no longer needed.
        conn.FreeBuffer();
      }
    }

    method DoSendCertificateVerify() returns (w: Wait)
      requires Valid() && state == SendCertificateVerify
      modifies this, conn
      ensures Kept(w, old(Snapshot()))
    {
      hide Flatten, AllCover, Connection.InStep, Coherent, Events, Past, GoesOn, RankOf, Connection.IsFinished;
      ghost var v := Now();
      Idle(v.log);
      if certRequest && hasCertificate {
        var key := conn.Consult();
        if key <= 0 {
          return if key == 0 then Error else PendingOperation;
        }
        var ok := SignTranscript();
        if !ok {
          return Error;
        }
      }
      state := SendFinished;
      MovesOn(conn.crypto, v, Now(), Opt(certRequest && hasCertificate, Out(CERTIFICATE_VERIFY)));
      return Ok;
    }

    /** Changes the cipher and sends what goes before the Finished, and the Finished. */
    method SendOwnEnd() returns (ok: bool)
      requires Valid() && state == SendFinished
      modifies conn
      ensures ok ==>
                && conn.InStep() && conn.buffer.Some? == old(conn.buffer).Some? && conn.hash.Some?
                && GoesOn(old(conn.log), conn.log, OwnEnd(Now().course))
      ensures !ok ==> conn.denials > old(conn.denials)
      ensures conn.denials >= old(conn.denials) && conn.refusals == old(conn.refusals) && Onward(old(conn.Tally()), conn.Tally())
    {
      hide Flatten, AllCover, Connection.InStep, Coherent, Events, Past, GoesOn, RankOf, OwnEnd, Opt;
      ghost var v := Now();
      Known(conn.crypto, v);
      ok := conn.Do(WriteCipherChanged);
      if !ok {
        return;
      }
      ghost var changed := [Did(WriteCipherChanged)];
      ghost var extras := Opt(terms.nextProto, Out(NEXT_PROTO)) + Opt(terms.channelId, Out(CHANNEL_ID));
      ghost var log1 := conn.log;
      ok := conn.SendEachIf(terms.nextProto, NEXT_PROTO, terms.channelId, CHANNEL_ID);
      if !ok {
        return;
      }
      ghost var log2 := conn.log;
      GoesOnOn(v.log, log1, log2, changed, extras);
      ok := conn.SendFinished();
      if ok {
        GoesOnOn(v.log, log2, conn.log, changed + extras, [Out(FINISHED)]);
        OwnEndIs(Now().course, extras);
      }
    }

    lemma OwnEndIs(c: Course, extras: seq<Event>)
      requires extras == Opt(c.terms.nextProto, Out(NEXT_PROTO)) + Opt(c.terms.channelId, Out(CHANNEL_ID))
      ensures OwnEnd(c) == [Did(WriteCipherChanged)] + extras + [Out(FINISHED)]
    {
    }

    method DoSendFinished() returns (w: Wait)
      requires Valid() && state == SendFinished
      modifies this, conn
      ensures Kept(w, old(Snapshot()))
    {
      hide Flatten, AllCover, Connection.InStep, Coherent, Events, Past, OwnEnd, Opt, GoesOn, RankOf;
      ghost var v := Now();
      if terms.channelId {
        // The key may have to be looked up first.
        var key := conn.Consult();
        if key <= 0 {
          return if key == 0 then Error else PendingOperation;
        }
      }
      var ok := SendOwnEnd();
      if !ok {
        return Error;
      }
      Known(conn.crypto, v);
      state := FinishFlight;
      MovesOn(conn.crypto, v, Now(), OwnEnd(Now().course));
      return Flush;
    }

    method DoFinishFlight() returns (w: Wait)
      requires Valid() && state == FinishFlight
      modifies this, conn
      ensures Kept(w, old(Snapshot()))
      ensures w != Error ==> (w == EarlyReturn <==> !terms.resumed && terms.falseStart)
    {
      hide Flatten, AllCover, Connection.InStep, Coherent, Events, Past, OwnEnd, Opt, GoesOn, RankOf;
      ghost var v := Now();
      if !terms.resumed {
        var ok := conn.Allow();
        if !ok {
          return Error;
        }
      }
      state := if terms.resumed then Finish else ReadSessionTicket;
      Idle(v.log);
      MovesOn(conn.crypto, v, Now(), []);
      return if !terms.resumed && terms.falseStart then EarlyReturn else Ok;
    }

    /** Reads the ticket that is expected. An empty one means that the server sends none after all. */
    method TakeTicket() returns (w: Wait)
      requires Valid() && state == ReadSessionTicket
      modifies this`ticketExpected, conn
      ensures w == Ok || w == Error || (w == ReadMessage && old(ticketExpected) && |old(conn.inbox)| == 0)
      ensures w != Error ==>
                conn.InStep() && conn.buffer.Some? == old(conn.buffer).Some? && conn.hash.Some? == old(conn.hash).Some?
      ensures w == Ok ==> GoesOn(old(conn.log), conn.log, Opt(old(ticketExpected), In(NEW_SESSION_TICKET)))
      ensures w == Ok ==> ticketExpected == (old(ticketExpected) && HoldsTicket(old(conn.inbox)))
      ensures w == ReadMessage ==>
                conn.log == old(conn.log) && conn.inbox == old(conn.inbox) && ticketExpected == old(ticketExpected)
      ensures w == Error ==> conn.denials > old(conn.denials) || conn.refusals > old(conn.refusals)
      ensures conn.denials >= old(conn.denials) && conn.refusals >= old(conn.refusals) && Onward(old(conn.Tally()), conn.Tally())
    {
      hide Flatten, AllCover, Connection.InStep, Coherent, Events, Past, GoesOn, RankOf, Connection.IsFinished;
      var msg := conn.GetMessage();
      w := ReadIf(ticketExpected, NEW_SESSION_TICKET);
      if w == Ok && ticketExpected {
        ticketExpected := conn.crypto.holds(msg.value.body);
      }
    }

    predicate HoldsTicket(inbox: seq<Message>) {
      |inbox| > 0 && conn.crypto.holds(inbox[0].body)
    }

    method DoReadSessionTicket() returns (w: Wait)
      requires Valid() && state == ReadSessionTicket
      modifies this, conn
      ensures Kept(w, old(Snapshot()))
      ensures w == ReadChangeCipherSpec ==> ticketExpected == (old(ticketExpected) && HoldsTicket(old(conn.inbox)))
    {
      hide Flatten, AllCover, Connection.InStep, Coherent, Events, Past, GoesOn, RankOf, Welcome, HoldsTicket, Opt;
      Known(conn.crypto, Now());
      w := TakeTicket();
      if w == Ok {
        state := ProcessChangeCipherSpec;
        MovesOn(conn.crypto, old(Now()), Now(), Opt(terms.ticket, In(NEW_SESSION_TICKET)));
        w := ReadChangeCipherSpec;
      }
    }

    method DoProcessChangeCipherSpec() returns (w: Wait)
      requires Valid() && state == ProcessChangeCipherSpec
      modifies this, conn
      ensures Kept(w, old(Snapshot()))
    {
      hide Flatten, AllCover, Connection.InStep, Coherent, Events, Past, OwnEnd, Opt, GoesOn, RankOf;
      var ok := conn.Do(ReadCipherChanged);
      if !ok {
        return Error;
      }
      state := ReadFinished;
      MovesOn(conn.crypto, old(Now()), Now(), [Did(ReadCipherChanged)]);
      return Ok;
    }

    method DoReadFinished() returns (w: Wait)
      requires Valid() && state == ReadFinished
      modifies this, conn
      ensures Kept(w, old(Snapshot()))
    {
      hide Flatten, AllCover, Connection.InStep, Coherent, Events, GoesOn, Past, Params, Shown, RankOf;
      ghost var v, inbox := Now(), conn.inbox;
      Known(conn.crypto, v);
      w := conn.GetFinished();
      if w == Error {
        Refuse(v, inbox[0]);
      }
      if w != Ok {
        return;
      }
      OneMore(v.log, Received(inbox[0]));
      state := if terms.resumed then SendFinished else Finish;
      MovesOn(conn.crypto, v, Now(), [In(FINISHED)]);
    }

    method DoFinish() returns (w: Wait)
      requires Valid() && state == Finish
      modifies this, conn
      ensures Kept(w, old(Snapshot()))
    {
      hide Flatten, AllCover, Connection.InStep, Coherent, Events, Past, OwnEnd, Opt, GoesOn, RankOf;
      if !terms.resumed {
        var ok := conn.Allow();
        if !ok {
          return Error;
        }
      }
      state := Done;
      Idle(conn.log);
      MovesOn(conn.crypto, old(Now()), Now(), []);
      return Ok;
    }

    method Step() returns (w: Wait)
      requires Valid() && state != Done
      modifies this, conn
      ensures Kept(w, old(Snapshot()))
    {
      hide Flatten, AllCover, Connection.InStep, Coherent, Rank;
      match state {
        case StartConnect => w := DoStartConnect();
        case EnterEarlyData => w := DoEnterEarlyData();
        case ReadHelloVerify => w := DoReadHelloVerify();
        case ReadHello => w := DoReadHello();
        case ReadServerCertificate => w := DoReadServerCertificate();
        case ReadCertificateStatus => w := DoReadCertificateStatus();
        case VerifyServerCertificate => w := DoVerifyServerCertificate();
        case ReadKeyExchange => w := DoReadKeyExchange();
        case ReadCertificateRequest => w := DoReadCertificateRequest();
        case ReadHelloDone => w := DoReadHelloDone();
        case SendCertificate => w := DoSendCertificate();
        case SendKeyExchange => w := DoSendKeyExchange();
        case SendCertificateVerify => w := DoSendCertificateVerify();
        case SendFinished => w := DoSendFinished();
        case FinishFlight => w := DoFinishFlight();
        case ReadSessionTicket => w := DoReadSessionTicket();
        case ProcessChangeCipherSpec => w := DoProcessChangeCipherSpec();
        case ReadFinished => w := DoReadFinished();
        case Finish => w := DoFinish();
      }
    }

    /** Runs the machine until it has to wait, fails or is done. It fails only if the environment says no, or the peer sends
        what cannot be taken. */
    method Handshake() returns (w: Wait)
      requires Valid()
      modifies this, conn
      ensures w != Error ==> Valid()
      ensures w == Ok ==> state == Done
      ensures w == Error ==> conn.denials > old(conn.denials) || conn.refusals > old(conn.refusals)
      ensures w == ReadMessage || w == ReadServerHello ==> conn.inbox == []
      ensures w == PendingOperation ==> conn.pendings > old(conn.pendings)
      ensures conn.denials >= old(conn.denials) && conn.refusals >= old(conn.refusals)
      ensures Onward(old(conn.Tally()), conn.Tally())
    {
      hide Flatten, AllCover, Connection.InStep, Coherent, Rank;
      while state != Done
        invariant Valid() && Onward(old(conn.Tally()), conn.Tally())
        invariant conn.denials >= old(conn.denials) && conn.refusals >= old(conn.refusals)
        decreases RankOf(Now())
      {
        w := Step();
        if w != Ok {
          return;
        }
      }
      return Ok;
    }

    /** One call of the handshake: resolves what it was waiting for and goes on. It can be called again after any outcome;
        after a failure it only fails again. */
    method Run() returns (ret: int, early: bool)
      requires wait != Error ==> Valid()
      modifies this, conn
      ensures wait != Error ==> Valid()
      ensures ret > 0 && !early ==> wait == Ok && state == Done
      ensures old(wait) == Error ==> ret < 0 && wait == Error
      // It stops short of the end only after a failure, or because something it waits for is not there yet.
      ensures ret <= 0 ==>
                || old(wait) == Error || old(wait) == PendingOperation || conn.stalls > old(conn.stalls)
                || conn.denials > old(conn.denials) || conn.refusals > old(conn.refusals) || conn.pendings > old(conn.pendings)
    {
      hide Flatten, AllCover, Connection.InStep, Coherent, Rank;
      early := false;
      while true
        invariant wait != Error ==> Valid()
        invariant old(wait) == Error ==> wait == Error
        invariant conn.denials >= old(conn.denials) && conn.refusals >= old(conn.refusals)
        invariant conn.pendings >= old(conn.pendings) && conn.stalls >= old(conn.stalls)
        invariant wait == Error || wait == PendingOperation ==>
                    || old(wait) == wait || conn.denials > old(conn.denials) || conn.refusals > old(conn.refusals)
                    || conn.pendings > old(conn.pendings)
        decreases conn.Fuel(), wait == Ok
      {
        if wait == Error {
          return -1, false;
        }
        if wait == PendingOperation {
          wait := Ok;
          return -1, false;
        }
        if wait == EarlyReturn {
          wait := Ok;
          return 1, true;
        }
        if wait != Ok {
          var resolved := conn.Resolve(wait);
          if !resolved {
            return -1, false;
          }
        }
        wait := Handshake();
        if wait == Error {
          return -1, false;
        }
        if wait == Ok {
          return 1, false;
        }
      }
    }
  }

  // What a handshake that is done has done.

  /** What follows the ClientKeyExchange of a full handshake. */
  function AfterKeyExchange(c: Course): seq<Event> {
    Opt(c.certRequest && c.hasCertificate, Out(CERTIFICATE_VERIFY)) + OwnEnd(c)
    + Opt(c.terms.ticket, In(NEW_SESSION_TICKET)) + [Did(ReadCipherChanged), In(FINISHED)]
  }

  lemma FullSplits(c: Course)
    requires !c.terms.resumed
    ensures AllDone(c) == CertificateSent(c) + [Out(CLIENT_KEY_EXCHANGE)] + AfterKeyExchange(c)
  {
    hide CertificateSent, OwnEnd, Opt;
  }

  /** None of the client's later messages. */
  predicate Early(es: seq<Event>) {
    Out(CLIENT_KEY_EXCHANGE) !in es && Out(CERTIFICATE_VERIFY) !in es && Out(CERTIFICATE) !in es
  }

  lemma BeforeParams(c: Course)
    ensures Early(CertificateVerified(c)) && (c.terms.certAuth ==> Did(CertificateOk) in CertificateVerified(c))
  {
  }

  lemma BeforeSelection(c: Course)
    ensures Early(HelloDoneRead(c))
    ensures c.terms.certAuth ==> Did(CertificateOk) in HelloDoneRead(c)
    ensures c.terms.certAuth && c.paramsCame ==> Did(KeyExchangeSigned) in HelloDoneRead(c)
  {
    hide CertificateVerified;
    BeforeParams(c);
  }

  lemma BeforeKeyExchange(c: Course)
    ensures Out(CLIENT_KEY_EXCHANGE) !in CertificateSent(c) && Out(CERTIFICATE_VERIFY) !in CertificateSent(c)
    ensures c.terms.certAuth ==> Did(CertificateOk) in CertificateSent(c)
    ensures c.terms.certAuth && c.paramsCame ==> Did(KeyExchangeSigned) in CertificateSent(c)
    ensures c.certRequest && c.hasCertificate ==> Out(CERTIFICATE) in CertificateSent(c)
    ensures !c.certRequest ==> Out(CERTIFICATE) !in CertificateSent(c)
  {
    hide HelloDoneRead;
    BeforeSelection(c);
  }

  lemma SinceKeyExchange(c: Course)
    ensures Out(CLIENT_KEY_EXCHANGE) !in AfterKeyExchange(c) && Out(CERTIFICATE) !in AfterKeyExchange(c)
    ensures Out(CERTIFICATE_VERIFY) in AfterKeyExchange(c) <==> c.certRequest && c.hasCertificate
    ensures Out(FINISHED) in AfterKeyExchange(c) && In(FINISHED) in AfterKeyExchange(c)
  {
  }

  lemma ResumedEvents(c: Course)
    requires c.terms.resumed
    ensures Out(FINISHED) in AllDone(c) && In(FINISHED) in AllDone(c)
    ensures Out(CERTIFICATE_VERIFY) !in AllDone(c) && Out(CERTIFICATE) !in AllDone(c) && Out(CLIENT_KEY_EXCHANGE) !in AllDone(c)
  {
  }

  /** A handshake that is done has gone through exactly the messages and acts of its course, in their order: that the server
      has accepted the terms of its ServerHello, who shows a certificate and who signs is settled by the course. Each
      Finished and signature is over all messages before it. */
  lemma DoneMeans(c: Client)
    requires c.Valid() && c.state == Done
    ensures Events(c.conn.log) == AllDone(c.Now().course) && Agreed(c.conn.crypto, c.conn.log, c.terms)
    ensures AllCover(c.conn.crypto, false, c.conn.log)
    ensures c.conn.hash == Some(Flatten(c.conn.log))
    ensures Consumed(c.conn.log, FINISHED) && Emitted(c.conn.log, FINISHED)
    ensures Emitted(c.conn.log, CLIENT_KEY_EXCHANGE) <==> !c.terms.resumed
  {
    hide Flatten, AllCover, Emitted, Consumed, Events, Agreed, CertificateSent, AfterKeyExchange, AllDone, Rank;
    var course := c.Now().course;
    assert Past(Done, course) == AllDone(course);
    assert RankOf(c.Now()) == 0;
    EventsTell(c.conn.log, FINISHED);
    EventsTell(c.conn.log, CLIENT_KEY_EXCHANGE);
    if c.terms.resumed {
      ResumedEvents(course);
    } else {
      FullSplits(course);
      SinceKeyExchange(course);
    }
  }

  /** A full handshake with a certificate of the server's has sent its ClientKeyExchange only after that certificate was
      found good, and after the signature of the server's parameters was, where there had to be any (RFC 5246 section
      7.4.3). */
  lemma KeyExchangeAfterChecks(c: Client)
    requires c.Valid() && c.state == Done && !c.terms.resumed && c.terms.certAuth
    ensures SentAfter(c.conn.log, CLIENT_KEY_EXCHANGE, Noted(CertificateOk))
    ensures c.terms.kx == Ecdhe ==> SentAfter(c.conn.log, CLIENT_KEY_EXCHANGE, Noted(KeyExchangeSigned))
  {
    hide Flatten, AllCover, Events, Agreed, CertificateSent, AfterKeyExchange, SentAfter, AllDone;
    var course := c.Now().course;
    DoneMeans(c);
    FullSplits(course);
    BeforeKeyExchange(course);
    SinceKeyExchange(course);
    OnceMeansAfter(c.conn.log, CertificateSent(course), AfterKeyExchange(course), CLIENT_KEY_EXCHANGE, CertificateOk);
    if c.terms.kx == Ecdhe {
      OnceMeansAfter(c.conn.log, CertificateSent(course), AfterKeyExchange(course), CLIENT_KEY_EXCHANGE, KeyExchangeSigned);
    }
  }

  /** A client that was asked for a certificate and has one shows it before its ClientKeyExchange and signs with it after
      that; no other client signs, and none shows a certificate unasked. */
  lemma SignsIffShown(c: Client)
    requires c.Valid() && c.state == Done
    ensures if c.certRequest && c.hasCertificate then
              && Precedes(c.conn.log, Out(CERTIFICATE), Out(CLIENT_KEY_EXCHANGE))
              && Precedes(c.conn.log, Out(CLIENT_KEY_EXCHANGE), Out(CERTIFICATE_VERIFY))
            else !Emitted(c.conn.log, CERTIFICATE_VERIFY)
    ensures !c.certRequest ==> !Emitted(c.conn.log, CERTIFICATE)
  {
    hide Flatten, AllCover, Emitted, Events, Agreed, CertificateSent, AfterKeyExchange, AllDone, Precedes, Rank;
    var course := c.Now().course;
    DoneMeans(c);
    EventsTell(c.conn.log, CERTIFICATE_VERIFY);
    EventsTell(c.conn.log, CERTIFICATE);
    if c.terms.resumed {
      ResumedEvents(course);
      assert !c.certRequest;
    } else {
      FullSplits(course);
      BeforeKeyExchange(course);
      SinceKeyExchange(course);
      if c.certRequest && c.hasCertificate {
        ComesAround(c.conn.log, CertificateSent(course), Out(CLIENT_KEY_EXCHANGE), AfterKeyExchange(course),
                    Out(CERTIFICATE), Out(CERTIFICATE_VERIFY));
      }
    }
  }
}
