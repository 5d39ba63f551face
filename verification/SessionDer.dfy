/** TLS sessions written in DER and read back. */
module SessionDer {
  import opened Bytes
  import opened Der

  // Limits.
  const MAX_ID: nat := 32
  const MAX_MASTER_KEY: nat := 48
  const MAX_CONTEXT: nat := 32
  const MAX_DIGEST: nat := 64
  const SHA256_LENGTH: nat := 32
  const U16: nat := 0xffff
  const U32: nat := 0xffff_ffff
  const LONG_MAX: nat := 0x7fff_ffff_ffff_ffff

  const SESSION_VERSION: nat := 1

  // What every session has.
  datatype Core = Core(version: nat, cipher: nat, id: seq<Byte>, masterKey: seq<Byte>, time: nat, timeout: nat)

  // Context, verification result, pre-shared key identity and ticket.
  datatype Ticket = Ticket(context: seq<Byte>, verifyResult: nat, pskIdentity: Option<seq<Byte>>, lifetimeHint: nat,
                           ticket: Option<seq<Byte>>)

  // What is known of the peer besides its certificates.
  datatype Peer = Peer(sha256: Option<seq<Byte>>, handshakeHash: seq<Byte>, timestamps: Option<seq<Byte>>,
                       ocsp: Option<seq<Byte>>, extendedMasterSecret: bool, group: nat)

  datatype Misc = Misc(ageAdd: Option<nat>, isServer: bool, signatureAlgorithm: nat, maxEarlyData: nat, authTimeout: nat,
                       earlyAlpn: Option<seq<Byte>>)

  datatype Session = Session(core: Core, certs: seq<seq<Byte>>, ticket: Ticket, peer: Peer, misc: Misc)

  /** Which ciphers the library knows, and which certificates it can hold on to. */
  datatype Library = Library(cipher: nat -> bool, certs: seq<seq<Byte>> -> bool)

  predicate VersionKnown(v: nat) {
    v in {0x0300, 0x0301, 0x0302, 0x0303, 0x7f12, 0x7f15, 0x7e04, 0x7e01, 0x7e02, 0x7e03, 0xfeff, 0xfefd}
  }

  // Writing.

  /** Optional fields, each with the number of its tag. */
  datatype Fields = Nil | Cons(number: TagNumber, content: Option<seq<Byte>>, tail: Fields)

  function Put(number: TagNumber, content: Option<seq<Byte>>): (s: seq<Byte>)
    ensures content.None? ==> s == []
    ensures content.Some? ==> |s| > 0 && s[0] == Explicit(number)
  {
    if content.None? then [] else Element(Explicit(number), content.value)
  }

  function Encode(fields: Fields): seq<Byte> {
    if fields.Nil? then [] else Put(fields.number, fields.content) + Encode(fields.tail)
  }

  function Octets(b: seq<Byte>): seq<Byte> {
    Element(OCTET_STRING, b)
  }

  function Boolean(b: bool): seq<Byte> {
    Element(BOOLEAN, [if b then 0xff else 0])
  }

  function OctetsOf(b: Option<seq<Byte>>): Option<seq<Byte>> {
    if b.None? then None else Some(Octets(b.value))
  }

  /** A number, unless it is the default. */
  function Unless(v: nat, default: nat): Option<seq<Byte>> {
    if v == default then None else Some(UintElement(v))
  }

  function Concat(certs: seq<seq<Byte>>): seq<Byte> {
    if |certs| == 0 then [] else certs[0] + Concat(certs[1..])
  }

  /** The leaf certificate, unless its hash stands for it. */
  function Leaf(s: Session): Option<seq<Byte>> {
    if |s.certs| > 0 && s.peer.sha256.None? then Some(s.certs[0]) else None
  }

  /** The rest of the chain. */
  function Chain(s: Session): Option<seq<Byte>> {
    if |s.certs| >= 2 && s.peer.sha256.None? then Some(Concat(s.certs[1..])) else None
  }

  function MiscFields(s: Session): Fields {
    var m := s.misc;
    Cons(21, if m.ageAdd.None? then None else Some(Octets(BigEndian(m.ageAdd.value, 4))),
    Cons(22, if m.isServer then None else Some(Boolean(false)),
    Cons(23, Unless(m.signatureAlgorithm, 0),
    Cons(24, Unless(m.maxEarlyData, 0),
    Cons(25, Unless(m.authTimeout, s.core.timeout),
    Cons(26, OctetsOf(m.earlyAlpn), Nil))))))
  }

  function PeerFields(s: Session): Fields {
    var p := s.peer;
    Cons(13, OctetsOf(p.sha256),
    Cons(14, if |p.handshakeHash| > 0 then Some(Octets(p.handshakeHash)) else None,
    Cons(15, OctetsOf(p.timestamps),
    Cons(16, OctetsOf(p.ocsp),
    Cons(17, if p.extendedMasterSecret then Some(Boolean(true)) else None,
    Cons(18, Unless(p.group, 0),
    Cons(19, Chain(s), MiscFields(s))))))))
  }

  function TicketFields(s: Session, forTicket: bool): Fields {
    var t := s.ticket;
    Cons(3, Leaf(s),
    Cons(4, Some(Octets(t.context)),
    Cons(5, Unless(t.verifyResult, 0),
    Cons(8, OctetsOf(t.pskIdentity),
    Cons(9, Unless(t.lifetimeHint, 0),
    Cons(10, if forTicket then None else OctetsOf(t.ticket), PeerFields(s)))))))
  }

  function CoreBytes(c: Core, forTicket: bool): seq<Byte> {
    UintElement(SESSION_VERSION) + (UintElement(c.version) + (Octets(BigEndian(c.cipher, 2)) +
    (Octets(if forTicket then [] else c.id) + (Octets(c.masterKey) +
    (Element(Explicit(1), UintElement(c.time)) + Element(Explicit(2), UintElement(c.timeout)))))))
  }

  function Body(s: Session, forTicket: bool): seq<Byte> {
    CoreBytes(s.core, forTicket) + Encode(TicketFields(s, forTicket))
  }

  /** The serialised session; None if it is too long. */
  function SessionBytes(s: Session, forTicket: bool): Option<seq<Byte>> {
    if |Body(s, forTicket)| > MAX_LENGTH then None else Some(Element(SEQUENCE, Body(s, forTicket)))
  }

  // Reading.

  function OptOctets(s: seq<Byte>, number: TagNumber): Res<(Option<seq<Byte>>, seq<Byte>)> {
    var f :- GetOptional(s, Explicit(number));
    if f.0.None? then Done((None, f.1))
    else
      var b :- Only(f.0.value, OCTET_STRING);
      Done((Some(b), f.1))
  }

  function OptUint(s: seq<Byte>, number: TagNumber, default: nat, most: nat): Res<(nat, seq<Byte>)> {
    var f :- GetOptional(s, Explicit(number));
    if f.0.None? then Done((default, f.1))
    else
      var v :- GetUint64(f.0.value);
      if |v.1| > 0 || v.0 > most then Fail else Done((v.0, f.1))
  }

  function OptBool(s: seq<Byte>, number: TagNumber, default: bool): Res<(bool, seq<Byte>)> {
    var f :- GetOptional(s, Explicit(number));
    if f.0.None? then Done((default, f.1))
    else
      var b :- Only(f.0.value, BOOLEAN);
      if b == [0] then Done((false, f.1)) else if b == [0xff] then Done((true, f.1)) else Fail
  }

  function ParseCore(l: Library, s: seq<Byte>): Res<(Core, seq<Byte>)> {
    var structure :- GetUint64(s);
    var version :- GetUint64(structure.1);
    var cipher :- GetAsn1(version.1, OCTET_STRING);
    var id :- GetAsn1(cipher.1, OCTET_STRING);
    var masterKey :- GetAsn1(id.1, OCTET_STRING);
    var t :- GetAsn1(masterKey.1, Explicit(1));
    var time :- GetUint64(t.0);
    var u :- GetAsn1(t.1, Explicit(2));
    var timeout :- GetUint64(u.0);
    if structure.0 != SESSION_VERSION || !VersionKnown(version.0) || |cipher.0| != 2 || !l.cipher(Value(cipher.0)) ||
      |id.0| > MAX_ID || |masterKey.0| > MAX_MASTER_KEY || timeout.0 > U32
    then Fail
    else Done((Core(version.0, Value(cipher.0), id.0, masterKey.0, time.0, timeout.0), u.1))
  }

  /** Optional octets of which none and no octets are the same. */
  function Stow(b: Option<seq<Byte>>): Option<seq<Byte>> {
    if b == Some([]) then None else b
  }

  function OrEmpty(b: Option<seq<Byte>>): seq<Byte> {
    if b.None? then [] else b.value
  }

  /** The leaf certificate, and the fields up to the ticket. */
  function ParseTicket(s: seq<Byte>): Res<(Option<seq<Byte>>, Ticket, seq<Byte>)> {
    var leaf :- GetOptional(s, Explicit(3));
    var context :- OptOctets(leaf.1, 4);
    var verifyResult :- OptUint(context.1, 5, 0, LONG_MAX);
    // A host name used to be stored and is skipped.
    var hostName :- GetOptional(verifyResult.1, Explicit(6));
    var psk :- OptOctets(hostName.1, 8);
    var hint :- OptUint(psk.1, 9, 0, U32);
    var ticket :- OptOctets(hint.1, 10);
    if leaf.0 == Some([]) || |OrEmpty(context.0)| > MAX_CONTEXT || 0 in OrEmpty(psk.0) then Fail
    else Done((leaf.0, Ticket(OrEmpty(context.0), verifyResult.0, psk.0, hint.0, Stow(ticket.0)), ticket.1))
  }

  /** What is known of the peer, and the rest of the certificate chain. */
  function ParsePeer(s: seq<Byte>): Res<(Peer, Option<seq<Byte>>, seq<Byte>)> {
    var sha :- OptOctets(s, 13);
    var digest :- OptOctets(sha.1, 14);
    var timestamps :- OptOctets(digest.1, 15);
    var ocsp :- OptOctets(timestamps.1, 16);
    var ems :- OptBool(ocsp.1, 17, false);
    var group :- OptUint(ems.1, 18, 0, U16);
    var chain :- GetOptional(group.1, Explicit(19));
    if (sha.0.Some? && |sha.0.value| != SHA256_LENGTH) || |OrEmpty(digest.0)| > MAX_DIGEST || chain.0 == Some([]) then Fail
    else Done((Peer(sha.0, OrEmpty(digest.0), timestamps.0, ocsp.0, ems.0, group.0), chain.0, chain.1))
  }

  function ParseMisc(s: seq<Byte>, timeout: nat): Res<(Misc, seq<Byte>)> {
    var age :- OptOctets(s, 21);
    var isServer :- OptBool(age.1, 22, true);
    var signature :- OptUint(isServer.1, 23, 0, U16);
    var early :- OptUint(signature.1, 24, 0, U32);
    var authTimeout :- OptUint(early.1, 25, timeout, U32);
    var alpn :- OptOctets(authTimeout.1, 26);
    if age.0.Some? && |age.0.value| != 4 then Fail
    else
      Done((Misc(if age.0.None? then None else Some(Value(age.0.value)), isServer.0, signature.0, early.0, authTimeout.0,
                 Stow(alpn.0)), alpn.1))
  }

  /** The certificates of a chain, one element after another. */
  function ParseChain(s: seq<Byte>): Res<seq<seq<Byte>>> {
    if |s| == 0 then Done([])
    else
      var a :- GetAny(s);
      var others :- ParseChain(a.rest);
      Done([a.element] + others)
  }

  /** The body of a session. */
  function ParseBody(l: Library, s: seq<Byte>): Res<Session> {
    var core :- ParseCore(l, s);
    var ticket :- ParseTicket(core.1);
    var peer :- ParsePeer(ticket.2);
    if peer.1.Some? && ticket.0.None? then Fail
    else
      var chain :- ParseChain(OrEmpty(peer.1));
      var certs := (if ticket.0.Some? then [ticket.0.value] else []) + chain;
      var misc :- ParseMisc(peer.2, core.0.timeout);
      if !l.certs(certs) || |misc.1| > 0 then Fail
      else Done(Session(core.0, certs, ticket.1, peer.0, misc.0))
  }

  /** A session, and what follows it. */
  function Parse(l: Library, s: seq<Byte>): Res<(Session, seq<Byte>)> {
    var body :- GetAsn1(s, SEQUENCE);
    var session :- ParseBody(l, body.0);
    Done((session, body.1))
  }

  /** A session and nothing else. */
  function FromBytes(l: Library, s: seq<Byte>): Res<Session> {
    var p :- Parse(l, s);
    if |p.1| > 0 then Fail else Done(p.0)
  }
}
