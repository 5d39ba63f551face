/** What does not read as a session, and what a session looks like on the wire. */
module SessionLimits {
  import opened Bytes
  import opened Der
  import opened SessionDer
  import opened SessionRoundTrip

  // Only DER is read: of several ways to write a length or a number, one.

  lemma {:induction false} BigEndianOfValue(b: seq<Byte>)
    ensures BigEndian(Value(b), |b|) == b
    decreases |b|
  {
    if |b| > 0 {
      var n := |b| - 1;
      BigEndianOfValue(b[..n]);
      assert Value(b) / 256 == Value(b[..n]) && Value(b) % 256 == b[n];
      assert b == b[..n] + [b[n]];
    }
  }

  lemma {:induction false} LeadingOctet(b: seq<Byte>)
    requires |b| > 0 && b[0] != 0
    ensures Pow256(|b| - 1) <= Value(b)
    decreases |b|
  {
    var n := |b| - 1;
    if n > 0 {
      LeadingOctet(b[..n]);
    } else {
      assert b[..0] == [];
    }
  }

  /** A length in so many octets without a leading zero is written in just as many. */
  lemma LengthCanonical(b: seq<Byte>)
    requires 1 <= |b| <= 4 && b[0] != 0 && Value(b) >= 0x80
    ensures LengthBytes(Value(b)) == [0x80 + |b|] + b
  {
    hide Value, BigEndian, LengthSize, Pow256;
    LeadingOctet(b);
    BigEndianOfValue(b);
    SizeOfLength(Value(b), |b|);
  }

  lemma SizeOfLength(n: nat, k: nat)
    requires 1 <= k <= 4 && 0x80 <= n && Pow256(k - 1) <= n < Pow256(k)
    ensures LengthSize(n) == k
  {
    hide Pow256;
    Pow256Small();
  }

  /** What is read as an element is that element as it is written. */
  lemma OnlyDerRead(s: seq<Byte>, tag: Byte)
    requires GetAsn1(s, tag).Done?
    ensures var (body, rest) := GetAsn1(s, tag).v; s == Element(tag, body) + rest
  {
    hide Value, LengthBytes, BigEndian;
    var a := GetAny(s).v;
    var body := a.element[a.header..];
    assert s == a.element + a.rest;
    if s[1] < 0x80 {
      ShortLength(|body|);
      assert a.element == [tag] + [s[1]] + body;
    } else {
      var k := s[1] - 0x80;
      LengthCanonical(s[2..2 + k]);
      assert a.element == [tag] + ([s[1]] + s[2..2 + k]) + body;
    }
  }

  lemma ShortLength(n: nat)
    requires n < 0x80
    ensures LengthBytes(n) == [n]
  {
  }

  /** Octets of a number without superfluous zeros in front. */
  predicate Minimal(b: seq<Byte>) {
    |b| > 0 && b[0] < 0x80 && (b[0] == 0 && |b| > 1 ==> b[1] >= 0x80)
  }

  lemma {:induction false} MinimalIsWritten(b: seq<Byte>)
    requires Minimal(b)
    ensures UintBytes(Value(b)) == b
    decreases |b|
  {
    var n := |b| - 1;
    assert b == b[..n] + [b[n]];
    assert Value(b) == 256 * Value(b[..n]) + b[n];
    if n == 0 {
      assert b[..0] == [];
    } else {
      MinimalIsWritten(b[..n]);
      MinimalIsBig(b);
    }
  }

  lemma MinimalIsBig(b: seq<Byte>)
    requires Minimal(b) && |b| > 1
    ensures Value(b) >= 0x80
    decreases |b|
  {
    var n := |b| - 1;
    if n > 1 {
      MinimalIsBig(b[..n]);
    } else {
      assert b[..1][..0] == [];
      assert Value(b[..1]) == b[0];
    }
  }

  /** What is read as a number is that number as it is written, and fits 64 bits. */
  lemma OnlyMinimalRead(s: seq<Byte>)
    requires GetUint64(s).Done?
    ensures var (v, rest) := GetUint64(s).v; s == UintElement(v) + rest && v < 0x1_0000_0000_0000_0000
  {
    hide GetAsn1, Element;
    OnlyDerRead(s, INTEGER);
    MinimalIsWritten(GetAsn1(s, INTEGER).v.0);
  }

  // Limits.

  lemma ElementAlone(s: seq<Byte>)
    requires GetAny(s).Done?
    ensures IsElement(GetAny(s).v.element)
  {
    hide Value;
    var a := GetAny(s).v;
    if s[1] >= 0x80 {
      var k := s[1] - 0x80;
      assert a.element[2..2 + k] == s[2..2 + k];
    }
  }

  lemma {:induction false} ChainOfElements(s: seq<Byte>)
    requires ParseChain(s).Done?
    ensures forall i :: 0 <= i < |ParseChain(s).v| ==> IsElement(ParseChain(s).v[i])
    decreases |s|
  {
    hide GetAny, IsElement;
    if |s| > 0 {
      ElementAlone(s);
      ChainOfElements(GetAny(s).v.rest);
    }
  }

  lemma CoreIsValid(l: Library, s: seq<Byte>)
    requires ParseCore(l, s).Done?
    ensures ValidCore(l, ParseCore(l, s).v.0)
  {
    hide GetAsn1, Value, UintElement, VersionKnown;
    var structure := GetUint64(s).v;
    var version := GetUint64(structure.1).v;
    var cipher := GetAsn1(version.1, OCTET_STRING).v;
    var id := GetAsn1(cipher.1, OCTET_STRING).v;
    var masterKey := GetAsn1(id.1, OCTET_STRING).v;
    var t := GetAsn1(masterKey.1, Explicit(1)).v;
    OnlyMinimalRead(t.0);
    Pow256Values();
  }

  lemma UintWithin(s: seq<Byte>, number: TagNumber, default: nat, most: nat)
    requires OptUint(s, number, default, most).Done? && default <= most
    ensures OptUint(s, number, default, most).v.0 <= most
  {
    hide GetUint64, GetOptional;
  }

  lemma TicketIsValid(s: seq<Byte>)
    requires ParseTicket(s).Done?
    ensures var t := ParseTicket(s).v; ValidTicket(t.1) && t.0 != Some([]) && t.1.ticket != Some([])
  {
    hide GetOptional, OptOctets, OptUint;
    var leaf := GetOptional(s, Explicit(3)).v;
    var context := OptOctets(leaf.1, 4).v;
    var verifyResult := OptUint(context.1, 5, 0, LONG_MAX).v;
    var hostName := GetOptional(verifyResult.1, Explicit(6)).v;
    var psk := OptOctets(hostName.1, 8).v;
    UintWithin(context.1, 5, 0, LONG_MAX);
    UintWithin(psk.1, 9, 0, U32);
  }

  lemma PeerIsValid(s: seq<Byte>)
    requires ParsePeer(s).Done?
    ensures ValidPeer(ParsePeer(s).v.0)
  {
    hide GetOptional, OptOctets, OptUint, OptBool;
    var sha := OptOctets(s, 13).v;
    var digest := OptOctets(sha.1, 14).v;
    var timestamps := OptOctets(digest.1, 15).v;
    var ocsp := OptOctets(timestamps.1, 16).v;
    var ems := OptBool(ocsp.1, 17, false).v;
    UintWithin(ems.1, 18, 0, U16);
  }

  lemma MiscIsValid(s: seq<Byte>, timeout: nat)
    requires ParseMisc(s, timeout).Done? && timeout <= U32
    ensures var m := ParseMisc(s, timeout).v.0; ValidMisc(m) && m.earlyAlpn != Some([])
  {
    hide OptOctets, OptUint, OptBool, Value;
    var age := OptOctets(s, 21).v;
    var isServer := OptBool(age.1, 22, true).v;
    var signature := OptUint(isServer.1, 23, 0, U16).v;
    var early := OptUint(signature.1, 24, 0, U32).v;
    UintWithin(isServer.1, 23, 0, U16);
    UintWithin(signature.1, 24, 0, U32);
    UintWithin(early.1, 25, timeout, U32);
    Pow256Small();
  }

  /** Whatever octets read as a session, it is within all limits: a known version and cipher, no identifier, key, context,
      hash or number too long, no zero octet in an identity, no empty certificate, ticket or protocol, and a chain of DER
      elements behind a leaf that the library can hold on to. */
  lemma ReadIsValid(l: Library, s: seq<Byte>)
    requires Parse(l, s).Done?
    ensures var x := Parse(l, s).v.0;
            && ValidCore(l, x.core) && ValidTicket(x.ticket) && ValidPeer(x.peer) && ValidMisc(x.misc)
            && l.certs(x.certs) && (|x.certs| > 0 ==> x.certs[0] != [])
            && (forall i :: 1 <= i < |x.certs| ==> IsElement(x.certs[i]))
            && x.ticket.ticket != Some([]) && x.misc.earlyAlpn != Some([])
  {
    hide ParseCore, ParseTicket, ParsePeer, ParseMisc, ParseChain, GetAsn1, ValidCore, ValidTicket, ValidPeer, ValidMisc, IsElement,
         OrEmpty;
    var body := GetAsn1(s, SEQUENCE).v.0;
    var core := ParseCore(l, body).v;
    var ticket := ParseTicket(core.1).v;
    var peer := ParsePeer(ticket.2).v;
    CoreIsValid(l, body);
    assert core.0.timeout <= U32 by { CoreTimeout(l, core.0); }
    TicketIsValid(core.1);
    PeerIsValid(ticket.2);
    ChainOfElements(OrEmpty(peer.1));
    MiscIsValid(peer.2, core.0.timeout);
    assert peer.1.None? ==> ParseChain(OrEmpty(peer.1)) == Res.Done([]) by { NoChain(); }
  }

  lemma NoChain()
    ensures ParseChain(OrEmpty(None)) == Res.Done([])
  {
  }

  lemma CoreTimeout(l: Library, c: Core)
    requires ValidCore(l, c)
    ensures c.timeout <= U32
  {
  }

  /** What was read once is written so that it reads as the same again, unless it has certificates beside a hash of the
      leaf, which are not written. */
  lemma ReadWriteRead(l: Library, s: seq<Byte>)
    requires Parse(l, s).Done? && l.certs([]) && SessionBytes(Parse(l, s).v.0, false).Some?
    ensures var x := Parse(l, s).v.0;
            FromBytes(l, SessionBytes(x, false).value) == Res.Done(x) <==> (x.peer.sha256.Some? ==> x.certs == [])
  {
    hide Parse, SessionBytes, ValidCore, ValidTicket, ValidPeer, ValidMisc, IsElement, FromBytes;
    ReadIsValid(l, s);
    SameSessionIff(l, Parse(l, s).v.0, false);
  }

  // On the wire.

  /** The octets contain the element. */
  ghost predicate Contains(s: seq<Byte>, tag: Byte, body: seq<Byte>) {
    exists a: seq<Byte>, b: seq<Byte> :: s == a + Element(tag, body) + b
  }

  /** The fields with the given content, in whatever place. */
  predicate Lists(fields: Fields, number: nat, content: seq<Byte>) {
    fields.Cons? && ((fields.number == number && fields.content == Some(content)) || Lists(fields.tail, number, content))
  }

  lemma {:induction false} ListedOnWire(fields: Fields, number: TagNumber, content: seq<Byte>, front: seq<Byte>)
    requires Lists(fields, number, content)
    ensures Contains(front + Encode(fields), 0xa0 + number, content)
    decreases fields
  {
    hide Element;
    if fields.number == number && fields.content == Some(content) {
      assert front + Encode(fields) == front + Element(0xa0 + number, content) + Encode(fields.tail);
    } else {
      ListedOnWire(fields.tail, number, content, front + Put(fields.number, fields.content));
      assert front + Put(fields.number, fields.content) + Encode(fields.tail) == front + Encode(fields);
    }
  }

  /** The first field is listed, and so are those behind it. */
  lemma Here(fields: Fields)
    requires fields.Cons?
    ensures fields.content.Some? ==> Lists(fields, fields.number, fields.content.value)
    ensures forall k: nat, c :: Lists(fields.tail, k, c) ==> Lists(fields, k, c)
  {
  }

  lemma MiscListed(s: Session)
    ensures var f, m := MiscFields(s), s.misc;
            && (m.ageAdd.Some? ==> Lists(f, 21, Octets(BigEndian(m.ageAdd.value, 4))))
            && (!m.isServer ==> Lists(f, 22, Element(1, [0])))
            && (m.signatureAlgorithm != 0 ==> Lists(f, 23, UintElement(m.signatureAlgorithm)))
            && (m.maxEarlyData != 0 ==> Lists(f, 24, UintElement(m.maxEarlyData)))
            && (m.authTimeout != s.core.timeout ==> Lists(f, 25, UintElement(m.authTimeout)))
            && (m.earlyAlpn.Some? ==> Lists(f, 26, Octets(m.earlyAlpn.value)))
  {
    hide Octets, UintElement, Element, BigEndian, Lists;
    var f := MiscFields(s);
    Here(f);
    Here(f.tail);
    Here(f.tail.tail);
    Here(f.tail.tail.tail);
    Here(f.tail.tail.tail.tail);
    Here(f.tail.tail.tail.tail.tail);
  }

  lemma PeerListed(s: Session)
    ensures var f, p := PeerFields(s), s.peer;
            && (p.sha256.Some? ==> Lists(f, 13, Octets(p.sha256.value)))
            && (p.handshakeHash != [] ==> Lists(f, 14, Octets(p.handshakeHash)))
            && (p.timestamps.Some? ==> Lists(f, 15, Octets(p.timestamps.value)))
            && (p.ocsp.Some? ==> Lists(f, 16, Octets(p.ocsp.value)))
            && (p.extendedMasterSecret ==> Lists(f, 17, Element(1, [0xff])))
            && (p.group != 0 ==> Lists(f, 18, UintElement(p.group)))
            && (|s.certs| >= 2 && p.sha256.None? ==> Lists(f, 19, Concat(s.certs[1..])))
            && forall k: nat, c :: Lists(MiscFields(s), k, c) ==> Lists(f, k, c)
  {
    hide Octets, UintElement, Element, MiscFields, Concat, Lists;
    var f := PeerFields(s);
    Here(f);
    Here(f.tail);
    Here(f.tail.tail);
    Here(f.tail.tail.tail);
    Here(f.tail.tail.tail.tail);
    Here(f.tail.tail.tail.tail.tail);
    Here(f.tail.tail.tail.tail.tail.tail);
  }

  lemma TicketListed(s: Session, forTicket: bool)
    ensures var f, t := TicketFields(s, forTicket), s.ticket;
            && (|s.certs| > 0 && s.peer.sha256.None? ==> Lists(f, 3, s.certs[0]))
            && Lists(f, 4, Octets(t.context))
            && (t.verifyResult != 0 ==> Lists(f, 5, UintElement(t.verifyResult)))
            && (t.pskIdentity.Some? ==> Lists(f, 8, Octets(t.pskIdentity.value)))
            && (t.lifetimeHint != 0 ==> Lists(f, 9, UintElement(t.lifetimeHint)))
            && (t.ticket.Some? && !forTicket ==> Lists(f, 10, Octets(t.ticket.value)))
            && forall k: nat, c :: Lists(PeerFields(s), k, c) ==> Lists(f, k, c)
  {
    hide Octets, UintElement, Element, PeerFields, Lists;
    var f := TicketFields(s, forTicket);
    Here(f);
    Here(f.tail);
    Here(f.tail.tail);
    Here(f.tail.tail.tail);
    Here(f.tail.tail.tail.tail);
    Here(f.tail.tail.tail.tail.tail);
  }

  lemma Listed(s: Session, forTicket: bool, number: TagNumber, content: seq<Byte>)
    ensures Lists(TicketFields(s, forTicket), number, content) ==>
              Contains(Body(s, forTicket), 0xa0 + number, content)
  {
    hide CoreBytes, TicketFields, Element;
    if Lists(TicketFields(s, forTicket), number, content) {
      ListedOnWire(TicketFields(s, forTicket), number, content, CoreBytes(s.core, forTicket));
    }
  }

  /** Every field that is there is written as one element under its own tag. */
  lemma FieldsOnWire(s: Session)
    ensures var b, t, p, m := Body(s, false), s.ticket, s.peer, s.misc;
            && (|s.certs| > 0 && p.sha256.None? ==> Contains(b, 0xa3, s.certs[0]))
            && Contains(b, 0xa4, Octets(t.context))
            && (t.verifyResult != 0 ==> Contains(b, 0xa5, UintElement(t.verifyResult)))
            && (t.pskIdentity.Some? ==> Contains(b, 0xa8, Octets(t.pskIdentity.value)))
            && (t.lifetimeHint != 0 ==> Contains(b, 0xa9, UintElement(t.lifetimeHint)))
            && (t.ticket.Some? ==> Contains(b, 0xaa, Octets(t.ticket.value)))
            && (p.sha256.Some? ==> Contains(b, 0xad, Octets(p.sha256.value)))
            && (p.handshakeHash != [] ==> Contains(b, 0xae, Octets(p.handshakeHash)))
            && (p.timestamps.Some? ==> Contains(b, 0xaf, Octets(p.timestamps.value)))
            && (p.ocsp.Some? ==> Contains(b, 0xb0, Octets(p.ocsp.value)))
            && (p.extendedMasterSecret ==> Contains(b, 0xb1, Element(1, [0xff])))
            && (p.group != 0 ==> Contains(b, 0xb2, UintElement(p.group)))
            && (|s.certs| >= 2 && p.sha256.None? ==> Contains(b, 0xb3, Concat(s.certs[1..])))
            && (m.ageAdd.Some? ==> Contains(b, 0xb5, Octets(BigEndian(m.ageAdd.value, 4))))
            && (!m.isServer ==> Contains(b, 0xb6, Element(1, [0])))
            && (m.signatureAlgorithm != 0 ==> Contains(b, 0xb7, UintElement(m.signatureAlgorithm)))
            && (m.maxEarlyData != 0 ==> Contains(b, 0xb8, UintElement(m.maxEarlyData)))
            && (m.authTimeout != s.core.timeout ==> Contains(b, 0xb9, UintElement(m.authTimeout)))
            && (m.earlyAlpn.Some? ==> Contains(b, 0xba, Octets(m.earlyAlpn.value)))
  {
    hide Octets, UintElement, Element, Contains, Lists, TicketFields, PeerFields, MiscFields, Body, Concat, BigEndian;
    TicketListed(s, false);
    PeerListed(s);
    MiscListed(s);
    forall number: TagNumber, content | Lists(TicketFields(s, false), number, content)
      ensures Contains(Body(s, false), 0xa0 + number, content)
    {
      Listed(s, false, number, content);
    }
  }
}
