/** A serialised session reads back as the same session, for every combination of optional fields. */
module SessionRoundTrip {
  import opened Bytes
  import opened Der
  import opened SessionDer

  // What sessions hold.

  /** One DER element and nothing else. */
  predicate IsElement(cert: seq<Byte>) {
    GetAny(cert).Done? && GetAny(cert).v.rest == []
  }

  predicate ValidCore(l: Library, c: Core) {
    && VersionKnown(c.version) && c.cipher <= U16 && l.cipher(c.cipher)
    && |c.id| <= MAX_ID && |c.masterKey| <= MAX_MASTER_KEY && c.time < TWO_64 && c.timeout <= U32
  }

  predicate ValidTicket(t: Ticket) {
    |t.context| <= MAX_CONTEXT && t.verifyResult <= LONG_MAX && 0 !in OrEmpty(t.pskIdentity) && t.lifetimeHint <= U32
  }

  predicate ValidPeer(p: Peer) {
    (p.sha256.Some? ==> |p.sha256.value| == SHA256_LENGTH) && |p.handshakeHash| <= MAX_DIGEST && p.group <= U16
  }

  predicate ValidMisc(m: Misc) {
    && (m.ageAdd.Some? ==> m.ageAdd.value <= U32)
    && m.signatureAlgorithm <= U16 && m.maxEarlyData <= U32 && m.authTimeout <= U32
  }

  /** The leaf certificate is not empty and the others are DER elements. */
  predicate ValidCerts(l: Library, certs: seq<seq<Byte>>) {
    && l.certs(certs) && l.certs([])
    && (|certs| > 0 ==> certs[0] != [])
    && forall i :: 1 <= i < |certs| ==> IsElement(certs[i])
  }

  predicate Valid(l: Library, s: Session) {
    ValidCore(l, s.core) && ValidCerts(l, s.certs) && ValidTicket(s.ticket) && ValidPeer(s.peer) && ValidMisc(s.misc)
  }

  /** What comes back: certificates give way to the hash of the leaf, an empty ticket or protocol is none, and a session
      in a ticket has neither an identifier nor a ticket. */
  function Kept(s: Session, forTicket: bool): Session {
    Session(
      if forTicket then s.core.(id := []) else s.core,
      if s.peer.sha256.Some? then [] else s.certs,
      s.ticket.(ticket := if forTicket then None else Stow(s.ticket.ticket)),
      s.peer,
      s.misc.(earlyAlpn := Stow(s.misc.earlyAlpn)))
  }

  // Fields.

  predicate Rising(fields: Fields, above: nat) {
    fields.Nil? || (above < fields.number && Rising(fields.tail, fields.number))
  }

  lemma {:induction false} StartsAbove(fields: Fields, above: TagNumber)
    requires Rising(fields, above)
    ensures var s := Encode(fields); |s| == 0 || s[0] > Explicit(above)
    decreases fields
  {
    if fields.Cons? && fields.content.None? {
      StartsAbove(fields.tail, fields.number);
      assert Encode(fields) == Encode(fields.tail);
    }
  }

  /** A field that is not there is passed over. */
  lemma FieldSkipped(fields: Fields, number: TagNumber)
    requires Rising(fields, number)
    ensures GetOptional(Encode(fields), Explicit(number)) == Done((None, Encode(fields)))
  {
    hide Encode, GetAsn1, Rising;
    StartsAbove(fields, number);
  }

  lemma EncodeParts(fields: Fields)
    requires fields.Cons?
    ensures Encode(fields) == Put(fields.number, fields.content) + Encode(fields.tail)
    ensures |Encode(fields.tail)| <= |Encode(fields)|
    ensures fields.content.Some? ==> |fields.content.value| < |Encode(fields)|
  {
    hide Element;
  }

  /** The first field, there or not, and what follows. */
  lemma FieldRead(fields: Fields)
    requires fields.Cons? && Rising(fields.tail, fields.number) && |Encode(fields)| <= MAX_LENGTH
    ensures GetOptional(Encode(fields), Explicit(fields.number)) == Done((fields.content, Encode(fields.tail)))
    ensures |Encode(fields.tail)| <= MAX_LENGTH
  {
    hide Encode, GetAsn1, Rising, Element;
    EncodeParts(fields);
    if fields.content.None? {
      FieldSkipped(fields.tail, fields.number);
      assert [] + Encode(fields.tail) == Encode(fields.tail);
    } else {
      ElementRead(Explicit(fields.number), fields.content.value, Encode(fields.tail));
    }
  }

  lemma OctetsRead(fields: Fields, b: Option<seq<Byte>>)
    requires fields.Cons? && Rising(fields.tail, fields.number) && |Encode(fields)| <= MAX_LENGTH
    requires fields.content == OctetsOf(b)
    ensures OptOctets(Encode(fields), fields.number) == Done((b, Encode(fields.tail)))
    ensures |Encode(fields.tail)| <= MAX_LENGTH
  {
    hide Encode, GetOptional, Rising, Only, Element, Put;
    FieldRead(fields);
    EncodeParts(fields);
    if b.Some? {
      OnlyRead(OCTET_STRING, b.value);
    }
  }

  lemma UintFieldRead(fields: Fields, v: nat, default: nat, most: nat)
    requires fields.Cons? && Rising(fields.tail, fields.number) && |Encode(fields)| <= MAX_LENGTH
    requires fields.content == Unless(v, default) && v <= most < TWO_64
    ensures OptUint(Encode(fields), fields.number, default, most) == Done((v, Encode(fields.tail)))
    ensures |Encode(fields.tail)| <= MAX_LENGTH
  {
    hide Encode, GetOptional, Rising, GetUint64, UintElement, Put;
    FieldRead(fields);
    UintRead(v, []);
    assert UintElement(v) + [] == UintElement(v);
  }

  lemma BoolFieldRead(fields: Fields, v: bool, default: bool)
    requires fields.Cons? && Rising(fields.tail, fields.number) && |Encode(fields)| <= MAX_LENGTH
    requires fields.content == if v == default then None else Some(Boolean(v))
    ensures OptBool(Encode(fields), fields.number, default) == Done((v, Encode(fields.tail)))
    ensures |Encode(fields.tail)| <= MAX_LENGTH
  {
    hide Encode, GetOptional, Rising, Only, Element, Put;
    FieldRead(fields);
    OnlyRead(BOOLEAN, [if v then 0xff else 0]);
  }

  // The parts of a session.

  predicate Fits(fields: Fields) {
    |Encode(fields)| <= MAX_LENGTH
  }

  /** The fields from number 21 on, each with the fields behind it. */
  lemma MiscRead(s: Session)
    requires ValidMisc(s.misc) && Fits(MiscFields(s))
    ensures ParseMisc(Encode(MiscFields(s)), s.core.timeout) == Done((s.misc.(earlyAlpn := Stow(s.misc.earlyAlpn)), []))
  {
    var f21 := MiscFields(s);
    var f22 := f21.tail;
    var f23 := f22.tail;
    var f24 := f23.tail;
    var f25 := f24.tail;
    var f26 := f25.tail;
    var m := s.misc;
    var age := if m.ageAdd.None? then None else Some(BigEndian(m.ageAdd.value, 4));
    MiscRising(s);
    AgeField(m.ageAdd);
    if m.ageAdd.Some? {
      AgeRead(m.ageAdd.value);
    }
    assert Encode(Nil) == [];
    hide Rising, Fits, Encode, OptOctets, OptUint, OptBool, BigEndian, Value, OctetsOf, Unless, Boolean, ParseMisc, MiscFields;
    OctetsRead(f21, age);
    BoolFieldRead(f22, m.isServer, true);
    UintFieldRead(f23, m.signatureAlgorithm, 0, U16);
    UintFieldRead(f24, m.maxEarlyData, 0, U32);
    UintFieldRead(f25, m.authTimeout, s.core.timeout, U32);
    OctetsRead(f26, m.earlyAlpn);
    MiscParsed(s.core.timeout, age, m.isServer, m.signatureAlgorithm, m.maxEarlyData, m.authTimeout, m.earlyAlpn,
               Encode(f21), Encode(f22), Encode(f23), Encode(f24), Encode(f25), Encode(f26), []);
  }

  lemma MiscRising(s: Session)
    ensures var f := MiscFields(s);
            && f.number == 21 && f.tail.number == 22 && f.tail.tail.number == 23 && f.tail.tail.tail.number == 24
            && f.tail.tail.tail.tail.number == 25 && f.tail.tail.tail.tail.tail.number == 26
            && Rising(f, 20) && Rising(f.tail, 21) && Rising(f.tail.tail, 22) && Rising(f.tail.tail.tail, 23)
            && Rising(f.tail.tail.tail.tail, 24) && Rising(f.tail.tail.tail.tail.tail, 25)
            && f.tail.tail.tail.tail.tail.tail == Nil && Rising(Nil, 26)
  {
    hide Octets, BigEndian, Boolean, Unless, OctetsOf;
    var f := MiscFields(s);
    assert Rising(f.tail.tail.tail.tail.tail, 25);
    assert Rising(f.tail.tail.tail.tail, 24);
    assert Rising(f.tail.tail.tail, 23);
    assert Rising(f.tail.tail, 22);
    assert Rising(f.tail, 21);
  }

  lemma MiscParsed(timeout: nat, age: Option<seq<Byte>>, isServer: bool, signature: nat, early: nat, auth: nat,
                   alpn: Option<seq<Byte>>, s21: seq<Byte>, s22: seq<Byte>, s23: seq<Byte>, s24: seq<Byte>, s25: seq<Byte>,
                   s26: seq<Byte>, rest: seq<Byte>)
    requires OptOctets(s21, 21) == Done((age, s22))
    requires OptBool(s22, 22, true) == Done((isServer, s23))
    requires OptUint(s23, 23, 0, U16) == Done((signature, s24))
    requires OptUint(s24, 24, 0, U32) == Done((early, s25))
    requires OptUint(s25, 25, timeout, U32) == Done((auth, s26))
    requires OptOctets(s26, 26) == Done((alpn, rest))
    requires age.Some? ==> |age.value| == 4
    ensures ParseMisc(s21, timeout) ==
            Done((Misc(if age.None? then None else Some(Value(age.value)), isServer, signature, early, auth, Stow(alpn)), rest))
  {
    hide OptOctets, OptUint, OptBool, Value, Stow;
  }

  lemma PeerParsed(sha: Option<seq<Byte>>, digest: Option<seq<Byte>>, timestamps: Option<seq<Byte>>,
                   ocsp: Option<seq<Byte>>, ems: bool, group: nat, chain: Option<seq<Byte>>, s13: seq<Byte>, s14: seq<Byte>,
                   s15: seq<Byte>, s16: seq<Byte>, s17: seq<Byte>, s18: seq<Byte>, s19: seq<Byte>, rest: seq<Byte>)
    requires OptOctets(s13, 13) == Done((sha, s14))
    requires OptOctets(s14, 14) == Done((digest, s15))
    requires OptOctets(s15, 15) == Done((timestamps, s16))
    requires OptOctets(s16, 16) == Done((ocsp, s17))
    requires OptBool(s17, 17, false) == Done((ems, s18))
    requires OptUint(s18, 18, 0, U16) == Done((group, s19))
    requires GetOptional(s19, Explicit(19)) == Done((chain, rest))
    requires (sha.Some? ==> |sha.value| == SHA256_LENGTH) && |OrEmpty(digest)| <= MAX_DIGEST && chain != Some([])
    ensures ParsePeer(s13) == Done((Peer(sha, OrEmpty(digest), timestamps, ocsp, ems, group), chain, rest))
  {
    hide OptOctets, OptUint, OptBool, GetOptional, OrEmpty;
  }

  lemma TicketParsed(leaf: Option<seq<Byte>>, context: Option<seq<Byte>>, verifyResult: nat, host: Option<seq<Byte>>,
                     psk: Option<seq<Byte>>, hint: nat, ticket: Option<seq<Byte>>, s3: seq<Byte>, s4: seq<Byte>,
                     s5: seq<Byte>, s6: seq<Byte>, s8: seq<Byte>, s9: seq<Byte>, s10: seq<Byte>, rest: seq<Byte>)
    requires GetOptional(s3, Explicit(3)) == Done((leaf, s4))
    requires OptOctets(s4, 4) == Done((context, s5))
    requires OptUint(s5, 5, 0, LONG_MAX) == Done((verifyResult, s6))
    requires GetOptional(s6, Explicit(6)) == Done((host, s8))
    requires OptOctets(s8, 8) == Done((psk, s9))
    requires OptUint(s9, 9, 0, U32) == Done((hint, s10))
    requires OptOctets(s10, 10) == Done((ticket, rest))
    requires leaf != Some([]) && |OrEmpty(context)| <= MAX_CONTEXT && 0 !in OrEmpty(psk)
    ensures ParseTicket(s3) == Done((leaf, Ticket(OrEmpty(context), verifyResult, psk, hint, Stow(ticket)), rest))
  {
    hide OptOctets, OptUint, GetOptional, OrEmpty, Stow;
  }

  lemma AgeField(age: Option<nat>)
    ensures (if age.None? then None else Some(Octets(BigEndian(age.value, 4)))) ==
            OctetsOf(if age.None? then None else Some(BigEndian(age.value, 4)))
  {
  }

  lemma AgeRead(age: nat)
    requires age <= U32
    ensures |BigEndian(age, 4)| == 4 && Value(BigEndian(age, 4)) == age
  {
    hide BigEndian, Value;
    Pow256Small();
    ValueOfBigEndian(age, 4);
  }

  lemma PeerRising(s: Session)
    ensures var f := PeerFields(s);
            && f.number == 13 && f.tail.number == 14 && f.tail.tail.number == 15 && f.tail.tail.tail.number == 16
            && f.tail.tail.tail.tail.number == 17 && f.tail.tail.tail.tail.tail.number == 18
            && f.tail.tail.tail.tail.tail.tail.number == 19 && f.tail.tail.tail.tail.tail.tail.tail == MiscFields(s)
            && Rising(f, 12) && Rising(f.tail, 13) && Rising(f.tail.tail, 14) && Rising(f.tail.tail.tail, 15)
            && Rising(f.tail.tail.tail.tail, 16) && Rising(f.tail.tail.tail.tail.tail, 17)
            && Rising(f.tail.tail.tail.tail.tail.tail, 18) && Rising(MiscFields(s), 19)
  {
    hide Octets, BigEndian, Boolean, Unless, OctetsOf, Chain;
    MiscRising(s);
    assert Rising(MiscFields(s), 19);
    hide MiscFields;
    var f := PeerFields(s);
    assert Rising(f.tail.tail.tail.tail.tail.tail, 18);
    assert Rising(f.tail.tail.tail.tail.tail, 17);
    assert Rising(f.tail.tail.tail.tail, 16);
    assert Rising(f.tail.tail.tail, 15);
    assert Rising(f.tail.tail, 14);
    assert Rising(f.tail, 13);
  }

  lemma TicketRising(s: Session, forTicket: bool)
    ensures var f := TicketFields(s, forTicket);
            && f.number == 3 && f.tail.number == 4 && f.tail.tail.number == 5 && f.tail.tail.tail.number == 8
            && f.tail.tail.tail.tail.number == 9 && f.tail.tail.tail.tail.tail.number == 10
            && f.tail.tail.tail.tail.tail.tail == PeerFields(s)
            && Rising(f.tail, 3) && Rising(f.tail.tail, 4) && Rising(f.tail.tail.tail, 6) && Rising(f.tail.tail.tail, 5)
            && Rising(f.tail.tail.tail.tail, 8) && Rising(f.tail.tail.tail.tail.tail, 9) && Rising(PeerFields(s), 10)
  {
    hide Octets, BigEndian, Boolean, Unless, OctetsOf, Leaf;
    PeerRising(s);
    assert Rising(PeerFields(s), 10);
    hide PeerFields;
    var f := TicketFields(s, forTicket);
    assert Rising(f.tail.tail.tail.tail.tail, 9);
    assert Rising(f.tail.tail.tail.tail, 8);
    assert Rising(f.tail.tail.tail, 6);
    assert Rising(f.tail.tail.tail, 5);
    assert Rising(f.tail.tail, 4);
    assert Rising(f.tail, 3);
  }

  /** No octets as no field. */
  function NonEmpty(b: seq<Byte>): Option<seq<Byte>> {
    if |b| > 0 then Some(b) else None
  }

  lemma PeerRead(l: Library, s: Session)
    requires ValidPeer(s.peer) && ValidCerts(l, s.certs) && Fits(PeerFields(s))
    ensures ParsePeer(Encode(PeerFields(s))) == Done((s.peer, Chain(s), Encode(MiscFields(s))))
    ensures Fits(MiscFields(s))
  {
    var f13 := PeerFields(s);
    var f14 := f13.tail;
    var f15 := f14.tail;
    var f16 := f15.tail;
    var f17 := f16.tail;
    var f18 := f17.tail;
    var f19 := f18.tail;
    var p := s.peer;
    PeerRising(s);
    ChainNotEmpty(l, s);
    assert f14.content == OctetsOf(NonEmpty(p.handshakeHash));
    hide Rising, Fits, Encode, OptOctets, OptUint, OptBool, OctetsOf, Unless, Boolean, ParsePeer, PeerFields, MiscFields,
         GetOptional, Chain, ValidCerts;
    OctetsRead(f13, p.sha256);
    OctetsRead(f14, NonEmpty(p.handshakeHash));
    OctetsRead(f15, p.timestamps);
    OctetsRead(f16, p.ocsp);
    BoolFieldRead(f17, p.extendedMasterSecret, false);
    UintFieldRead(f18, p.group, 0, U16);
    FieldRead(f19);
    PeerParsed(p.sha256, NonEmpty(p.handshakeHash), p.timestamps, p.ocsp, p.extendedMasterSecret, p.group, Chain(s),
               Encode(f13), Encode(f14), Encode(f15), Encode(f16), Encode(f17), Encode(f18), Encode(f19),
               Encode(MiscFields(s)));
  }

  lemma ChainNotEmpty(l: Library, s: Session)
    requires ValidCerts(l, s.certs)
    ensures Chain(s) != Some([])
  {
    hide GetAny;
    if |s.certs| >= 2 {
      assert IsElement(s.certs[1]);
      assert Concat(s.certs[1..]) == s.certs[1..][0] + Concat(s.certs[1..][1..]);
    }
  }

  lemma TicketRead(l: Library, s: Session, forTicket: bool)
    requires ValidTicket(s.ticket) && ValidCerts(l, s.certs) && Fits(TicketFields(s, forTicket))
    ensures ParseTicket(Encode(TicketFields(s, forTicket))) ==
            Done((Leaf(s), Kept(s, forTicket).ticket, Encode(PeerFields(s))))
    ensures Fits(PeerFields(s))
  {
    var f3 := TicketFields(s, forTicket);
    var f4 := f3.tail;
    var f5 := f4.tail;
    var f8 := f5.tail;
    var f9 := f8.tail;
    var f10 := f9.tail;
    var t := s.ticket;
    TicketRising(s, forTicket);
    assert Leaf(s) != Some([]);
    hide Rising, Fits, Encode, OptOctets, OptUint, OctetsOf, Unless, ParseTicket, TicketFields, PeerFields, GetOptional,
         Leaf, ValidCerts, Octets;
    var ticket := if forTicket then None else t.ticket;
    FieldContents(s, forTicket);
    FieldRead(f3);
    OctetsRead(f4, Some(t.context));
    UintFieldRead(f5, t.verifyResult, 0, LONG_MAX);
    FieldSkipped(f8, 6);
    OctetsRead(f8, t.pskIdentity);
    UintFieldRead(f9, t.lifetimeHint, 0, U32);
    OctetsRead(f10, ticket);
    TicketParsed(Leaf(s), Some(t.context), t.verifyResult, None, t.pskIdentity, t.lifetimeHint, ticket, Encode(f3),
                 Encode(f4), Encode(f5), Encode(f8), Encode(f8), Encode(f9), Encode(f10), Encode(PeerFields(s)));
  }

  lemma FieldContents(s: Session, forTicket: bool)
    ensures var f := TicketFields(s, forTicket);
            && f.content == Leaf(s) && f.tail.content == OctetsOf(Some(s.ticket.context))
            && f.tail.tail.content == Unless(s.ticket.verifyResult, 0)
            && f.tail.tail.tail.content == OctetsOf(s.ticket.pskIdentity)
            && f.tail.tail.tail.tail.content == Unless(s.ticket.lifetimeHint, 0)
            && f.tail.tail.tail.tail.tail.content == OctetsOf(if forTicket then None else s.ticket.ticket)
  {
    hide Octets, Unless, Leaf, PeerFields;
  }

  lemma CoreParsed(l: Library, version: nat, cipher: seq<Byte>, id: seq<Byte>, masterKey: seq<Byte>, t: seq<Byte>, time: nat,
                   u: seq<Byte>, timeout: nat, s0: seq<Byte>, s1: seq<Byte>, s2: seq<Byte>, s3: seq<Byte>, s4: seq<Byte>,
                   s5: seq<Byte>, s6: seq<Byte>, rest: seq<Byte>)
    requires GetUint64(s0) == Done((SESSION_VERSION, s1))
    requires GetUint64(s1) == Done((version, s2))
    requires GetAsn1(s2, OCTET_STRING) == Done((cipher, s3))
    requires GetAsn1(s3, OCTET_STRING) == Done((id, s4))
    requires GetAsn1(s4, OCTET_STRING) == Done((masterKey, s5))
    requires GetAsn1(s5, Explicit(1)) == Done((t, s6)) && GetUint64(t) == Done((time, []))
    requires GetAsn1(s6, Explicit(2)) == Done((u, rest)) && GetUint64(u) == Done((timeout, []))
    requires VersionKnown(version) && |cipher| == 2 && l.cipher(Value(cipher))
    requires |id| <= MAX_ID && |masterKey| <= MAX_MASTER_KEY && timeout <= U32
    ensures ParseCore(l, s0) == Done((Core(version, Value(cipher), id, masterKey, time, timeout), rest))
  {
    hide GetUint64, GetAsn1, Value, VersionKnown;
  }

  lemma CipherRead(cipher: nat)
    requires cipher <= U16
    ensures |BigEndian(cipher, 2)| == 2 && Value(BigEndian(cipher, 2)) == cipher
  {
    hide BigEndian, Value;
    Pow256Small();
    ValueOfBigEndian(cipher, 2);
  }

  lemma OctetsElementRead(b: seq<Byte>, rest: seq<Byte>)
    requires |b| <= MAX_LENGTH
    ensures GetAsn1(Octets(b) + rest, OCTET_STRING) == Done((b, rest))
  {
    hide GetAsn1, Element;
    ElementRead(OCTET_STRING, b, rest);
  }

  lemma TimeRead(number: TagNumber, v: nat, rest: seq<Byte>)
    requires v < TWO_64
    ensures GetAsn1(Element(Explicit(number), UintElement(v)) + rest, Explicit(number)) == Done((UintElement(v), rest))
    ensures GetUint64(UintElement(v)) == Done((v, []))
  {
    hide GetAsn1, GetUint64, UintBytes, Element;
    UintElementShort(v);
    ElementRead(Explicit(number), UintElement(v), rest);
    UintRead(v, []);
    assert UintElement(v) + [] == UintElement(v);
  }

  lemma UintElementShort(v: nat)
    requires v < TWO_64
    ensures |UintElement(v)| <= MAX_LENGTH
  {
    hide UintBytes, LengthBytes;
    UintShort(v);
  }

  lemma CoreRead(l: Library, c: Core, forTicket: bool, rest: seq<Byte>)
    requires ValidCore(l, c)
    ensures ParseCore(l, CoreBytes(c, forTicket) + rest) == Done((if forTicket then c.(id := []) else c, rest))
  {
    hide GetUint64, GetAsn1, UintElement, Octets, Element, BigEndian, Value, ParseCore, VersionKnown;
    var id := if forTicket then [] else c.id;
    CipherRead(c.cipher);
    SmallVersion(c.version);
    var s6 := Element(Explicit(2), UintElement(c.timeout)) + rest;
    var s5 := Element(Explicit(1), UintElement(c.time)) + s6;
    var s4 := Octets(c.masterKey) + s5;
    var s3 := Octets(id) + s4;
    var s2 := Octets(BigEndian(c.cipher, 2)) + s3;
    var s1 := UintElement(c.version) + s2;
    var s0 := UintElement(SESSION_VERSION) + s1;
    CoreNested(c, forTicket, rest);
    UintRead(SESSION_VERSION, s1);
    UintRead(c.version, s2);
    OctetsElementRead(BigEndian(c.cipher, 2), s3);
    OctetsElementRead(id, s4);
    OctetsElementRead(c.masterKey, s5);
    TimeRead(1, c.time, s6);
    TimeRead(2, c.timeout, rest);
    CoreParsed(l, c.version, BigEndian(c.cipher, 2), id, c.masterKey, UintElement(c.time), c.time, UintElement(c.timeout),
               c.timeout, s0, s1, s2, s3, s4, s5, s6, rest);
  }

  lemma SmallVersion(v: nat)
    requires VersionKnown(v)
    ensures v < TWO_64
  {
  }

  lemma CoreNested(c: Core, forTicket: bool, rest: seq<Byte>)
    ensures CoreBytes(c, forTicket) + rest ==
            UintElement(SESSION_VERSION) + (UintElement(c.version) + (Octets(BigEndian(c.cipher, 2)) +
            (Octets(if forTicket then [] else c.id) + (Octets(c.masterKey) +
            (Element(Explicit(1), UintElement(c.time)) + (Element(Explicit(2), UintElement(c.timeout)) + rest))))))
  {
    hide UintElement, Octets, Element, BigEndian;
    var a, b, d := UintElement(SESSION_VERSION), UintElement(c.version), Octets(BigEndian(c.cipher, 2));
    var e, f := Octets(if forTicket then [] else c.id), Octets(c.masterKey);
    var g, h := Element(Explicit(1), UintElement(c.time)), Element(Explicit(2), UintElement(c.timeout));
    Regroup(g, h, rest);
    Regroup(f, g + h, rest);
    Regroup(e, f + (g + h), rest);
    Regroup(d, e + (f + (g + h)), rest);
    Regroup(b, d + (e + (f + (g + h))), rest);
    Regroup(a, b + (d + (e + (f + (g + h)))), rest);
  }

  lemma Regroup(a: seq<Byte>, b: seq<Byte>, c: seq<Byte>)
    ensures (a + b) + c == a + (b + c)
  {
  }

  /** An element read from the start of a longer input is the same element. */
  lemma AnyExtends(s: seq<Byte>, t: seq<Byte>)
    requires GetAny(s).Done?
    ensures GetAny(s + t) == Done(GetAny(s).v.(rest := GetAny(s).v.rest + t))
  {
    hide Value;
    if s[1] >= 0x80 {
      var k := s[1] - 0x80;
      assert (s + t)[2..2 + k] == s[2..2 + k];
      SplitExtends(s, t, 2 + k, Value(s[2..2 + k]));
    } else {
      SplitExtends(s, t, 2, s[1]);
    }
  }

  lemma SplitExtends(s: seq<Byte>, t: seq<Byte>, header: nat, len: nat)
    requires |s| >= header + len && header >= 2
    ensures Split(s + t, header, len) == Done(Split(s, header, len).v.(rest := Split(s, header, len).v.rest + t))
  {
    assert (s + t)[..header + len] == s[..header + len];
    assert (s + t)[header + len..] == s[header + len..] + t;
  }

  lemma {:induction false} ChainRead(certs: seq<seq<Byte>>)
    requires forall i :: 0 <= i < |certs| ==> IsElement(certs[i])
    ensures ParseChain(Concat(certs)) == Done(certs)
    decreases |certs|
  {
    hide GetAny;
    if |certs| > 0 {
      assert IsElement(certs[0]);
      AnyExtends(certs[0], Concat(certs[1..]));
      assert [] + Concat(certs[1..]) == Concat(certs[1..]);
      assert GetAny(certs[0]).v.element + [] == GetAny(certs[0]).v.element;
      ChainRead(certs[1..]);
      assert [certs[0]] + certs[1..] == certs;
    }
  }

  lemma CertsRead(l: Library, s: Session)
    requires ValidCerts(l, s.certs)
    ensures ParseChain(OrEmpty(Chain(s))).Done?
    ensures (if Leaf(s).Some? then [Leaf(s).value] else []) + ParseChain(OrEmpty(Chain(s))).v == Kept(s, false).certs
    ensures l.certs(Kept(s, false).certs) && (Chain(s).Some? ==> Leaf(s).Some?)
  {
    hide IsElement;
    if s.peer.sha256.None? && |s.certs| > 0 {
      var others := s.certs[1..];
      assert s.certs == [s.certs[0]] + others;
      if |s.certs| >= 2 {
        forall i | 0 <= i < |others| ensures IsElement(others[i]) {
          assert others[i] == s.certs[i + 1];
        }
        ChainRead(others);
      }
    }
  }

  lemma BodyRead(l: Library, s: Session, forTicket: bool)
    requires Valid(l, s) && |Body(s, forTicket)| <= MAX_LENGTH
    ensures ParseBody(l, Body(s, forTicket)) == Done(Kept(s, forTicket))
  {
    hide ParseCore, ParseTicket, ParsePeer, ParseMisc, ParseChain, CoreBytes, Encode, TicketFields, PeerFields, MiscFields,
         Leaf, Chain, OrEmpty, Stow, ValidCore, ValidTicket, ValidPeer, ValidMisc, ValidCerts;
    assert Fits(TicketFields(s, forTicket));
    CoreRead(l, s.core, forTicket, Encode(TicketFields(s, forTicket)));
    TicketRead(l, s, forTicket);
    PeerRead(l, s);
    CertsRead(l, s);
    MiscRead(s);
  }

  /** Reading what was written gives the session back, or, from a ticket, the session without its identifier and ticket;
      octets behind it are left alone. */
  lemma RoundTrip(l: Library, s: Session, forTicket: bool, rest: seq<Byte>)
    requires Valid(l, s) && SessionBytes(s, forTicket).Some?
    ensures Parse(l, SessionBytes(s, forTicket).value + rest) == Done((Kept(s, forTicket), rest))
    ensures FromBytes(l, SessionBytes(s, forTicket).value) == Done(Kept(s, forTicket))
  {
    hide ParseBody, GetAsn1, Element, Body, Valid;
    var b := SessionBytes(s, forTicket).value;
    BodyRead(l, s, forTicket);
    ElementRead(SEQUENCE, Body(s, forTicket), rest);
    ElementRead(SEQUENCE, Body(s, forTicket), []);
    assert b + [] == b;
  }

  /** It is the very same session exactly if no certificates are kept beside a hash, no ticket and no protocol is empty,
      and, in a ticket, there was neither an identifier nor a ticket. */
  lemma SameSessionIff(l: Library, s: Session, forTicket: bool)
    requires Valid(l, s) && SessionBytes(s, forTicket).Some?
    ensures FromBytes(l, SessionBytes(s, forTicket).value) == Done(s) <==>
            && (s.peer.sha256.Some? ==> s.certs == [])
            && s.ticket.ticket != Some([]) && s.misc.earlyAlpn != Some([])
            && (forTicket ==> s.core.id == [] && s.ticket.ticket.None?)
  {
    hide Valid, FromBytes, SessionBytes;
    RoundTrip(l, s, forTicket, []);
  }

  const NOT_RESUMABLE: seq<Byte> := [0x4e, 0x4f, 0x54, 0x20, 0x52, 0x45, 0x53, 0x55, 0x4d, 0x41, 0x42, 0x4c, 0x45]

  /** What is written for a session that must not be resumed does not read as one. */
  lemma PlaceholderIsNoSession(l: Library)
    ensures FromBytes(l, NOT_RESUMABLE).Fail?
  {
    hide ParseBody;
  }
}
