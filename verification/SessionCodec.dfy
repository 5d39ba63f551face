/** Sessions written field by field to a builder, and read field by field with a cursor. */
module SessionCodec {
  import opened Bytes
  import opened Der
  import opened SessionDer

  // Writing.

  lemma OneMore(out: seq<Byte>, fields: Fields)
    requires fields.Cons?
    ensures out + Encode(fields) == (out + Put(fields.number, fields.content)) + Encode(fields.tail)
  {
    hide Put;
  }

  /** Octets under construction; the fields still to come make them whole. */
  class Builder {
    var out: seq<Byte>
    ghost var pending: Fields
    ghost const whole: seq<Byte>

    ghost predicate Valid()
      reads this
    {
      out + Encode(pending) == whole
    }

    constructor (start: seq<Byte>, ghost fields: Fields)
      ensures Valid() && pending == fields && whole == start + Encode(fields)
    {
      out, pending, whole := start, fields, start + Encode(fields);
    }

    method Add(number: TagNumber, content: seq<Byte>)
      requires Valid() && pending.Cons? && pending.number == number && pending.content == Some(content)
      modifies this
      ensures Valid() && pending == old(pending).tail
    {
      hide Encode, Element;
      OneMore(out, pending);
      out := out + Element(Explicit(number), content);
      pending := pending.tail;
    }

    /** The next field is left out. */
    ghost method Skip()
      requires Valid() && pending.Cons? && pending.content.None?
      modifies this`pending
      ensures Valid() && pending == old(pending).tail
    {
      hide Encode;
      OneMore(out, pending);
      assert out + [] == out;
      pending := pending.tail;
    }

    method AddOctets(number: TagNumber, b: Option<seq<Byte>>)
      requires Valid() && pending.Cons? && pending.number == number && pending.content == OctetsOf(b)
      modifies this
      ensures Valid() && pending == old(pending).tail
    {
      hide Encode, Element;
      if b.Some? {
        Add(number, Octets(b.value));
      } else {
        Skip();
      }
    }

    method AddUint(number: TagNumber, v: nat, default: nat)
      requires Valid() && pending.Cons? && pending.number == number && pending.content == Unless(v, default)
      modifies this
      ensures Valid() && pending == old(pending).tail
    {
      hide Encode, UintElement;
      if v != default {
        Add(number, UintElement(v));
      } else {
        Skip();
      }
    }
  }

  method JoinChain(certs: seq<seq<Byte>>) returns (body: seq<Byte>)
    requires |certs| >= 1
    ensures body == Concat(certs[1..])
  {
    body := [];
    var i := 1;
    while i < |certs|
      invariant 1 <= i <= |certs| && body + Concat(certs[i..]) == Concat(certs[1..])
    {
      assert certs[i..][1..] == certs[i + 1..];
      assert (body + certs[i]) + Concat(certs[i + 1..]) == body + (certs[i] + Concat(certs[i + 1..]));
      body := body + certs[i];
      i := i + 1;
    }
    assert certs[i..] == [] && body + [] == body;
  }

  method WriteTicket(b: Builder, s: Session, forTicket: bool)
    requires b.Valid() && b.pending == TicketFields(s, forTicket)
    modifies b
    ensures b.Valid() && b.pending == PeerFields(s)
  {
    hide Encode, UintElement, Octets, PeerFields, Unless, OctetsOf;
    if |s.certs| > 0 && s.peer.sha256.None? {
      b.Add(3, s.certs[0]);
    } else {
      b.Skip();
    }
    b.Add(4, Octets(s.ticket.context));
    b.AddUint(5, s.ticket.verifyResult, 0);
    b.AddOctets(8, s.ticket.pskIdentity);
    b.AddUint(9, s.ticket.lifetimeHint, 0);
    if forTicket {
      b.Skip();
    } else {
      b.AddOctets(10, s.ticket.ticket);
    }
  }

  method WritePeer(b: Builder, s: Session)
    requires b.Valid() && b.pending == PeerFields(s)
    modifies b
    ensures b.Valid() && b.pending == MiscFields(s)
  {
    hide Encode, UintElement, Octets, MiscFields, Unless, OctetsOf, Boolean;
    b.AddOctets(13, s.peer.sha256);
    if |s.peer.handshakeHash| > 0 {
      b.Add(14, Octets(s.peer.handshakeHash));
    } else {
      b.Skip();
    }
    b.AddOctets(15, s.peer.timestamps);
    b.AddOctets(16, s.peer.ocsp);
    if s.peer.extendedMasterSecret {
      b.Add(17, Boolean(true));
    } else {
      b.Skip();
    }
    b.AddUint(18, s.peer.group, 0);
    if |s.certs| >= 2 && s.peer.sha256.None? {
      var chain := JoinChain(s.certs);
      b.Add(19, chain);
    } else {
      b.Skip();
    }
  }

  method WriteMisc(b: Builder, s: Session)
    requires b.Valid() && b.pending == MiscFields(s)
    modifies b
    ensures b.Valid() && b.pending == Nil
  {
    hide Encode, UintElement, Octets, Unless, OctetsOf, Boolean, BigEndian;
    if s.misc.ageAdd.Some? {
      b.Add(21, Octets(BigEndian(s.misc.ageAdd.value, 4)));
    } else {
      b.Skip();
    }
    if !s.misc.isServer {
      b.Add(22, Boolean(false));
    } else {
      b.Skip();
    }
    b.AddUint(23, s.misc.signatureAlgorithm, 0);
    b.AddUint(24, s.misc.maxEarlyData, 0);
    b.AddUint(25, s.misc.authTimeout, s.core.timeout);
    b.AddOctets(26, s.misc.earlyAlpn);
  }

  method ToBytes(s: Session, forTicket: bool) returns (r: Option<seq<Byte>>)
    ensures r == SessionBytes(s, forTicket)
  {
    hide Encode, CoreBytes, TicketFields, PeerFields, MiscFields, Element;
    var b := new Builder(CoreBytes(s.core, forTicket), TicketFields(s, forTicket));
    WriteTicket(b, s, forTicket);
    WritePeer(b, s);
    WriteMisc(b, s);
    assert b.out == b.whole by { NothingPending(b.out); }
    if |b.out| > MAX_LENGTH {
      return None;
    }
    return Some(Element(SEQUENCE, b.out));
  }

  lemma NothingPending(out: seq<Byte>)
    ensures out + Encode(Nil) == out
  {
  }

  // Reading.

  /** What reading something from a cursor amounts to: its value and what is left, or an error. */
  ghost predicate Took<T>(expected: Res<(T, seq<Byte>)>, r: Res<T>, left: seq<Byte>) {
    if expected.Fail? then r.Fail? else r == Done(expected.v.0) && left == expected.v.1
  }

  class Cursor {
    var left: seq<Byte>

    constructor (s: seq<Byte>)
      ensures left == s
    {
      left := s;
    }

    method GetAsn1(tag: Byte) returns (r: Res<seq<Byte>>)
      modifies this
      ensures Took(Der.GetAsn1(old(left), tag), r, left)
    {
      hide GetAny;
      var a := GetAny(left);
      if a.Fail? || a.v.tag != tag {
        return Fail;
      }
      left := a.v.rest;
      return Done(a.v.element[a.v.header..]);
    }

    method GetUint64() returns (r: Res<nat>)
      modifies this
      ensures Took(Der.GetUint64(old(left)), r, left)
    {
      hide Der.GetAsn1, Value;
      var data :- GetAsn1(INTEGER);
      if |data| == 0 || data[0] >= 0x80 || (data[0] == 0 && |data| > 1 && data[1] < 0x80) {
        return Fail;
      }
      if Value(data) >= TWO_64 {
        return Fail;
      }
      return Done(Value(data));
    }

    method GetOptional(tag: Byte) returns (r: Res<Option<seq<Byte>>>)
      modifies this
      ensures Took(Der.GetOptional(old(left), tag), r, left)
    {
      hide Der.GetAsn1;
      if |left| > 0 && left[0] == tag {
        var body :- GetAsn1(tag);
        return Done(Some(body));
      }
      return Done(None);
    }

    method OptOctets(number: TagNumber) returns (r: Res<Option<seq<Byte>>>)
      modifies this
      ensures Took(SessionDer.OptOctets(old(left), number), r, left)
    {
      hide Der.GetOptional, Only;
      var f :- GetOptional(Explicit(number));
      if f.None? {
        return Done(None);
      }
      var b :- Only(f.value, OCTET_STRING);
      return Done(Some(b));
    }

    method OptUint(number: TagNumber, default: nat, most: nat) returns (r: Res<nat>)
      modifies this
      ensures Took(SessionDer.OptUint(old(left), number, default, most), r, left)
    {
      hide Der.GetOptional, Der.GetUint64;
      var f :- GetOptional(Explicit(number));
      if f.None? {
        return Done(default);
      }
      var child := new Cursor(f.value);
      var v :- child.GetUint64();
      if |child.left| > 0 || v > most {
        return Fail;
      }
      return Done(v);
    }

    method OptBool(number: TagNumber, default: bool) returns (r: Res<bool>)
      modifies this
      ensures Took(SessionDer.OptBool(old(left), number, default), r, left)
    {
      hide Der.GetOptional, Only;
      var f :- GetOptional(Explicit(number));
      if f.None? {
        return Done(default);
      }
      var b :- Only(f.value, BOOLEAN);
      if b == [0] {
        return Done(false);
      }
      return if b == [0xff] then Done(true) else Fail;
    }
  }

  /** The certificates of a chain, one element after another. */
  method ReadChain(s: seq<Byte>) returns (r: Res<seq<seq<Byte>>>)
    ensures r == ParseChain(s)
  {
    hide GetAny;
    var certs: seq<seq<Byte>>, left := [], s;
    assert ParseChain(s).Done? ==> certs + ParseChain(s).v == ParseChain(s).v;
    while |left| > 0
      invariant ParseChain(s) == (var p := ParseChain(left); if p.Fail? then Fail else Done(certs + p.v))
      decreases |left|
    {
      var a := GetAny(left);
      if a.Fail? {
        return Fail;
      }
      ghost var p := ParseChain(a.v.rest);
      assert p.Done? ==> certs + ([a.v.element] + p.v) == (certs + [a.v.element]) + p.v;
      certs := certs + [a.v.element];
      left := a.v.rest;
    }
    assert certs + [] == certs;
    return Done(certs);
  }

  method ReadCore(l: Library, c: Cursor) returns (r: Res<Core>)
    modifies c
    ensures Took(ParseCore(l, old(c.left)), r, c.left)
  {
    hide Der.GetAsn1, Der.GetUint64, Value, VersionKnown;
    var structure :- c.GetUint64();
    var version :- c.GetUint64();
    var cipher :- c.GetAsn1(OCTET_STRING);
    var id :- c.GetAsn1(OCTET_STRING);
    var masterKey :- c.GetAsn1(OCTET_STRING);
    var t :- c.GetAsn1(Explicit(1));
    var timeCursor := new Cursor(t);
    var time :- timeCursor.GetUint64();
    var u :- c.GetAsn1(Explicit(2));
    var timeoutCursor := new Cursor(u);
    var timeout :- timeoutCursor.GetUint64();
    if structure != SESSION_VERSION || !VersionKnown(version) || |cipher| != 2 || !l.cipher(Value(cipher)) ||
      |id| > MAX_ID || |masterKey| > MAX_MASTER_KEY || timeout > U32
    {
      return Fail;
    }
    return Done(Core(version, Value(cipher), id, masterKey, time, timeout));
  }

  method ReadTicket(c: Cursor) returns (r: Res<(Option<seq<Byte>>, Ticket)>)
    modifies c
    ensures var e := ParseTicket(old(c.left));
            if e.Fail? then r.Fail? else r == Done((e.v.0, e.v.1)) && c.left == e.v.2
  {
    hide Der.GetOptional, SessionDer.OptOctets, SessionDer.OptUint, OrEmpty, Stow;
    var leaf :- c.GetOptional(Explicit(3));
    var context :- c.OptOctets(4);
    var verifyResult :- c.OptUint(5, 0, LONG_MAX);
    var _ :- c.GetOptional(Explicit(6));
    var psk :- c.OptOctets(8);
    var hint :- c.OptUint(9, 0, U32);
    var ticket :- c.OptOctets(10);
    if leaf == Some([]) || |OrEmpty(context)| > MAX_CONTEXT || 0 in OrEmpty(psk) {
      return Fail;
    }
    return Done((leaf, Ticket(OrEmpty(context), verifyResult, psk, hint, Stow(ticket))));
  }

  method ReadPeer(c: Cursor) returns (r: Res<(Peer, Option<seq<Byte>>)>)
    modifies c
    ensures var e := ParsePeer(old(c.left));
            if e.Fail? then r.Fail? else r == Done((e.v.0, e.v.1)) && c.left == e.v.2
  {
    hide Der.GetOptional, SessionDer.OptOctets, SessionDer.OptUint, SessionDer.OptBool, OrEmpty;
    var sha :- c.OptOctets(13);
    var digest :- c.OptOctets(14);
    var timestamps :- c.OptOctets(15);
    var ocsp :- c.OptOctets(16);
    var ems :- c.OptBool(17, false);
    var group :- c.OptUint(18, 0, U16);
    var chain :- c.GetOptional(Explicit(19));
    if (sha.Some? && |sha.value| != SHA256_LENGTH) || |OrEmpty(digest)| > MAX_DIGEST || chain == Some([]) {
      return Fail;
    }
    return Done((Peer(sha, OrEmpty(digest), timestamps, ocsp, ems, group), chain));
  }

  method ReadMisc(c: Cursor, timeout: nat) returns (r: Res<Misc>)
    modifies c
    ensures Took(ParseMisc(old(c.left), timeout), r, c.left)
  {
    hide SessionDer.OptOctets, SessionDer.OptUint, SessionDer.OptBool, Stow, Value;
    var age :- c.OptOctets(21);
    var isServer :- c.OptBool(22, true);
    var signature :- c.OptUint(23, 0, U16);
    var early :- c.OptUint(24, 0, U32);
    var authTimeout :- c.OptUint(25, timeout, U32);
    var alpn :- c.OptOctets(26);
    if age.Some? && |age.value| != 4 {
      return Fail;
    }
    return Done(Misc(if age.None? then None else Some(Value(age.value)), isServer, signature, early, authTimeout,
                     Stow(alpn)));
  }

  /** Reads a session; c is left behind it. */
  method ReadSession(l: Library, c: Cursor) returns (r: Res<Session>)
    modifies c
    ensures Took(Parse(l, old(c.left)), r, c.left)
  {
    hide Der.GetAsn1, ParseCore, ParseTicket, ParsePeer, ParseMisc, ParseChain, OrEmpty;
    var body :- c.GetAsn1(SEQUENCE);
    var inner := new Cursor(body);
    var core :- ReadCore(l, inner);
    var ticket :- ReadTicket(inner);
    var peer :- ReadPeer(inner);
    if peer.1.Some? && ticket.0.None? {
      return Fail;
    }
    var chain :- ReadChain(OrEmpty(peer.1));
    var certs := (if ticket.0.Some? then [ticket.0.value] else []) + chain;
    var misc :- ReadMisc(inner, core.timeout);
    if !l.certs(certs) || |inner.left| > 0 {
      return Fail;
    }
    return Done(Session(core, certs, ticket.1, peer.0, misc));
  }
}
