/** The 12-octet DTLS handshake header (RFC 6347 section 4.2.2) and the fragments it introduces. */
module HandshakeHeader {
  import opened Bytes

  const HEADER_LENGTH: nat := 12

  datatype Header = Header(msgType: nat, msgLen: nat, seqNum: nat, fragOff: nat, fragLen: nat)

  /** Every field fits the width the wire gives it: u8, u24, u16, u24, u24. */
  predicate Fits(h: Header) {
    && h.msgType < 0x100
    && h.msgLen < 0x100_0000
    && h.seqNum < 0x1_0000
    && h.fragOff < 0x100_0000
    && h.fragLen < 0x100_0000
  }

  function Serialize(h: Header): (s: seq<Byte>)
    ensures |s| == HEADER_LENGTH
  {
    BigEndian(h.msgType, 1) + BigEndian(h.msgLen, 3) + BigEndian(h.seqNum, 2)
    + BigEndian(h.fragOff, 3) + BigEndian(h.fragLen, 3)
  }

  function ParseHeader(s: seq<Byte>): (h: Header)
    requires |s| == HEADER_LENGTH
    ensures Fits(h)
  {
    Pow256Values();
    Header(Value(s[..1]), Value(s[1..4]), Value(s[4..6]), Value(s[6..9]), Value(s[9..12]))
  }

  lemma HeaderRoundTrip(h: Header)
    requires Fits(h)
    ensures ParseHeader(Serialize(h)) == h
  {
    hide BigEndian, Value;
    Pow256Values();
    FiveParts(BigEndian(h.msgType, 1), BigEndian(h.msgLen, 3), BigEndian(h.seqNum, 2), BigEndian(h.fragOff, 3),
              BigEndian(h.fragLen, 3));
    ValueOfBigEndian(h.msgType, 1);
    ValueOfBigEndian(h.msgLen, 3);
    ValueOfBigEndian(h.seqNum, 2);
    ValueOfBigEndian(h.fragOff, 3);
    ValueOfBigEndian(h.fragLen, 3);
  }

  lemma FiveParts(t: seq<Byte>, l: seq<Byte>, n: seq<Byte>, o: seq<Byte>, k: seq<Byte>)
    requires |t| == 1 && |l| == 3 && |n| == 2 && |o| == 3 && |k| == 3
    ensures var s := t + l + n + o + k;
            s[..1] == t && s[1..4] == l && s[4..6] == n && s[6..9] == o && s[9..12] == k
  {
  }

  /** Where each field stands, octet by octet. */
  lemma HeaderLayout(h: Header)
    requires Fits(h)
    ensures var s := Serialize(h);
            && s[0] == h.msgType
            && 0x1_0000 * (s[1] as int) + 0x100 * (s[2] as int) + s[3] == h.msgLen
            && 0x100 * (s[4] as int) + s[5] == h.seqNum
            && 0x1_0000 * (s[6] as int) + 0x100 * (s[7] as int) + s[8] == h.fragOff
            && 0x1_0000 * (s[9] as int) + 0x100 * (s[10] as int) + s[11] == h.fragLen
  {
    hide BigEndian;
    Laid(h.msgType);
    Laid(h.msgLen);
    Laid(h.seqNum);
    Laid(h.fragOff);
    Laid(h.fragLen);
  }

  lemma Laid(v: nat)
    ensures v < 0x100 ==> BigEndian(v, 1)[0] == v
    ensures var s := BigEndian(v, 2); v < 0x1_0000 ==> 0x100 * (s[0] as int) + s[1] == v
    ensures var s := BigEndian(v, 3); v < 0x100_0000 ==> 0x1_0000 * (s[0] as int) + 0x100 * (s[1] as int) + s[2] == v
  {
    hide BigEndian;
    OneOctet(v);
    TwoOctets(v);
    ThreeOctets(v);
    OctetsAddUp(v);
  }

  datatype Fragment = Fragment(hdr: Header, body: seq<Byte>)

  function FragmentBytes(f: Fragment): (s: seq<Byte>)
    ensures |s| == HEADER_LENGTH + |f.body|
  {
    Serialize(f.hdr) + f.body
  }

  /** Reads one fragment off the front of s; None when s is too short for the header or for the body it announces. */
  function ParseFragment(s: seq<Byte>): (r: Option<(Fragment, seq<Byte>)>)
    ensures r.Some? ==> |r.value.1| < |s| && |r.value.0.body| == r.value.0.hdr.fragLen && Fits(r.value.0.hdr)
  {
    if |s| < HEADER_LENGTH then None
    else
      var h := ParseHeader(s[..HEADER_LENGTH]);
      if |s| - HEADER_LENGTH < h.fragLen then None
      else Some((Fragment(h, s[HEADER_LENGTH..HEADER_LENGTH + h.fragLen]), s[HEADER_LENGTH + h.fragLen..]))
  }

  lemma FragmentRoundTrip(f: Fragment, rest: seq<Byte>)
    requires Fits(f.hdr) && f.hdr.fragLen == |f.body|
    ensures ParseFragment(FragmentBytes(f) + rest) == Some((f, rest))
  {
    HeaderRoundTrip(f.hdr);
    var s := FragmentBytes(f) + rest;
    assert s[..HEADER_LENGTH] == Serialize(f.hdr);
    assert s[HEADER_LENGTH..HEADER_LENGTH + |f.body|] == f.body;
    assert s[HEADER_LENGTH + |f.body|..] == rest;
  }

  /** A whole message: the header of a single fragment that covers it, then the body. */
  function RawMessage(msgType: nat, seqNum: nat, body: seq<Byte>): (raw: seq<Byte>)
    ensures |raw| == HEADER_LENGTH + |body|
  {
    FragmentBytes(Fragment(Header(msgType, |body|, seqNum, 0, |body|), body))
  }
}
