/** The part of DER that sessions are written in: elements with single-octet tags and minimal lengths, octet strings,
    booleans and unsigned 64-bit integers (ITU-T X.690, sections 8.1 and 10.1). */
module Der {
  import opened Bytes

  /** A parsed value, or a parsing error. */
  datatype Res<+T> = Fail | Done(v: T) {
    predicate IsFailure() {
      Fail?
    }

    function PropagateFailure<U>(): Res<U>
      requires Fail?
    {
      Fail
    }

    function Extract(): T
      requires Done?
    {
      v
    }
  }

  const BOOLEAN: Byte := 1
  const INTEGER: Byte := 2
  const OCTET_STRING: Byte := 4
  const SEQUENCE: Byte := 0x30

  type TagNumber = n: nat | n <= 30

  /** The tag of an explicitly tagged field. */
  function Explicit(number: TagNumber): (t: Byte) {
    0xa0 + number
  }

  // No element can be longer.
  const MAX_LENGTH: nat := 0xffff_fffe

  // Writing.

  function LengthSize(n: nat): (k: nat)
    requires n > 0x7f
    ensures 1 <= k <= 4
  {
    if n <= 0xff then 1 else if n <= 0xffff then 2 else if n <= 0xff_ffff then 3 else 4
  }

  function LengthBytes(n: nat): (s: seq<Byte>)
    ensures 1 <= |s| <= 5
  {
    if n <= 0x7f then [n] else [0x80 + LengthSize(n)] + BigEndian(n, LengthSize(n))
  }

  function Element(tag: Byte, body: seq<Byte>): (s: seq<Byte>)
    ensures |s| > |body| && s[0] == tag
  {
    [tag] + LengthBytes(|body|) + body
  }

  /** The octets of a number, most significant first, without leading zeros but with a clear top bit. */
  function UintBytes(v: nat): (s: seq<Byte>)
    ensures |s| > 0 && s[0] < 0x80
  {
    if v < 0x80 then [v] else UintBytes(v / 256) + [v % 256]
  }

  function UintElement(v: nat): seq<Byte> {
    Element(INTEGER, UintBytes(v))
  }

  // Reading.

  /** The tag, header length and whole element at the start of the input, and what follows. */
  datatype Any = Any(tag: Byte, header: nat, element: seq<Byte>, rest: seq<Byte>)

  function GetAny(s: seq<Byte>): (r: Res<Any>)
    ensures r.Done? ==> 2 <= r.v.header <= |r.v.element| && s == r.v.element + r.v.rest
  {
    if |s| < 2 || s[0] % 32 == 31 then Fail
    else
      var lengthByte := s[1];
      if lengthByte < 0x80 then Split(s, 2, lengthByte)
      else
        var k := lengthByte - 0x80;
        if k == 0 || k > 4 || |s| < 2 + k then Fail
        else
          var len := Value(s[2..2 + k]);
          if len < 0x80 || s[2] == 0 then Fail else Split(s, 2 + k, len)
  }

  function Split(s: seq<Byte>, header: nat, len: nat): (r: Res<Any>)
    requires |s| >= 1 && header >= 2
    ensures r.Done? ==> 2 <= r.v.header <= |r.v.element| && s == r.v.element + r.v.rest
  {
    if |s| < header + len then Fail
    else Done(Any(s[0], header, s[..header + len], s[header + len..]))
  }

  /** The body of an element with the given tag, and what follows. */
  function GetAsn1(s: seq<Byte>, tag: Byte): (r: Res<(seq<Byte>, seq<Byte>)>)
    ensures r.Done? ==> |r.v.0| + |r.v.1| < |s|
  {
    var a := GetAny(s);
    if a.Fail? || a.v.tag != tag then Fail
    else Done((a.v.element[a.v.header..], a.v.rest))
  }

  /** The same, if the input starts with the tag. */
  function GetOptional(s: seq<Byte>, tag: Byte): (r: Res<(Option<seq<Byte>>, seq<Byte>)>) {
    if |s| > 0 && s[0] == tag then
      var p := GetAsn1(s, tag);
      if p.Fail? then Fail else Done((Some(p.v.0), p.v.1))
    else Done((None, s))
  }

  function GetUint64(s: seq<Byte>): (r: Res<(nat, seq<Byte>)>) {
    var p := GetAsn1(s, INTEGER);
    if p.Fail? then Fail
    else
      var data := p.v.0;
      if |data| == 0 || data[0] >= 0x80 || (data[0] == 0 && |data| > 1 && data[1] < 0x80) then Fail
      else if Value(data) >= 0x1_0000_0000_0000_0000 then Fail
      else Done((Value(data), p.v.1))
  }

  /** A body that is one element and nothing else. */
  function Only(s: seq<Byte>, tag: Byte): (r: Res<seq<Byte>>) {
    var p := GetAsn1(s, tag);
    if p.Fail? || |p.v.1| > 0 then Fail else Done(p.v.0)
  }

  // Round trips.

  lemma ElementParts(tag: Byte, body: seq<Byte>, rest: seq<Byte>)
    ensures var l := LengthBytes(|body|); var s := Element(tag, body) + rest;
            && s[0] == tag && s[1..1 + |l|] == l
            && s[..1 + |l| + |body|] == Element(tag, body)
            && Element(tag, body)[1 + |l|..] == body && s[1 + |l| + |body|..] == rest
  {
    hide LengthBytes;
  }

  lemma LengthMeaning(n: nat)
    requires 0x7f < n <= MAX_LENGTH
    ensures var k := LengthSize(n); var b := BigEndian(n, k);
            |b| == k && Value(b) == n && b[0] != 0
  {
    hide Value;
    Pow256Small();
    var k := LengthSize(n);
    ValueOfBigEndian(n, k);
    FirstOctet(n, k);
  }

  lemma Pow256Small()
    ensures Pow256(0) == 1 && Pow256(1) == 0x100 && Pow256(2) == 0x1_0000 && Pow256(3) == 0x100_0000
    ensures Pow256(4) == 0x1_0000_0000
  {
    Pow256Values();
    assert Pow256(4) == 256 * Pow256(3);
  }

  lemma FirstOctet(n: nat, k: nat)
    requires k > 0 && Pow256(k - 1) <= n < Pow256(k)
    ensures BigEndian(n, k)[0] != 0
  {
  }

  /** An element read back: the whole of it, its body, and what follows. */
  lemma AnyElement(tag: Byte, body: seq<Byte>, rest: seq<Byte>)
    requires tag % 32 != 31 && |body| <= MAX_LENGTH
    ensures var l := |LengthBytes(|body|)|;
            GetAny(Element(tag, body) + rest) == Done(Any(tag, 1 + l, Element(tag, body), rest))
  {
    hide BigEndian, Value, Element;
    var s, l := Element(tag, body) + rest, LengthBytes(|body|);
    ElementParts(tag, body, rest);
    assert s[1] == s[1..1 + |l|][0] == l[0];
    if |body| > 0x7f {
      var k := LengthSize(|body|);
      LengthMeaning(|body|);
      assert s[2..2 + k] == s[1..1 + |l|][1..] == BigEndian(|body|, k);
      assert s[2] == s[2..2 + k][0];
    }
  }

  lemma ElementRead(tag: Byte, body: seq<Byte>, rest: seq<Byte>)
    requires tag % 32 != 31 && |body| <= MAX_LENGTH
    ensures GetAsn1(Element(tag, body) + rest, tag) == Done((body, rest))
  {
    hide GetAny, LengthBytes, Element;
    AnyElement(tag, body, rest);
    ElementParts(tag, body, rest);
  }

  lemma OnlyRead(tag: Byte, body: seq<Byte>)
    requires tag % 32 != 31 && |body| <= MAX_LENGTH
    ensures Only(Element(tag, body), tag) == Done(body)
  {
    hide GetAsn1, Element;
    ElementRead(tag, body, []);
    assert Element(tag, body) + [] == Element(tag, body);
  }

  lemma {:induction false} UintBytesMeaning(v: nat)
    ensures var s := UintBytes(v); Value(s) == v && (s[0] == 0 && |s| > 1 ==> s[1] >= 0x80)
    decreases v
  {
    if v < 0x80 {
      assert [v][..0] == [] && Value([]) == 0;
    } else {
      UintBytesMeaning(v / 256);
      var front := UintBytes(v / 256);
      assert UintBytes(v)[..|front|] == front;
    }
  }

  lemma {:induction false} UintBytesSize(v: nat, k: nat)
    requires v < Pow256(k)
    ensures |UintBytes(v)| <= k + 1
    decreases k
  {
    if v >= 0x80 {
      UintBytesSize(v / 256, k - 1);
    }
  }

  const TWO_64: nat := 0x1_0000_0000_0000_0000

  lemma UintRead(v: nat, rest: seq<Byte>)
    requires v < TWO_64
    ensures GetUint64(UintElement(v) + rest) == Done((v, rest))
  {
    hide GetAsn1, UintBytes, Value, Element, Pow256;
    UintBytesMeaning(v);
    UintShort(v);
    ElementRead(INTEGER, UintBytes(v), rest);
  }

  lemma UintShort(v: nat)
    requires v < TWO_64
    ensures |UintBytes(v)| <= 9
  {
    assert Pow256(8) == TWO_64 by {
      Pow256Values();
      assert Pow256(8) == 256 * (256 * Pow256(6));
    }
    UintBytesSize(v, 8);
  }
}
