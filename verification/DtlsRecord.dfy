/** The DTLS record layer (RFC 6347 section 4.1): sealing and opening single records. The cipher is a parameter; all that
    is known of it is that opening undoes sealing and that sealing adds at most its stated overhead. */
module DtlsRecord {
  import opened Bytes

  const RECORD_HEADER_LENGTH: nat := 13
  const MAX_PLAIN_LENGTH: nat := 16384
  const MAX_ENCRYPTED_LENGTH: nat := 16384 + 256 + 64
  const CHANGE_CIPHER_SPEC: Byte := 20
  const ALERT: Byte := 21
  const HANDSHAKE: Byte := 22
  const APPLICATION_DATA: Byte := 23
  const CCS_BODY: seq<Byte> := [1]

  /** A cipher in one direction. seal and open take the content type, the record version, the 8-octet sequence
      number and the text. */
  datatype Aead = Aead(
    isNull: bool,
    recordVersion: nat,
    nonceLen: nat,
    maxOverhead: nat,
    seal: (Byte, nat, seq<Byte>, seq<Byte>) -> seq<Byte>,
    open: (Byte, nat, seq<Byte>, seq<Byte>) -> Option<seq<Byte>>)

  ghost predicate Sound(a: Aead) {
    && a.recordVersion < 0x1_0000
    && a.nonceLen <= a.maxOverhead
    && forall t: Byte, v: nat, n: seq<Byte>, p: seq<Byte> ::
         |a.seal(t, v, n, p)| <= |p| + a.maxOverhead && a.open(t, v, n, a.seal(t, v, n, p)) == Some(p)
  }

  /** One record as it stands on the wire. */
  datatype Record = Record(contentType: Byte, version: nat, sequence: seq<Byte>, payload: seq<Byte>)

  predicate FitsWire(r: Record) {
    r.version < 0x1_0000 && |r.sequence| == 8 && |r.payload| < 0x1_0000
  }

  function Epoch(r: Record): (e: nat)
    requires |r.sequence| == 8
  {
    Value(r.sequence[..2])
  }

  function Sequence(epoch: nat, number: nat): (s: seq<Byte>)
    ensures |s| == 8
  {
    BigEndian(epoch, 2) + BigEndian(number, 6)
  }

  function RecordBytes(r: Record): (s: seq<Byte>)
    requires FitsWire(r)
    ensures |s| == RECORD_HEADER_LENGTH + |r.payload|
  {
    [r.contentType] + BigEndian(r.version, 2) + r.sequence + BigEndian(|r.payload|, 2) + r.payload
  }

  /** Reads one record off the front of a packet; None when the header or the announced body is cut short, or the body
      is longer than any record may be. */
  function ParseRecord(s: seq<Byte>): (r: Option<(Record, seq<Byte>)>)
    ensures r.Some? ==> FitsWire(r.value.0) && |r.value.1| + |RecordBytes(r.value.0)| == |s|
  {
    if |s| < RECORD_HEADER_LENGTH then None
    else
      var len := Value(s[11..13]);
      Pow256Values();
      if |s| - RECORD_HEADER_LENGTH < len || len > MAX_ENCRYPTED_LENGTH then None
      else Some((Record(s[0], Value(s[1..3]), s[3..11], s[13..13 + len]), s[13 + len..]))
  }

  lemma RecordRoundTrip(r: Record, rest: seq<Byte>)
    requires FitsWire(r) && |r.payload| <= MAX_ENCRYPTED_LENGTH
    ensures ParseRecord(RecordBytes(r) + rest) == Some((r, rest))
  {
    Pow256Values();
    var s := RecordBytes(r) + rest;
    assert s[1..3] == BigEndian(r.version, 2);
    assert s[3..11] == r.sequence;
    assert s[11..13] == BigEndian(|r.payload|, 2);
    assert s[13..13 + |r.payload|] == r.payload;
    assert s[13 + |r.payload|..] == rest;
    ValueOfBigEndian(r.version, 2);
    ValueOfBigEndian(|r.payload|, 2);
  }

  /** Where each field stands, octet by octet. */
  lemma RecordLayout(r: Record)
    requires FitsWire(r)
    ensures var s := RecordBytes(r);
            && s[0] == r.contentType
            && 0x100 * (s[1] as int) + s[2] == r.version
            && s[3..11] == r.sequence
            && 0x100 * (s[11] as int) + s[12] == |r.payload|
            && s[13..] == r.payload
  {
    hide BigEndian;
    TwoOctets(r.version);
    TwoOctets(|r.payload|);
    OctetsAddUp(r.version);
    OctetsAddUp(|r.payload|);
  }

  /** Records never collide: two records with the same octets are the same record. */
  lemma SequenceInjective(e1: nat, n1: nat, e2: nat, n2: nat)
    requires e1 < 0x1_0000 && e2 < 0x1_0000 && n1 < 0x1_0000_0000_0000 && n2 < 0x1_0000_0000_0000
    requires Sequence(e1, n1) == Sequence(e2, n2)
    ensures e1 == e2 && n1 == n2
  {
    Pow256Values();
    assert Sequence(e1, n1)[..2] == BigEndian(e1, 2) && Sequence(e2, n2)[..2] == BigEndian(e2, 2);
    assert Sequence(e1, n1)[2..] == BigEndian(n1, 6) && Sequence(e2, n2)[2..] == BigEndian(n2, 6);
    ValueOfBigEndian(e1, 2);
    ValueOfBigEndian(e2, 2);
    ValueOfBigEndian(n1, 6);
    ValueOfBigEndian(n2, 6);
  }

  lemma EpochOfSequence(epoch: nat, number: nat)
    requires epoch < 0x1_0000
    ensures Value(Sequence(epoch, number)[..2]) == epoch
  {
    Pow256Values();
    assert Sequence(epoch, number)[..2] == BigEndian(epoch, 2);
    ValueOfBigEndian(epoch, 2);
  }
}
