/** Reassembly of one incoming DTLS handshake message from fragments that may arrive in any order,
    overlap and repeat: the message buffer and its bitmap of the octets received so far. */
module Reassembly {
  import opened Bytes

  // Bits of one bitmap octet.

  predicate Bit(b: bv8, k: nat)
    requires k < 8
  {
    b & Mask(k) != 0
  }

  function Mask(k: nat): bv8
    requires k < 8
  {
    if k == 0 then 0x01 else if k == 1 then 0x02 else if k == 2 then 0x04 else if k == 3 then 0x08
    else if k == 4 then 0x10 else if k == 5 then 0x20 else if k == 6 then 0x40 else 0x80
  }

  /** An octet with bits start, inclusive, to end, exclusive, set. */
  function BitRange(start: nat, end: nat): (b: bv8)
    requires start <= 8 && end <= 8
  {
    ((!(((1 as bv32) << start) - 1) & (((1 as bv32) << end) - 1)) & 0xff) as bv8
  }

  lemma BitRangeBits(start: nat, end: nat, k: nat)
    requires start <= 8 && end <= 8 && k < 8
    ensures Bit(BitRange(start, end), k) <==> start <= k < end
  {
  }

  lemma OrBits(a: bv8, b: bv8, k: nat)
    requires k < 8
    ensures Bit(a | b, k) <==> Bit(a, k) || Bit(b, k)
  {
  }

  lemma SameOctet(a: bv8, b: bv8)
    requires forall k :: 0 <= k < 8 ==> Bit(a, k) == Bit(b, k)
    ensures a == b
  {
    assert Bit(a, 0) == Bit(b, 0) && Bit(a, 1) == Bit(b, 1) && Bit(a, 2) == Bit(b, 2) && Bit(a, 3) == Bit(b, 3);
    assert Bit(a, 4) == Bit(b, 4) && Bit(a, 5) == Bit(b, 5) && Bit(a, 6) == Bit(b, 6) && Bit(a, 7) == Bit(b, 7);
  }

  /** An octet with no bit at or above m that is not the full range [0, m) lacks a bit below m. */
  lemma MissingBit(b: bv8, m: nat) returns (k: nat)
    requires m <= 8 && b != BitRange(0, m)
    requires forall i :: m <= i < 8 ==> !Bit(b, i)
    ensures k < m && !Bit(b, k)
  {
    if i :| 0 <= i < m && !Bit(b, i) {
      return i;
    }
    forall i | 0 <= i < 8
      ensures Bit(b, i) == Bit(BitRange(0, m), i)
    {
      BitRangeBits(0, m, i);
    }
    SameOctet(b, BitRange(0, m));
    assert false;
  }

  // Bits of a whole bitmap.

  /** Whether octet j of the message is marked. */
  predicate Marked(map_: seq<bv8>, j: nat)
    requires j < 8 * |map_|
  {
    Bit(map_[j / 8], j % 8)
  }

  lemma OrRange(b: bv8, lo: nat, hi: nat, k: nat)
    requires lo <= 8 && hi <= 8 && k < 8
    ensures Bit(b | BitRange(lo, hi), k) <==> Bit(b, k) || lo <= k < hi
  {
    OrBits(b, BitRange(lo, hi), k);
    BitRangeBits(lo, hi, k);
  }

  lemma AllOnes(k: nat)
    requires k < 8
    ensures Bit(0xff, k)
  {
  }

  /** A range that spans several octets: a partial first octet, whole octets, a partial last one. */
  lemma SpanMarks(before: seq<bv8>, after: seq<bv8>, start: nat, end: nat)
    requires |before| == |after|
    requires start / 8 < end / 8 && end <= 8 * |before|
    requires after[start / 8] == before[start / 8] | BitRange(start % 8, 8)
    requires forall x :: start / 8 < x < end / 8 ==> after[x] == 0xff
    requires end % 8 != 0 ==> after[end / 8] == before[end / 8] | BitRange(0, end % 8)
    requires end % 8 == 0 && end / 8 < |before| ==> after[end / 8] == before[end / 8]
    requires forall x :: 0 <= x < start / 8 || end / 8 < x < |before| ==> after[x] == before[x]
    ensures forall j :: 0 <= j < 8 * |before| ==> (Marked(after, j) <==> Marked(before, j) || start <= j < end)
  {
    forall j | 0 <= j < 8 * |before|
      ensures Marked(after, j) <==> Marked(before, j) || start <= j < end
    {
      var x, k := j / 8, j % 8;
      if x == start / 8 {
        OrRange(before[x], start % 8, 8, k);
      } else if start / 8 < x < end / 8 {
        AllOnes(k);
      } else if x == end / 8 && end % 8 != 0 {
        OrRange(before[x], 0, end % 8, k);
      }
    }
  }

  /** A range inside one octet. */
  lemma OneOctetMarks(before: seq<bv8>, after: seq<bv8>, start: nat, end: nat)
    requires start <= end < 8 * |before| && start / 8 == end / 8
    requires after == before[start / 8 := before[start / 8] | BitRange(start % 8, end % 8)]
    ensures forall j :: 0 <= j < 8 * |before| ==> (Marked(after, j) <==> Marked(before, j) || start <= j < end)
  {
    forall j | 0 <= j < 8 * |before| && j / 8 == start / 8
      ensures Marked(after, j) <==> Marked(before, j) || start <= j < end
    {
      OrRange(before[j / 8], start % 8, end % 8, j % 8);
    }
  }

  /** Sets bits start, inclusive, to end, exclusive, of a bitmap in place. */
  method SetRange(map_: array<bv8>, start: nat, end: nat)
    requires start < end <= 8 * map_.Length
    modifies map_
    ensures forall j :: 0 <= j < 8 * map_.Length ==>
                          (Marked(map_[..], j) <==> Marked(old(map_[..]), j) || start <= j < end)
  {
    ghost var before := map_[..];
    if start / 8 == end / 8 {
      map_[start / 8] := map_[start / 8] | BitRange(start % 8, end % 8);
      assert map_[..] == before[start / 8 := before[start / 8] | BitRange(start % 8, end % 8)];
      OneOctetMarks(before, map_[..], start, end);
    } else {
      map_[start / 8] := map_[start / 8] | BitRange(start % 8, 8);
      var i := start / 8 + 1;
      while i < end / 8
        invariant start / 8 < i <= end / 8
        invariant map_[start / 8] == before[start / 8] | BitRange(start % 8, 8)
        invariant forall x :: start / 8 < x < i ==> map_[x] == 0xff
        invariant forall x :: 0 <= x < start / 8 || i <= x < map_.Length ==> map_[x] == before[x]
      {
        map_[i] := 0xff;
        i := i + 1;
      }
      if end % 8 != 0 {
        map_[end / 8] := map_[end / 8] | BitRange(0, end % 8);
      }
      SpanMarks(before, map_[..], start, end);
    }
  }

  /** Whether every octet of a message of the given length is marked, as the source tests it octet by octet. */
  method AllSet(map_: array<bv8>, msgLen: nat) returns (all: bool)
    requires map_.Length == (msgLen + 7) / 8
    requires forall j :: msgLen <= j < 8 * map_.Length ==> !Marked(map_[..], j)
    ensures all <==> forall j :: 0 <= j < msgLen ==> Marked(map_[..], j)
  {
    var i := 0;
    while i < msgLen / 8
      invariant 0 <= i <= msgLen / 8
      invariant forall x :: 0 <= x < i ==> map_[x] == 0xff
    {
      if map_[i] != 0xff {
        FullRangeIsAllOnes();
        ghost var k := MissingBit(map_[i], 8);
        Unmarked(map_[..], i, k);
        return false;
      }
      i := i + 1;
    }
    if msgLen % 8 != 0 && map_[msgLen / 8] != BitRange(0, msgLen % 8) {
      forall k | msgLen % 8 <= k < 8
        ensures !Bit(map_[msgLen / 8], k)
      {
        assert !Marked(map_[..], 8 * (msgLen / 8) + k);
      }
      ghost var k := MissingBit(map_[msgLen / 8], msgLen % 8);
      Unmarked(map_[..], msgLen / 8, k);
      return false;
    }
    forall j | 0 <= j < msgLen
      ensures Marked(map_[..], j)
    {
      AllOnes(j % 8);
      if j / 8 == msgLen / 8 {
        BitRangeBits(0, msgLen % 8, j % 8);
      }
    }
    return true;
  }

  lemma FullRangeIsAllOnes()
    ensures BitRange(0, 8) == 0xff
  {
  }

  lemma Unmarked(map_: seq<bv8>, i: nat, k: nat)
    requires i < |map_| && k < 8 && !Bit(map_[i], k)
    ensures !Marked(map_, 8 * i + k)
  {
    assert (8 * i + k) / 8 == i && (8 * i + k) % 8 == k;
  }
}
