/** Base-128 varints and little-endian fixed-width integers, as Protocol Buffers puts them on the wire. */
module PbVarint {
  import opened Bytes

  function Pow2(n: nat): (p: nat)
    ensures p >= 1
  {
    if n == 0 then 1 else 2 * Pow2(n - 1)
  }

  const TWO_32: nat := 0x1_0000_0000
  const TWO_64: nat := 0x1_0000_0000_0000_0000

  lemma Pow2Values()
    ensures Pow2(7) == 128 && Pow2(32) == TWO_32 && Pow2(64) == TWO_64
  {
    assert Pow2(8) == 256;
    Pow2Sum(8, 8);
    Pow2Sum(16, 16);
    Pow2Sum(32, 32);
  }

  lemma Pow2Sum(a: nat, b: nat)
    ensures Pow2(a + b) == Pow2(a) * Pow2(b)
  {
    if b > 0 {
      Pow2Sum(a, b - 1);
    }
  }

  lemma Pow2Grows(a: nat, b: nat)
    requires a <= b
    ensures Pow2(a) <= Pow2(b)
  {
    if a < b {
      Pow2Grows(a, b - 1);
    }
  }

  /** The shortest varint of v. */
  function VarintBytes(v: nat): (s: seq<Byte>)
    ensures 1 <= |s|
  {
    if v <= 0x7f then [v] else [v % 128 + 128] + VarintBytes(v / 128)
  }

  /** d shifted up by pos bits. */
  function Place(d: nat, pos: nat): (n: nat) {
    d * Pow2(pos)
  }

  /** Reading a varint of at most width bits: seven bits from each octet, placed from bit position pos upwards and cut
      off at the width. None when the octets run out, or go on past the width. acc holds the bits below pos, so that
      adding the next ones is ORing them in. */
  function ReadVarint(s: seq<Byte>, width: nat, pos: nat, acc: nat): (r: (Option<nat>, seq<Byte>))
    ensures |r.1| <= |s| && r.1 == s[|s| - |r.1|..]
    ensures r.0.Some? ==> |r.1| < |s|
    decreases |s|
  {
    if pos >= width || |s| == 0 then (None, s)
    else
      var acc' := (acc + Place(s[0] % 128, pos)) % Pow2(width);
      if s[0] < 128 then (Some(acc'), s[1..]) else ReadVarint(s[1..], width, pos + 7, acc')
  }

  function DecodeVarint32(s: seq<Byte>): (r: (Option<nat>, seq<Byte>))
    ensures |r.1| <= |s| && r.1 == s[|s| - |r.1|..]
    ensures r.0.Some? ==> |r.1| < |s|
  {
    ReadVarint(s, 32, 0, 0)
  }

  function DecodeVarint64(s: seq<Byte>): (r: (Option<nat>, seq<Byte>))
    ensures |r.1| <= |s| && r.1 == s[|s| - |r.1|..]
    ensures r.0.Some? ==> |r.1| < |s|
  {
    ReadVarint(s, 64, 0, 0)
  }

  lemma Distribute(a: int, b: int, p: int)
    ensures (a + b) * p == a * p + b * p
  {
  }

  /** Splitting off the low seven bits of a number that is to be placed at bit position pos. */
  lemma SplitSeven(v: nat, pos: nat)
    ensures Place(v, pos) == Place(v % 128, pos) + Place(v / 128, pos + 7)
    ensures v / 128 >= 1 ==> Place(v / 128, pos + 7) >= Pow2(pos + 7)
  {
    Pow2Values();
    Pow2Sum(pos, 7);
    hide Pow2;
    var h, l, p := v / 128, v % 128, Pow2(pos);
    Distribute(128 * h, l, p);
    Regroup(h, p);
    if h >= 1 {
      AtLeast(h, Pow2(pos + 7));
    }
  }

  lemma Regroup(h: int, p: int)
    ensures (128 * h) * p == h * (p * 128)
  {
  }

  lemma AtLeast(h: nat, p: nat)
    requires h >= 1
    ensures h * p >= p
  {
  }

  lemma {:induction false} VarintRoundTrip(v: nat, width: nat, pos: nat, acc: nat, rest: seq<Byte>)
    requires acc + Place(v, pos) < Pow2(width) && pos < width
    ensures ReadVarint(VarintBytes(v) + rest, width, pos, acc) == (Some(acc + Place(v, pos)), rest)
    decreases v
  {
    hide Pow2, Place, ReadVarint;
    var low, high := v % 128, v / 128;
    SplitSeven(v, pos);
    NothingPlaced(pos + 7);
    SmallMod(acc + Place(low, pos), Pow2(width));
    if v <= 0x7f {
      assert v == low && VarintBytes(v) == [low];
      hide VarintBytes;
      ReadVarintStep(low, rest, width, pos, acc);
    } else {
      assert VarintBytes(v) == [low + 128] + VarintBytes(high);
      assert VarintBytes(v) + rest == [low + 128] + (VarintBytes(high) + rest);
      assert (low + 128) % 128 == low && v != low && high >= 1;
      hide VarintBytes;
      ReadVarintStep(low + 128, VarintBytes(high) + rest, width, pos, acc);
      if pos + 7 >= width {
        Pow2Grows(width, pos + 7);
      }
      VarintRoundTrip(high, width, pos + 7, acc + Place(low, pos), rest);
    }
  }

  lemma ReadVarintStep(b: Byte, tail: seq<Byte>, width: nat, pos: nat, acc: nat)
    requires pos < width
    ensures var acc' := (acc + Place(b % 128, pos)) % Pow2(width);
            ReadVarint([b] + tail, width, pos, acc) ==
            if b < 128 then (Some(acc'), tail) else ReadVarint(tail, width, pos + 7, acc')
  {
    hide Pow2, Place;
    assert ([b] + tail)[1..] == tail;
  }

  lemma SmallMod(a: nat, m: nat)
    requires a < m
    ensures a % m == a
  {
  }

  lemma NothingPlaced(pos: nat)
    ensures Place(0, pos) == 0
  {
  }

  lemma Varint32RoundTrip(v: nat, rest: seq<Byte>)
    requires v < TWO_32
    ensures DecodeVarint32(VarintBytes(v) + rest) == (Some(v), rest)
  {
    Pow2Values();
    assert Place(v, 0) == v;
    hide Pow2, Place, VarintBytes, ReadVarint;
    VarintRoundTrip(v, 32, 0, 0, rest);
  }

  lemma Varint64RoundTrip(v: nat, rest: seq<Byte>)
    requires v < TWO_64
    ensures DecodeVarint64(VarintBytes(v) + rest) == (Some(v), rest)
  {
    Pow2Values();
    assert Place(v, 0) == v;
    hide Pow2, Place, VarintBytes, ReadVarint;
    VarintRoundTrip(v, 64, 0, 0, rest);
  }

  lemma {:induction false} ReadVarintBounded(s: seq<Byte>, width: nat, pos: nat, acc: nat)
    requires acc < Pow2(width)
    ensures var r := ReadVarint(s, width, pos, acc).0; r.Some? ==> r.value < Pow2(width)
    decreases |s|
  {
    hide Pow2;
    if pos < width && |s| > 0 && s[0] >= 128 {
      ReadVarintBounded(s[1..], width, pos + 7, (acc + Place(s[0] % 128, pos)) % Pow2(width));
    }
  }

  lemma DecodedBounds(s: seq<Byte>)
    ensures DecodeVarint32(s).0.Some? ==> DecodeVarint32(s).0.value < TWO_32
    ensures DecodeVarint64(s).0.Some? ==> DecodeVarint64(s).0.value < TWO_64
  {
    Pow2Values();
    hide Pow2, ReadVarint;
    ReadVarintBounded(s, 32, 0, 0);
    ReadVarintBounded(s, 64, 0, 0);
  }

  /** Reading does not look past the end of the varint. */
  lemma {:induction false} ReadVarintExtends(s: seq<Byte>, width: nat, pos: nat, acc: nat, t: seq<Byte>)
    requires ReadVarint(s, width, pos, acc).0.Some?
    ensures ReadVarint(s + t, width, pos, acc) ==
            (ReadVarint(s, width, pos, acc).0, ReadVarint(s, width, pos, acc).1 + t)
    decreases |s|
  {
    hide Pow2;
    assert (s + t)[1..] == s[1..] + t;
    if s[0] >= 128 {
      ReadVarintExtends(s[1..], width, pos + 7, (acc + Place(s[0] % 128, pos)) % Pow2(width), t);
    }
  }

  // Signed integers.

  /** The two's complement bit pattern of i in the given width. */
  function ToBits(i: int, modulus: nat): (n: nat)
    requires modulus >= 1
    ensures n < modulus
  {
    i % modulus
  }

  /** The integer with the low bits of n as its two's complement pattern. */
  function FromBits(n: nat, modulus: nat): (i: int)
    requires modulus >= 2
  {
    var low := n % modulus;
    if low >= modulus / 2 then low - modulus else low
  }

  /** Zigzag: non-negative numbers become even, negative ones odd. */
  function ZigZag(i: int): (n: nat)
    requires -0x8000_0000_0000_0000 <= i < 0x8000_0000_0000_0000
    ensures n < TWO_64
  {
    if i < 0 then TWO_64 - 1 - ToBits(2 * ToBits(i, TWO_64), TWO_64) else 2 * i
  }

  function UnZigZag(n: nat): (i: int)
    requires n < TWO_64
    ensures -0x8000_0000_0000_0000 <= i < 0x8000_0000_0000_0000
  {
    if n % 2 == 1 then FromBits(TWO_64 - 1 - n / 2, TWO_64) else FromBits(n / 2, TWO_64)
  }

  lemma ZigZagRoundTrip(i: int)
    requires -0x8000_0000_0000_0000 <= i < 0x8000_0000_0000_0000
    ensures UnZigZag(ZigZag(i)) == i
  {
    if i < 0 {
      assert ToBits(i, TWO_64) == i + TWO_64;
      assert (2 * (i + TWO_64)) % TWO_64 == 2 * i + TWO_64;
    }
  }

  // Fixed-width integers.

  function LittleEndian(v: nat, k: nat): (s: seq<Byte>)
    ensures |s| == k
  {
    if k == 0 then [] else [v % 256] + LittleEndian(v / 256, k - 1)
  }

  function FromLittleEndian(s: seq<Byte>): (v: nat)
  {
    if |s| == 0 then 0 else s[0] + 256 * FromLittleEndian(s[1..])
  }

  lemma {:induction false} LittleEndianRoundTrip(v: nat, k: nat)
    requires v < Pow256(k)
    ensures FromLittleEndian(LittleEndian(v, k)) == v
    decreases k
  {
    if k > 0 {
      LittleEndianRoundTrip(v / 256, k - 1);
      assert LittleEndian(v, k)[1..] == LittleEndian(v / 256, k - 1);
    }
  }
}
