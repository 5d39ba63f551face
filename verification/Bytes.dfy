/** Octets, optional values, and big-endian integers. */
module Bytes {

  type Byte = b: int | 0 <= b < 256

  datatype Option<+T> = None | Some(value: T)

  /** 256^k, the number of values that fit in k octets. */
  function Pow256(k: nat): (p: nat)
    ensures p >= 1
  {
    if k == 0 then 1 else 256 * Pow256(k - 1)
  }

  /** The k low-order octets of v, most significant first. */
  function BigEndian(v: nat, k: nat): (s: seq<Byte>)
    ensures |s| == k
    decreases k
  {
    if k == 0 then [] else BigEndian(v / 256, k - 1) + [v % 256]
  }

  /** The integer that a sequence of octets denotes, most significant first. */
  function Value(s: seq<Byte>): (v: nat)
    ensures v < Pow256(|s|)
  {
    if |s| == 0 then 0
    else
      var high := Value(s[..|s| - 1]);
      256 * high + s[|s| - 1]
  }

  lemma {:induction false} ValueOfBigEndian(v: nat, k: nat)
    requires v < Pow256(k)
    ensures Value(BigEndian(v, k)) == v
    decreases k
  {
    if k > 0 {
      ValueOfBigEndian(v / 256, k - 1);
      var s := BigEndian(v, k);
      assert s[..|s| - 1] == BigEndian(v / 256, k - 1);
    }
  }

  lemma Pow256Values()
    ensures Pow256(1) == 0x100 && Pow256(2) == 0x1_0000 && Pow256(3) == 0x100_0000
    ensures Pow256(6) == 0x1_0000_0000_0000
  {
    assert Pow256(3) == 256 * Pow256(2);
    assert Pow256(6) == 256 * (256 * (256 * Pow256(3)));
  }

  // The octets of short integers, one by one.

  lemma OneOctet(v: nat)
    ensures BigEndian(v, 1) == [v % 256]
  {
    BigEndianStep(v, 1);
  }

  lemma TwoOctets(v: nat)
    ensures BigEndian(v, 2) == [v / 256 % 256, v % 256]
  {
    hide BigEndian;
    BigEndianStep(v, 2);
    OneOctet(v / 256);
  }

  lemma ThreeOctets(v: nat)
    ensures BigEndian(v, 3) == [v / 256 / 256 % 256, v / 256 % 256, v % 256]
  {
    hide BigEndian;
    BigEndianStep(v, 3);
    TwoOctets(v / 256);
  }

  lemma BigEndianStep(v: nat, k: nat)
    requires k > 0
    ensures BigEndian(v, k) == BigEndian(v / 256, k - 1) + [v % 256]
  {
  }

  lemma OctetsAddUp(v: nat)
    ensures v < 0x100 ==> v % 256 == v
    ensures v < 0x1_0000 ==> 0x100 * (v / 256 % 256) + v % 256 == v
    ensures v < 0x100_0000 ==> 0x1_0000 * (v / 256 / 256 % 256) + 0x100 * (v / 256 % 256) + v % 256 == v
  {
    var a := v / 256;
    assert v == 256 * a + v % 256;
    assert a == 256 * (a / 256) + a % 256;
  }
}
