/** Choosing the RSA premaster secret without branches: the decrypted one if its padding and version are right, the random
    one otherwise. */
module Premaster {
  type Octet = bv8
  type Word = bv64

  const SECRET_LENGTH: nat := 48

  // Comparisons that yield masks: all bits set for true, none for false.

  function Msb(a: Word): Word {
    0 - (a >> 63)
  }

  function IsZero(a: Word): Word {
    Msb(!a & (a - 1))
  }

  function Eq(a: Word, b: Word): Word {
    IsZero(a ^ b)
  }

  function Select(mask: Word, a: Word, b: Word): Word {
    (mask & a) | (!mask & b)
  }

  function Low8(a: Word): Octet {
    (a & 0xff) as bv8
  }

  function IsZero8(a: Word): Octet {
    Low8(IsZero(a))
  }

  function Eq8(a: Word, b: Word): Octet {
    Low8(Eq(a, b))
  }

  function Select8(mask: Octet, a: Octet, b: Octet): Octet {
    Low8(Select(mask as bv64, a as bv64, b as bv64))
  }

  function WordMask(b: bool): Word {
    if b then 0xffff_ffff_ffff_ffff else 0
  }

  function Mask(b: bool): Octet {
    if b then 0xff else 0
  }

  lemma MsbMeaning(a: Word)
    ensures Msb(a) == WordMask(a >= 0x8000_0000_0000_0000)
  {
    assert a >> 63 == if a >= 0x8000_0000_0000_0000 then 1 else 0;
  }

  lemma IsZeroMeaning(a: Word)
    ensures IsZero(a) == WordMask(a == 0)
  {
    hide Msb;
    assert !a & (a - 1) >= 0x8000_0000_0000_0000 <==> a == 0;
    MsbMeaning(!a & (a - 1));
  }

  lemma EqMeaning(a: Word, b: Word)
    ensures Eq(a, b) == WordMask(a == b)
  {
    hide IsZero;
    assert a ^ b == 0 <==> a == b;
    IsZeroMeaning(a ^ b);
  }

  lemma EqWithMask(a: Word, b: Word)
    ensures Eq8(a, b) == Mask(a == b)
    ensures IsZero8(a) == Mask(a == 0)
  {
    hide Eq, IsZero;
    EqMeaning(a, b);
    IsZeroMeaning(a);
  }

  lemma SelectTrue(x: Octet, y: Octet)
    ensures Select8(0xff, x, y) == x
  {
  }

  lemma SelectFalse(x: Octet, y: Octet)
    ensures Select8(0, x, y) == y
  {
  }

  function Both(a: Octet, b: Octet): Octet {
    a & b
  }

  lemma MaskAnd(a: bool, b: bool)
    ensures Both(Mask(a), Mask(b)) == Mask(a && b)
    ensures !Mask(a) == Mask(!a)
  {
  }

  // The block and the secret.

  function High(version: bv16): bv16 {
    version >> 8
  }

  function Low(version: bv16): bv16 {
    version & 0xff
  }

  /** Block type 2: a zero and a two, padding without zeros, and a zero before the secret; and the secret starts with the
      version the client offered. */
  predicate WellPadded(block: seq<Octet>, version: bv16) {
    && |block| >= 11 + SECRET_LENGTH
    && var n := |block| - SECRET_LENGTH;
       && block[0] == 0 && block[1] == 2
       && (forall i :: 2 <= i < n - 1 ==> block[i] != 0)
       && block[n - 1] == 0
       && block[n] as bv16 == High(version) && block[n + 1] as bv16 == Low(version)
  }

  /** Whether the first octets are as they should be, up to i octets of padding. */
  predicate Prefix(block: seq<Octet>, i: nat)
    requires 2 <= i <= |block|
  {
    block[0] == 0 && block[1] == 2 && forall k :: 2 <= k < i ==> block[k] != 0
  }

  /** A mask for an octet that equals a number. */
  function Matches(b: Octet, x: bv16): Octet {
    Eq8(b as bv64, x as bv64)
  }

  function Vanishes(b: Octet): Octet {
    IsZero8(b as bv64)
  }

  lemma MatchesMeaning(b: Octet, x: bv16)
    ensures Matches(b, x) == Mask(b as bv16 == x)
  {
    hide Eq8, IsZero8, Mask;
    EqWithMask(b as bv64, x as bv64);
    assert b as bv64 == x as bv64 <==> b as bv16 == x;
  }

  lemma VanishesMeaning(b: Octet)
    ensures Vanishes(b) == Mask(b == 0)
    ensures !Vanishes(b) == Mask(b != 0)
  {
    hide Eq8, IsZero8, Mask;
    EqWithMask(b as bv64, 0);
    assert b as bv64 == 0 <==> b == 0;
    MaskAnd(b == 0, true);
  }

  lemma SmallOctet(b: Octet)
    ensures b as bv16 == 0 <==> b == 0
    ensures b as bv16 == 2 <==> b == 2
  {
  }

  /** The first two octets and the padding, without branches. */
  method CheckPrefix(block: seq<Octet>, end: nat) returns (good: Octet)
    requires 2 <= end <= |block|
    ensures good == Mask(Prefix(block, end))
  {
    hide Mask, Both, Matches, Vanishes;
    MatchesMeaning(block[0], 0);
    MatchesMeaning(block[1], 2);
    SmallOctet(block[0]);
    SmallOctet(block[1]);
    MaskAnd(block[0] == 0, block[1] == 2);
    good := Both(Matches(block[0], 0), Matches(block[1], 2));
    for i := 2 to end
      invariant good == Mask(Prefix(block, i))
    {
      VanishesMeaning(block[i]);
      MaskAnd(Prefix(block, i), block[i] != 0);
      PrefixStep(block, i);
      good := Both(good, !Vanishes(block[i]));
    }
  }

  lemma PrefixStep(block: seq<Octet>, i: nat)
    requires 2 <= i < |block|
    ensures Prefix(block, i + 1) <==> Prefix(block, i) && block[i] != 0
  {
  }

  method CheckPadding(block: seq<Octet>, version: bv16) returns (good: Octet)
    requires |block| >= 11 + SECRET_LENGTH
    ensures good == Mask(WellPadded(block, version))
  {
    hide Mask, Both, Matches, Vanishes, Prefix, WellPadded, High, Low;
    var n := |block| - SECRET_LENGTH;
    good := CheckPrefix(block, n - 1);
    VanishesMeaning(block[n - 1]);
    MatchesMeaning(block[n], High(version));
    MatchesMeaning(block[n + 1], Low(version));
    FourMasks(Prefix(block, n - 1), block[n - 1] == 0, block[n] as bv16 == High(version),
              block[n + 1] as bv16 == Low(version));
    WellPaddedParts(block, version);
    good := Both(good, Vanishes(block[n - 1]));
    good := Both(good, Matches(block[n], High(version)));
    good := Both(good, Matches(block[n + 1], Low(version)));
  }

  lemma FourMasks(a: bool, b: bool, c: bool, d: bool)
    ensures Both(Both(Both(Mask(a), Mask(b)), Mask(c)), Mask(d)) == Mask(a && b && c && d)
  {
    hide Both, Mask;
    MaskAnd(a, b);
    MaskAnd(a && b, c);
    MaskAnd(a && b && c, d);
  }

  lemma WellPaddedParts(block: seq<Octet>, version: bv16)
    requires |block| >= 11 + SECRET_LENGTH
    ensures var n := |block| - SECRET_LENGTH;
            WellPadded(block, version) <==>
              && Prefix(block, n - 1) && block[n - 1] == 0
              && block[n] as bv16 == High(version) && block[n + 1] as bv16 == Low(version)
  {
  }

  /** Puts the premaster secret in place of the random one, octet by octet, if the block is good. Blocks too small to
      hold one are refused; whether they are is no secret. */
  method SelectPremaster(block: seq<Octet>, version: bv16, secret: array<Octet>) returns (ok: bool)
    requires secret.Length == SECRET_LENGTH
    modifies secret
    ensures ok <==> |block| >= 11 + SECRET_LENGTH
    ensures secret[..] ==
            if ok && WellPadded(block, version) then block[|block| - SECRET_LENGTH..] else old(secret[..])
  {
    hide Select8, WellPadded;
    if |block| < 11 + SECRET_LENGTH {
      assert !WellPadded(block, version) by { TooSmall(block, version); }
      return false;
    }
    var paddingLen := |block| - SECRET_LENGTH;
    var good := CheckPadding(block, version);
    ghost var random := secret[..];
    for i := 0 to secret.Length
      invariant secret[i..] == random[i..]
      invariant secret[..i] == if WellPadded(block, version) then block[paddingLen..paddingLen + i] else random[..i]
    {
      SelectTrue(block[paddingLen + i], secret[i]);
      SelectFalse(block[paddingLen + i], secret[i]);
      secret[i] := Select8(good, block[paddingLen + i], secret[i]);
    }
    return true;
  }

  lemma TooSmall(block: seq<Octet>, version: bv16)
    requires |block| < 11 + SECRET_LENGTH
    ensures !WellPadded(block, version)
  {
  }
}
