/** The table of 5^4, 5^8, ..., 5^256, limb by limb, and its values. */
module FivePowers {
  import opened Limbs

  const POWER_4: seq<Limb> := [
    625
  ]
  const POWER_8: seq<Limb> := [
    390625
  ]
  const POWER_16: seq<Limb> := [
    2264035265, 35
  ]
  const POWER_32: seq<Limb> := [
    2242703233, 762134875, 1262
  ]
  const POWER_64: seq<Limb> := [
    3211403009, 1849224548, 3668416493, 3913284084, 1593091
  ]
  const POWER_128: seq<Limb> := [
    781532673, 64985353, 253049085, 594863151, 3553621484, 3288652808, 3167596762, 2788392729,
    3911132675, 590
  ]
  const POWER_256: seq<Limb> := [
    2553183233, 3201533787, 3638140786, 303378311, 1809731782, 3477761648, 3583367183, 649228654,
    2915460784, 487929380, 1011012442, 1677677582, 3428152256, 1710878487, 1438394610, 2161952759,
    4100910556, 1608314830, 349175
  ]

  /** Four limbs below the limbs above them. */
  lemma FourLimbs(s: seq<Limb>, k: nat)
    requires k + 4 <= |s|
    ensures Value(s[k..]) == s[k] + 0x1_0000_0000 * (s[k + 1] + 0x1_0000_0000 * (s[k + 2]
      + 0x1_0000_0000 * (s[k + 3] + 0x1_0000_0000 * Value(s[k + 4..]))))
  {
    ValueFrom(s, k);
    ValueFrom(s, k + 1);
    ValueFrom(s, k + 2);
    ValueFrom(s, k + 3);
  }

  lemma NoLimbs(s: seq<Limb>)
    ensures Value(s[|s|..]) == 0 && s[0..] == s
  {
  }

  lemma Power4()
    ensures Value(POWER_4) == 625
  {
    var s := POWER_4;
    NoLimbs(s);
    hide Value;
    ValueFrom(s, 0);
  }

  lemma Power8()
    ensures Value(POWER_8) == 390625
  {
    var s := POWER_8;
    NoLimbs(s);
    hide Value;
    ValueFrom(s, 0);
  }

  lemma Power16()
    ensures Value(POWER_16) == 2264035265 + 0x1_0000_0000 * (35)
  {
    var s := POWER_16;
    NoLimbs(s);
    hide Value;
    ValueFrom(s, 0);
    ValueFrom(s, 1);
  }

  lemma Power32()
    ensures Value(POWER_32) == 2242703233 + 0x1_0000_0000 * (762134875 + 0x1_0000_0000 * (1262))
  {
    var s := POWER_32;
    NoLimbs(s);
    hide Value;
    ValueFrom(s, 0);
    ValueFrom(s, 1);
    ValueFrom(s, 2);
  }

  lemma Power64()
    ensures Value(POWER_64) ==
      3211403009 + 0x1_0000_0000 * (1849224548 + 0x1_0000_0000 * (3668416493 + 0x1_0000_0000 * (
      3913284084 + 0x1_0000_0000 * (1593091))))
  {
    var s := POWER_64;
    NoLimbs(s);
    hide Value;
    FourLimbs(s, 0);
    ValueFrom(s, 4);
  }

  lemma Power128()
    ensures Value(POWER_128) ==
      781532673 + 0x1_0000_0000 * (64985353 + 0x1_0000_0000 * (253049085 + 0x1_0000_0000 * (
      594863151 + 0x1_0000_0000 * (3553621484 + 0x1_0000_0000 * (3288652808 + 0x1_0000_0000 * (
      3167596762 + 0x1_0000_0000 * (2788392729 + 0x1_0000_0000 * (3911132675 + 0x1_0000_0000 * (590)))))))))
  {
    var s := POWER_128;
    NoLimbs(s);
    hide Value;
    FourLimbs(s, 0);
    FourLimbs(s, 4);
    ValueFrom(s, 8);
    ValueFrom(s, 9);
  }

  lemma Power256High()
    ensures Value(POWER_256[4..]) ==
      1809731782 + 0x1_0000_0000 * (3477761648 + 0x1_0000_0000 * (3583367183 + 0x1_0000_0000 * (
      649228654 + 0x1_0000_0000 * (2915460784 + 0x1_0000_0000 * (487929380 + 0x1_0000_0000 * (
      1011012442 + 0x1_0000_0000 * (1677677582 + 0x1_0000_0000 * (3428152256 + 0x1_0000_0000 * (
      1710878487 + 0x1_0000_0000 * (1438394610 + 0x1_0000_0000 * (2161952759 + 0x1_0000_0000 * (
      4100910556 + 0x1_0000_0000 * (1608314830 + 0x1_0000_0000 * (349175))))))))))))))
  {
    var s := POWER_256;
    NoLimbs(s);
    hide Value;
    FourLimbs(s, 4);
    FourLimbs(s, 8);
    FourLimbs(s, 12);
    ValueFrom(s, 16);
    ValueFrom(s, 17);
    ValueFrom(s, 18);
  }

  lemma Power256()
    ensures Value(POWER_256) ==
      2553183233 + 0x1_0000_0000 * (3201533787 + 0x1_0000_0000 * (3638140786 + 0x1_0000_0000 * (
      303378311 + 0x1_0000_0000 * (1809731782 + 0x1_0000_0000 * (3477761648 + 0x1_0000_0000 * (
      3583367183 + 0x1_0000_0000 * (649228654 + 0x1_0000_0000 * (2915460784 + 0x1_0000_0000 * (
      487929380 + 0x1_0000_0000 * (1011012442 + 0x1_0000_0000 * (1677677582 + 0x1_0000_0000 * (
      3428152256 + 0x1_0000_0000 * (1710878487 + 0x1_0000_0000 * (1438394610 + 0x1_0000_0000 * (
      2161952759 + 0x1_0000_0000 * (4100910556 + 0x1_0000_0000 * (1608314830 + 0x1_0000_0000 * (349175))))))))))))))))))
  {
    var s := POWER_256;
    NoLimbs(s);
    Power256High();
    hide Value;
    FourLimbs(s, 0);
  }
}
