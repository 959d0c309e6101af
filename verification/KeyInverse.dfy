/**
 Which keys the qanban packet cipher can decrypt. Its modulus is a product of factors of degrees
 1, 2, 4, 5, 6, 7 and 7, so raising to the power 2^32 - 2 does not invert in general: it inverts
 exactly the words whose fifteenth power is 1. The argument follows repeated squaring, which is
 additive, through each factor.
 */
module KeyInverse {
  import opened Gf2Ring
  import opened Gf2Evaluation
  import opened NumberTheory
  import opened PacketCipher

  // ----- repeated squaring -----

  /** a to the power 2^n. */
  function Frobenius(a: bv32, n: nat): bv32 {
    Power(a, Pow2(n))
  }

  lemma PowerOne(a: bv32)
    ensures Power(a, 1) == a && Power(a, 0) == 1
  {
    TimesLaws(a, 1);
    hide Times;
    assert Power(a, 1) == Times(a, Power(a, 0));
  }

  lemma FrobeniusNone(a: bv32)
    ensures Frobenius(a, 0) == a
  {
    Pow2Words();
    PowerOne(a);
    hide Power;
  }

  /** One more squaring. */
  lemma FrobeniusNext(a: bv32, n: nat)
    ensures Frobenius(a, n + 1) == Times(Frobenius(a, n), Frobenius(a, n))
  {
    hide Times, Power;
    Pow2Next(n);
    PowerAdd(a, Pow2(n), Pow2(n));
  }

  lemma {:induction false} FrobeniusAdd(a: bv32, b: bv32, n: nat)
    ensures Frobenius(Xor(a, b), n) == Xor(Frobenius(a, n), Frobenius(b, n))
  {
    hide Times, Xor, Frobenius;
    if n == 0 {
      FrobeniusNone(a);
      FrobeniusNone(b);
      FrobeniusNone(Xor(a, b));
    } else {
      var u, v := Frobenius(a, n - 1), Frobenius(b, n - 1);
      FrobeniusAdd(a, b, n - 1);
      FrobeniusNext(a, n - 1);
      FrobeniusNext(b, n - 1);
      FrobeniusNext(Xor(a, b), n - 1);
      TimesAdd(u, v, Xor(u, v));
      TimesAdd(u, v, u);
      TimesAdd(u, v, v);
      TimesLaws(u, v);
      CancelMiddle(Times(u, u), Times(u, v), Times(v, v));
    }
  }

  lemma CancelMiddle(a: bv32, b: bv32, d: bv32)
    ensures Xor(Xor(a, b), Xor(b, d)) == Xor(a, d)
  {
    hide Xor;
    XorAssociative(a, b, Xor(b, d));
    XorAssociative(b, b, d);
    XorLaws(b, b);
    XorLaws(d, 0);
  }

  lemma {:induction false} FrobeniusTimes(a: bv32, b: bv32, n: nat)
    ensures Frobenius(Times(a, b), n) == Times(Frobenius(a, n), Frobenius(b, n))
  {
    hide Times, Frobenius;
    if n == 0 {
      FrobeniusNone(a);
      FrobeniusNone(b);
      FrobeniusNone(Times(a, b));
    } else {
      FrobeniusTimes(a, b, n - 1);
      var u, v := Frobenius(a, n - 1), Frobenius(b, n - 1);
      FrobeniusNext(a, n - 1);
      FrobeniusNext(b, n - 1);
      FrobeniusNext(Times(a, b), n - 1);
      TimesExchange(u, v, u, v);
    }
  }

  lemma {:induction false} FrobeniusCompose(a: bv32, m: nat, n: nat)
    ensures Frobenius(a, m + n) == Frobenius(Frobenius(a, m), n)
  {
    hide Times, Frobenius;
    if n == 0 {
      FrobeniusNone(Frobenius(a, m));
    } else {
      FrobeniusCompose(a, m, n - 1);
      FrobeniusNext(a, m + n - 1);
      FrobeniusNext(Frobenius(a, m), n - 1);
    }
  }

  lemma {:induction false} FrobeniusOneZero(n: nat)
    ensures Frobenius(1, n) == 1 && Frobenius(0, n) == 0
  {
    TimesLaws(1, 0);
    TimesLaws(0, 0);
    hide Times, Frobenius;
    if n == 0 {
      FrobeniusNone(1);
      FrobeniusNone(0);
    } else {
      FrobeniusOneZero(n - 1);
      FrobeniusNext(1, n - 1);
      FrobeniusNext(0, n - 1);
    }
  }

  // ----- one factor of the modulus -----

  /** h * x^(2^d) = h * x. */
  ghost predicate Fixes(h: bv32, d: nat) {
    Times(h, Frobenius(2, d)) == Times(h, 2)
  }

  lemma TwoIsX(a: bv32)
    ensures Times(2, a) == TimesX(a, 0x8000_008D)
  {
    MulTimesX(1, a, 0x8000_008D);
    MulOne(a, 0x8000_008D);
    assert TimesX(1, 0x8000_008D) == 2;
  }

  /** What holds for x holds for every word. */
  lemma {:induction false} FixesAll(h: bv32, d: nat, a: bv32)
    requires Fixes(h, d)
    ensures Times(h, Frobenius(a, d)) == Times(h, a)
    decreases a
  {
    hide Times, Xor, Half, Low, Pick, TimesX, Frobenius;
    FrobeniusOneZero(d);
    if a != 0 {
      var low, b := Pick(Low(a), 1), Half(a);
      FixesAll(h, d, b);
      LowAndHalf(a, 0x8000_008D);
      TwoIsX(b);
      FrobeniusAdd(low, Times(2, b), d);
      FrobeniusTimes(2, b, d);
      TimesAdd(low, Times(2, b), h);
      TimesAdd(Frobenius(low, d), Times(Frobenius(2, d), Frobenius(b, d)), h);
      LowFixed(Low(a), d);
      TimesAssociative(h, Frobenius(2, d), Frobenius(b, d));
      SwapFactors(h, 2, Frobenius(b, d));
      SwapFactors(h, 2, b);
      TimesAssociative(h, 2, b);
    }
  }

  lemma SwapFactors(a: bv32, b: bv32, d: bv32)
    ensures Times(Times(a, b), d) == Times(b, Times(a, d))
  {
    hide Times;
    TimesLaws(a, b);
    TimesAssociative(b, a, d);
  }

  lemma LowFixed(p: bool, d: nat)
    ensures Frobenius(Pick(p, 1), d) == Pick(p, 1)
  {
    FrobeniusOneZero(d);
    hide Frobenius;
  }

  lemma {:induction false} FixesMultiple(h: bv32, d: nat, a: bv32, n: nat, k: nat, m: nat)
    requires Fixes(h, d) && m == n + d * k
    ensures Times(h, Frobenius(a, m)) == Times(h, Frobenius(a, n))
    decreases k
  {
    hide Times, Fixes, Frobenius;
    if k == 0 {
      assert m == n;
    } else {
      assert d * k == d * (k - 1) + d;
      FixesMultiple(h, d, a, n, k - 1, m - d);
      FrobeniusCompose(a, m - d, d);
      FixesAll(h, d, Frobenius(a, m - d));
    }
  }

  /** A word that m squarings bring back is, in each factor, brought back by n, if they differ from m or 2m by turns. */
  lemma FactorReturns(h: bv32, d: nat, a: bv32, m: nat, n: nat, k: nat)
    requires Fixes(h, d) && Frobenius(a, m) == a && (n + d * k == m || n + d * k == m + m)
    ensures Times(h, Frobenius(a, n)) == Times(h, a)
  {
    hide Times, Frobenius, Fixes;
    FrobeniusCompose(a, m, m);
    FixesMultiple(h, d, a, n, k, n + d * k);
  }

  // ----- the seven squarings of x, the factors, and a combination of them that is 1 -----

  lemma Square1()
    ensures Times(0x2, 0x2) == 0x4
  {
    ProductFrom(0x2, 0x2, 0x8000008d,
                Partial(0x4, 0x200, 0x0), Partial(0x4, 0x20000, 0x0),
                Partial(0x4, 0x2000000, 0x0), Partial(0x4, 0x80000197, 0x0));
  }

  lemma Square2()
    ensures Times(0x4, 0x4) == 0x10
  {
    ProductFrom(0x4, 0x4, 0x8000008d,
                Partial(0x10, 0x400, 0x0), Partial(0x10, 0x40000, 0x0),
                Partial(0x10, 0x4000000, 0x0), Partial(0x10, 0x800003a3, 0x0));
  }

  lemma Square3()
    ensures Times(0x10, 0x10) == 0x100
  {
    ProductFrom(0x10, 0x10, 0x8000008d,
                Partial(0x100, 0x1000, 0x0), Partial(0x100, 0x100000, 0x0),
                Partial(0x100, 0x10000000, 0x0), Partial(0x100, 0x80000f1b, 0x0));
  }

  lemma Square4()
    ensures Times(0x100, 0x100) == 0x10000
  {
    ProductFrom(0x100, 0x100, 0x8000008d,
                Partial(0x0, 0x10000, 0x1), Partial(0x10000, 0x1000000, 0x0),
                Partial(0x10000, 0x8000008d, 0x0), Partial(0x10000, 0x8000f67b, 0x0));
  }

  lemma Square5()
    ensures Times(0x10000, 0x10000) == 0x8000008d
  {
    ProductFrom(0x10000, 0x10000, 0x8000008d,
                Partial(0x0, 0x1000000, 0x100), Partial(0x0, 0x8000008d, 0x1),
                Partial(0x8000008d, 0x8000f67b, 0x0), Partial(0x8000008d, 0x80f6007b, 0x0));
  }

  lemma Square6()
    ensures Times(0x8000008d, 0x8000008d) == 0x8000556f
  {
    ProductFrom(0x8000008d, 0x8000008d, 0x8000008d,
                Partial(0x7f9e, 0x8000f67b, 0x800000), Partial(0x7f9e, 0x80f6007b, 0x8000),
                Partial(0x7f9e, 0x7600007b, 0x80), Partial(0x8000556f, 0x8000556f, 0x0));
  }

  lemma Square7()
    ensures Times(0x8000556f, 0x8000556f) == 0x9111016b
  {
    ProductFrom(0x8000556f, 0x8000556f, 0x8000008d,
                Partial(0x1ce44c, 0x8055147b, 0x800055), Partial(0x1109e04c, 0xd514007b, 0x8000),
                Partial(0x1109e04c, 0x940031b5, 0x80), Partial(0x9111016b, 0x8031c2c3, 0x0));
  }

  lemma Vanishes1()
    ensures Times(0x8000007b, 0x6) == 0
  {
    ProductFrom(0x8000007b, 0x6, 0x8000008d,
                Partial(0x0, 0x8000007b, 0x0), Partial(0x0, 0x8000007b, 0x0),
                Partial(0x0, 0x8000007b, 0x0), Partial(0x0, 0x8000007b, 0x0));
  }

  lemma Part1()
    ensures Times(0x8000007b, 0x1) == 0x8000007b
  {
    ProductFrom(0x8000007b, 0x1, 0x8000008d,
                Partial(0x8000007b, 0x8000007b, 0x0), Partial(0x8000007b, 0x8000007b, 0x0),
                Partial(0x8000007b, 0x8000007b, 0x0), Partial(0x8000007b, 0x8000007b, 0x0));
  }

  lemma Vanishes2()
    ensures Times(0x5b6db6ef, 0x12) == 0
  {
    ProductFrom(0x5b6db6ef, 0x12, 0x8000008d,
                Partial(0x0, 0xedb6db31, 0x0), Partial(0x0, 0xb6db6dde, 0x0),
                Partial(0x0, 0x5b6db6ef, 0x0), Partial(0x0, 0xedb6db31, 0x0));
  }

  lemma Part2()
    ensures Times(0x5b6db6ef, 0x2) == 0xb6db6dde
  {
    ProductFrom(0x5b6db6ef, 0x2, 0x8000008d,
                Partial(0xb6db6dde, 0xedb6db31, 0x0), Partial(0xb6db6dde, 0xb6db6dde, 0x0),
                Partial(0xb6db6dde, 0x5b6db6ef, 0x0), Partial(0xb6db6dde, 0xedb6db31, 0x0));
  }

  lemma Vanishes4()
    ensures Times(0x1af135eb, 0x10002) == 0
  {
    ProductFrom(0x1af135eb, 0x10002, 0x8000008d,
                Partial(0x35e26bd6, 0x7135e247, 0x100), Partial(0x35e26bd6, 0x35e26bd6, 0x1),
                Partial(0x0, 0xe26bc48e, 0x0), Partial(0x0, 0x6bc4d7ac, 0x0));
  }

  lemma Part4()
    ensures Times(0x1af135eb, 0x2) == 0x35e26bd6
  {
    ProductFrom(0x1af135eb, 0x2, 0x8000008d,
                Partial(0x35e26bd6, 0x7135e247, 0x0), Partial(0x35e26bd6, 0x35e26bd6, 0x0),
                Partial(0x35e26bd6, 0xe26bc48e, 0x0), Partial(0x35e26bd6, 0x6bc4d7ac, 0x0));
  }

  lemma Vanishes5()
    ensures Times(0xad0c9f1, 0x8000008f) == 0
  {
    ProductFrom(0xad0c9f1, 0x8000008f, 0x8000008d,
                Partial(0xad0c9f1, 0xd0c9f75c, 0x800000), Partial(0xad0c9f1, 0x49f7159b, 0x8000),
                Partial(0xad0c9f1, 0x7715a1bd, 0x80), Partial(0x0, 0x15a193e2, 0x0));
  }

  lemma Part5()
    ensures Times(0xad0c9f1, 0x7) == 0x34327dd7
  {
    ProductFrom(0xad0c9f1, 0x7, 0x8000008d,
                Partial(0x34327dd7, 0xd0c9f75c, 0x0), Partial(0x34327dd7, 0x49f7159b, 0x0),
                Partial(0x34327dd7, 0x7715a1bd, 0x0), Partial(0x34327dd7, 0x15a193e2, 0x0));
  }

  lemma Vanishes6()
    ensures Times(0x7b5743f, 0x8000556d) == 0
  {
    ProductFrom(0x7b5743f, 0x8000556d, 0x8000008d,
                Partial(0xbf388d96, 0x35743db9, 0x800055), Partial(0xd5d0f6e4, 0x743dab8e, 0x8000),
                Partial(0xd5d0f6e4, 0x3daba1f8, 0x80), Partial(0x0, 0x2ba1ed45, 0x0));
  }

  lemma Part6()
    ensures Times(0x7b5743f, 0x23) == 0xfe711ba1
  {
    ProductFrom(0x7b5743f, 0x23, 0x8000008d,
                Partial(0xfe711ba1, 0x35743db9, 0x0), Partial(0xfe711ba1, 0x743dab8e, 0x0),
                Partial(0xfe711ba1, 0x3daba1f8, 0x0), Partial(0xfe711ba1, 0x2ba1ed45, 0x0));
  }

  lemma Vanishes7()
    ensures Times(0x664fd, 0x91110169) == 0
  {
    ProductFrom(0x664fd, 0x91110169, 0x8000008d,
                Partial(0x160e3f5, 0x664fd00, 0x911101), Partial(0x7041ef5, 0x64fd0234, 0x9111),
                Partial(0x2c293db5, 0x7d0214e3, 0x91), Partial(0x0, 0x214cbbe, 0x0));
  }

  lemma Part7()
    ensures Times(0x664fd, 0x21b4) == 0xc97a6004
  {
    ProductFrom(0x664fd, 0x21b4, 0x8000008d,
                Partial(0x3813d04, 0x664fd00, 0x21), Partial(0xc97a6004, 0x64fd0234, 0x0),
                Partial(0xc97a6004, 0x7d0214e3, 0x0), Partial(0xc97a6004, 0x214cbbe, 0x0));
  }

  lemma DefaultKey1()
    ensures Times(0x12345678, 0x12345678) == 0x64cf345b
  {
    ProductFrom(0x12345678, 0x12345678, 0x8000008d,
                Partial(0xf97887f9, 0x3456768c, 0x123456), Partial(0x90777eee, 0xd6769e03, 0x1234),
                Partial(0x60172a0a, 0xf69e48af, 0x12), Partial(0x64cf345b, 0x9e48fa14, 0x0));
  }

  lemma DefaultKey2()
    ensures Times(0x64cf345b, 0x12345678) == 0xf614e72
  {
    ProductFrom(0x64cf345b, 0x12345678, 0x8000008d,
                Partial(0x40a175d3, 0x4f347be3, 0x123456), Partial(0x5c412646, 0xb47bdb89, 0x1234),
                Partial(0xc5688bbb, 0x7bdbe078, 0x12), Partial(0xf614e72, 0xdbe0528a, 0x0));
  }

  lemma DefaultKey3()
    ensures Times(0xf614e72, 0xf614e72) == 0xa196ad89
  {
    ProductFrom(0xf614e72, 0xf614e72, 0x8000008d,
                Partial(0x5cac2893, 0x614e7772, 0xf614e), Partial(0xc2e775e8, 0xce7751cd, 0xf61),
                Partial(0xdfae7622, 0xf7518e7f, 0xf), Partial(0xa196ad89, 0xd18e2a99, 0x0));
  }

  lemma DefaultKey4()
    ensures Times(0xa196ad89, 0x12345678) == 0x3c96f5a4
  {
    ProductFrom(0xa196ad89, 0x12345678, 0x8000008d,
                Partial(0x42a17702, 0x16adec4d, 0x123456), Partial(0x74e8ca9f, 0x2dec402f, 0x1234),
                Partial(0x2015cf8a, 0xec40355e, 0x12), Partial(0x3c96f5a4, 0xc0350253, 0x0));
  }

  lemma DefaultKey5()
    ensures Times(0x3c96f5a4, 0x3c96f5a4) == 0x49cc3fb2
  {
    ProductFrom(0x3c96f5a4, 0x3c96f5a4, 0x8000008d,
                Partial(0xabffb84d, 0x96f5b1c8, 0x3c96f5), Partial(0x108553c7, 0xf5b1be54, 0x3c96),
                Partial(0xaee4379d, 0xb1be000e, 0x3c), Partial(0x49cc3fb2, 0xbe006456, 0x0));
  }

  lemma DefaultKey6()
    ensures Times(0x49cc3fb2, 0x12345678) == 0x124d7d85
  {
    ProductFrom(0x49cc3fb2, 0x12345678, 0x8000008d,
                Partial(0x982a178e, 0x4c3f88bd, 0x123456), Partial(0x7cb18dbf, 0xbf888493, 0x1234),
                Partial(0x8b0b4e47, 0x884fca9, 0x12), Partial(0x124d7d85, 0x4fcaecb, 0x0));
  }

  lemma SquaringsOfX()
    ensures Frobenius(2, 1) == 0x4 && Frobenius(2, 2) == 0x10 && Frobenius(2, 4) == 0x10000
    ensures Frobenius(2, 5) == 0x8000008d && Frobenius(2, 6) == 0x8000556f && Frobenius(2, 7) == 0x9111016b
  {
    hide Times, Frobenius;
    FrobeniusNone(2);
    Square1();
    FrobeniusNext(2, 0);
    Square2();
    FrobeniusNext(2, 1);
    Square3();
    FrobeniusNext(2, 2);
    Square4();
    FrobeniusNext(2, 3);
    Square5();
    FrobeniusNext(2, 4);
    Square6();
    FrobeniusNext(2, 5);
    Square7();
    FrobeniusNext(2, 6);
  }

  /** One factor: its complement h annihilates the difference of a and its n-th squaring. */
  lemma FactorFixes(h: bv32, d: nat, xd: bv32, difference: bv32, a: bv32, m: nat, n: nat, k: nat)
    requires Frobenius(2, d) == xd && Xor(xd, 2) == difference && Times(h, difference) == 0
    requires Frobenius(a, m) == a && (n + d * k == m || n + d * k == m + m)
    ensures Times(h, Xor(Frobenius(a, n), a)) == 0
  {
    hide Times, Frobenius, Xor;
    TimesAdd(xd, 2, h);
    XorZeroEqual(Times(h, xd), Times(h, 2));
    FactorReturns(h, d, a, m, n, k);
    TimesAdd(Frobenius(a, n), a, h);
    XorLaws(Times(h, a), 0);
  }

  lemma XorZeroEqual(a: bv32, b: bv32)
    requires Xor(a, b) == 0
    ensures a == b
  {
    hide Xor;
    XorAssociative(a, b, b);
    XorLaws(b, b);
    XorLaws(a, 0);
    XorLaws(b, 0);
  }

  lemma NothingAt(h: bv32, u: bv32, y: bv32)
    requires Times(h, y) == 0
    ensures Times(Times(h, u), y) == 0
  {
    hide Times;
    TimesLaws(h, u);
    TimesAssociative(u, h, y);
    TimesLaws(u, 0);
  }

  lemma ZeroAdds(a: bv32, b: bv32, y: bv32)
    requires Times(a, y) == 0 && Times(b, y) == 0
    ensures Times(Xor(a, b), y) == 0
  {
    hide Times, Xor;
    TimesAdd(a, b, y);
    XorLaws(0, 0);
  }

  /** One part of the combination: a multiple of the factor's complement. */
  lemma PartFixes(h: bv32, u: bv32, part: bv32, d: nat, xd: bv32, difference: bv32, a: bv32, m: nat, n: nat, k: nat)
    requires Frobenius(2, d) == xd && Xor(xd, 2) == difference && Times(h, difference) == 0 && Times(h, u) == part
    requires Frobenius(a, m) == a && (n + d * k == m || n + d * k == m + m)
    ensures Times(part, Xor(Frobenius(a, n), a)) == 0
  {
    hide Times, Frobenius, Xor;
    FactorFixes(h, d, xd, difference, a, m, n, k);
    NothingAt(h, u, Xor(Frobenius(a, n), a));
  }

  /** The difference of each squaring of x and x. */
  lemma Differences()
    ensures Xor(0x4, 2) == 0x6 && Xor(0x10, 2) == 0x12 && Xor(0x10000, 2) == 0x10002
    ensures Xor(0x8000008d, 2) == 0x8000008f && Xor(0x8000556f, 2) == 0x8000556d && Xor(0x9111016b, 2) == 0x91110169
  {
  }

  /** A word that 32 squarings bring back is brought back by 4 squarings. */
  lemma ReturnsSooner(a: bv32)
    requires Frobenius(a, 32) == a
    ensures Frobenius(a, 4) == a
  {
    hide *;
    SquaringsOfX();
    Differences();
    Vanishes1();
    Part1();
    PartFixes(0x8000007b, 0x1, 0x8000007b, 1, 0x4, 0x6, a, 32, 4, 60);
    Vanishes2();
    Part2();
    PartFixes(0x5b6db6ef, 0x2, 0xb6db6dde, 2, 0x10, 0x12, a, 32, 4, 30);
    Vanishes4();
    Part4();
    PartFixes(0x1af135eb, 0x2, 0x35e26bd6, 4, 0x10000, 0x10002, a, 32, 4, 15);
    Vanishes5();
    Part5();
    PartFixes(0xad0c9f1, 0x7, 0x34327dd7, 5, 0x8000008d, 0x8000008f, a, 32, 4, 12);
    Vanishes6();
    Part6();
    PartFixes(0x7b5743f, 0x23, 0xfe711ba1, 6, 0x8000556f, 0x8000556d, a, 32, 4, 10);
    Vanishes7();
    Part7();
    PartFixes(0x664fd, 0x21b4, 0xc97a6004, 7, 0x9111016b, 0x91110169, a, 32, 4, 4);
    SumOfParts(Xor(Frobenius(a, 4), a));
    TimesLaws(Xor(Frobenius(a, 4), a), 1);
    XorZeroEqual(Frobenius(a, 4), a);
  }

  lemma SumOfParts(y: bv32)
    requires Times(0x8000007b, y) == 0 && Times(0xb6db6dde, y) == 0 && Times(0x35e26bd6, y) == 0
    requires Times(0x34327dd7, y) == 0 && Times(0xfe711ba1, y) == 0 && Times(0xc97a6004, y) == 0
    ensures Times(1, y) == 0
  {
    hide Times;
    ZeroAdds(0x8000007b, 0xb6db6dde, y);
    ZeroAdds(0x35e26bd6, 0x34327dd7, y);
    ZeroAdds(0xfe711ba1, 0xc97a6004, y);
    ZeroAdds(0x36db6da5, 0x1d01601, y);
    ZeroAdds(0x370b7ba4, 0x370b7ba5, y);
  }

  // ----- which keys have their library inverse for an inverse -----

  lemma {:induction false} PowerOfOne(a: bv32, e: nat, k: nat)
    requires Power(a, e) == 1
    ensures Power(a, e * k) == 1
  {
    hide Times;
    if k == 0 {
      assert e * k == 0;
    } else {
      PowerOfOne(a, e, k - 1);
      assert e * k == e * (k - 1) + e;
      PowerAdd(a, e * (k - 1), e);
      TimesLaws(1, 1);
    }
  }

  lemma PowerNext(a: bv32, e: nat)
    ensures Power(a, e + 1) == Times(a, Power(a, e))
  {
  }

  lemma ZeroPower(e: nat)
    requires e > 0
    ensures Power(0, e) == 0
  {
    TimesLaws(Power(0, e - 1), 0);
  }

  lemma OneIsNotZero(a: bv32)
    ensures Times(0, a) == 0 != 1
  {
    TimesLaws(a, 0);
  }

  /** For every key, invertible or not: the key twice times its library inverse is the key squared 32 times. */
  lemma InverseTwice(key: bv32)
    ensures Times(key, Times(key, Inverse(key))) == Frobenius(key, 32)
  {
    Pow2Words();
    hide Times, Power;
    if key == 0 {
      ZeroPower(0x1_0000_0000);
      OneIsNotZero(Times(key, Inverse(key)));
    } else {
      PowerNext(key, 0xFFFF_FFFE);
      PowerNext(key, 0xFFFF_FFFF);
    }
  }

  /** a^2 * a^4 * ... * a^(2^n): the product of n squarings. */
  function Squarings(a: bv32, n: nat): bv32 {
    if n == 0 then 1 else Times(Squarings(a, n - 1), Frobenius(a, n))
  }

  lemma {:induction false} SquaringsPower(a: bv32, n: nat)
    ensures Pow2(n + 1) >= 2 && Squarings(a, n) == Power(a, Pow2(n + 1) - 2)
  {
    hide Times, Power;
    Pow2Next(n);
    if n == 0 {
      Pow2Words();
      PowerOne(a);
    } else {
      SquaringsPower(a, n - 1);
      PowerAdd(a, Pow2(n) - 2, Pow2(n));
    }
  }

  /** Which determines the library inverse for every key: it is the product of the first 31 squarings. */
  lemma InverseIsSquarings(key: bv32)
    ensures Inverse(key) == Squarings(key, 31)
  {
    SquaringsPower(key, 31);
    Pow2Words();
    hide Times, Power, Squarings;
    ZeroPower(0xFFFF_FFFE);
  }

  /** The library inverse is an inverse exactly when the fifteenth power is 1. */
  lemma InverseIff(key: bv32)
    ensures Times(key, Inverse(key)) == 1 <==> Power(key, 15) == 1
  {
    hide Times, Power;
    OneIsNotZero(Inverse(key));
    ZeroPower(15);
    Pow2Words();
    if key != 0 {
      var e := 0xFFFF_FFFE;
      PowerNext(key, e);
      if Power(key, 15) == 1 {
        PowerOfOne(key, 15, 286331153);
      }
      if Times(key, Power(key, e)) == 1 {
        PowerNext(key, e + 1);
        TimesLaws(key, 1);
        ReturnsSooner(key);
        PowerAdd(key, 15, 1);
        PowerOne(key);
        TimesAssociative(Power(key, 15), key, Power(key, e));
        TimesLaws(Power(key, 15), 1);
      }
    }
  }

  /** Decryption undoes encryption for exactly the keys whose fifteenth power is 1. */
  lemma DecryptsIff(key: bv32)
    ensures (forall features: seq<bv32> :: Decrypt(Encrypt(features, key), key) == features)
            <==> Power(key, 15) == 1
  {
    hide *;
    DecryptUndoesEncrypt(key);
    InverseIff(key);
  }

  /** Secure compression is plain compression exactly if key times library inverse leaves the compression key alone. */
  lemma SecureCompressIff(key: bv32, compressionKey: bv32)
    ensures (forall features: seq<bv32> ::
               SecureCompress(features, key, compressionKey) == Compressed(features, compressionKey))
            <==> Times(compressionKey, Times(key, Inverse(key))) == compressionKey
  {
    var unit := Times(key, Inverse(key));
    hide Times, Inverse, Xor, Encrypt, Decrypt, SecureCompress;
    if forall features: seq<bv32> ::
        SecureCompress(features, key, compressionKey) == Compressed(features, compressionKey) {
      var one := [1 as bv32];
      assert SecureCompress(one, key, compressionKey) == Compressed(one, compressionKey);
      SecureCompressElement(one, key, compressionKey, 0);
      XorLaws(1, 0);
      TimesLaws(1, compressionKey);
      TimesLaws(compressionKey, 1);
    }
    if Times(compressionKey, unit) == compressionKey {
      forall features: seq<bv32>
        ensures SecureCompress(features, key, compressionKey) == Compressed(features, compressionKey)
      {
        SameCompressed(features, key, compressionKey);
      }
    }
  }

  lemma SameCompressed(features: seq<bv32>, key: bv32, compressionKey: bv32)
    requires Times(compressionKey, Times(key, Inverse(key))) == compressionKey
    ensures SecureCompress(features, key, compressionKey) == Compressed(features, compressionKey)
  {
    hide Times, Inverse, Xor, Encrypt, Decrypt, SecureCompress;
    var n := (|features| + 1) / 2;
    if n == 0 {
      EmptyPacket(features, key, compressionKey);
    } else {
      SecureCompressElement(features, key, compressionKey, 0);
      forall i: nat | i < n
        ensures SecureCompress(features, key, compressionKey)[i] == Compressed(features, compressionKey)[i]
      {
        SecureCompressElement(features, key, compressionKey, i);
        var sum := Xor(features[2 * i], PaddedAt(features, 2 * i + 1));
        TimesAssociative(sum, compressionKey, Times(key, Inverse(key)));
      }
    }
  }

  /** For the keys that decrypt, and every compression key, it is. */
  lemma SecureCompressIsCompress(features: seq<bv32>, key: bv32, compressionKey: bv32)
    requires Power(key, 15) == 1
    ensures SecureCompress(features, key, compressionKey) == Compressed(features, compressionKey)
  {
    hide Times, Power, Inverse, Encrypt, Decrypt, SecureCompress;
    InverseIff(key);
    TimesLaws(compressionKey, 1);
    SameCompressed(features, key, compressionKey);
  }

  lemma EmptyPacket(features: seq<bv32>, key: bv32, compressionKey: bv32)
    requires |features| == 0
    ensures SecureCompress(features, key, compressionKey) == []
  {
  }

  /** The engine's default key is not one of them: the documented round trip fails with it. */
  lemma DefaultKeyDoesNotDecrypt()
    ensures !(forall features: seq<bv32> ::
                Decrypt(Encrypt(features, 0x1234_5678), 0x1234_5678) == features)
  {
    hide Times, Power, Encrypt, Decrypt;
    var k: bv32 := 0x1234_5678;
    DecryptsIff(k);
    DefaultKeyPower(k);
  }

  lemma DefaultKeyPower(k: bv32)
    requires k == 0x1234_5678
    ensures Power(k, 15) != 1
  {
    hide Times, Power;
    PowerOne(k);
    DefaultKey1();
    DefaultKey2();
    DefaultKey3();
    DefaultKey4();
    DefaultKey5();
    DefaultKey6();
    PowerAdd(k, 1, 1);
    PowerAdd(k, 2, 1);
    PowerAdd(k, 3, 3);
    PowerAdd(k, 6, 1);
    PowerAdd(k, 7, 7);
    PowerAdd(k, 14, 1);
  }
}
