/**
 Polynomials over GF(2), packed in 32-bit words, modulo a polynomial of degree 32. The modulus is
 x^32 + c, where the word c holds the lower coefficients; nothing here assumes that it is
 irreducible, so the results are ring laws, not field laws.
 */
module Gf2Ring {
  // ----- words -----

  function Xor(a: bv32, b: bv32): bv32 {
    a ^ b
  }

  function Double(a: bv32): bv32 {
    a << 1
  }

  function Half(b: bv32): (h: bv32)
    ensures b != 0 ==> h < b
  {
    b >> 1
  }

  predicate Top(a: bv32) {
    a & 0x8000_0000 != 0
  }

  predicate Low(a: bv32) {
    a & 1 != 0
  }

  function Pick(bit: bool, a: bv32): bv32 {
    if bit then a else 0
  }

  /** Multiplication by x: the coefficient that leaves the word comes back as c. */
  function TimesX(a: bv32, c: bv32): bv32 {
    Xor(Double(a), Pick(Top(a), c))
  }

  lemma XorLaws(a: bv32, b: bv32)
    ensures Xor(a, b) == Xor(b, a) && Xor(a, 0) == a && Xor(0, a) == a && Xor(a, a) == 0
  {
  }

  lemma XorAssociative(a: bv32, b: bv32, d: bv32)
    ensures Xor(Xor(a, b), d) == Xor(a, Xor(b, d))
  {
    calc {
      Xor(Xor(a, b), d);
      Xor(a ^ b, d);
      (a ^ b) ^ d;
      a ^ (b ^ d);
      Xor(a, b ^ d);
      Xor(a, Xor(b, d));
    }
  }

  lemma XorExchange(a: bv32, b: bv32, d: bv32, e: bv32)
    ensures Xor(Xor(a, b), Xor(d, e)) == Xor(Xor(a, d), Xor(b, e))
  {
    hide *;
    XorAssociative(a, b, Xor(d, e));
    XorAssociative(b, d, e);
    XorLaws(b, d);
    XorAssociative(d, b, e);
    XorAssociative(a, d, Xor(b, e));
  }

  lemma DoubleAdd(a: bv32, b: bv32)
    ensures Double(Xor(a, b)) == Xor(Double(a), Double(b))
  {
  }

  lemma HalfAdd(a: bv32, b: bv32)
    ensures Half(Xor(a, b)) == Xor(Half(a), Half(b))
  {
  }

  lemma BitsAdd(a: bv32, b: bv32)
    ensures Top(Xor(a, b)) == (Top(a) != Top(b)) && Low(Xor(a, b)) == (Low(a) != Low(b))
  {
  }

  lemma PickAdd(p: bool, q: bool, a: bv32, b: bv32)
    ensures Pick(p != q, a) == Xor(Pick(p, a), Pick(q, a))
    ensures Pick(p, Xor(a, b)) == Xor(Pick(p, a), Pick(p, b))
  {
    XorLaws(a, a);
    XorLaws(0, 0);
    hide Xor;
  }

  lemma TimesXZero(c: bv32)
    ensures TimesX(0, c) == 0
  {
  }

  lemma TimesXAdd(a: bv32, b: bv32, c: bv32)
    ensures TimesX(Xor(a, b), c) == Xor(TimesX(a, c), TimesX(b, c))
  {
    hide Xor, Double, Pick, Top;
    DoubleAdd(a, b);
    BitsAdd(a, b);
    PickAdd(Top(a), Top(b), c, c);
    XorExchange(Double(a), Double(b), Pick(Top(a), c), Pick(Top(b), c));
  }

  lemma PickTimesX(p: bool, a: bv32, c: bv32)
    ensures Pick(p, TimesX(a, c)) == TimesX(Pick(p, a), c)
  {
    TimesXZero(c);
    hide TimesX;
  }

  lemma EvenWord(a: bv32)
    requires !Low(a)
    ensures Double(Half(a)) == a
  {
  }

  lemma OddWord(a: bv32)
    requires Low(a)
    ensures Xor(1, Double(Half(a))) == a
  {
  }

  lemma TopOfHalf(a: bv32)
    ensures !Top(Half(a))
  {
  }

  lemma DoubleHalf(a: bv32)
    ensures !Top(Half(a)) && a == Xor(Pick(Low(a), 1), Double(Half(a)))
  {
    hide Xor, Double, Half, Low, Top;
    TopOfHalf(a);
    XorLaws(Double(Half(a)), 0);
    if Low(a) {
      OddWord(a);
    } else {
      EvenWord(a);
    }
  }

  /** A word is its lowest bit plus x times the rest. */
  lemma LowAndHalf(a: bv32, c: bv32)
    ensures a == Xor(Pick(Low(a), 1), TimesX(Half(a), c))
  {
    hide Xor, Double, Half, Low, Top;
    DoubleHalf(a);
    XorLaws(Double(Half(a)), 0);
  }

  // ----- multiplication in the ring -----

  /** Multiplication, one bit of b at a time. */
  function Mul(a: bv32, b: bv32, c: bv32): bv32
    decreases b
  {
    if b == 0 then 0
    else Xor(Pick(Low(b), a), Mul(TimesX(a, c), Half(b), c))
  }

  lemma {:induction false} MulAddLeft(a: bv32, a': bv32, b: bv32, c: bv32)
    ensures Mul(Xor(a, a'), b, c) == Xor(Mul(a, b, c), Mul(a', b, c))
    decreases b
  {
    hide Xor, TimesX, Half, Low, Pick;
    XorLaws(0, 0);
    if b != 0 {
      TimesXAdd(a, a', c);
      MulAddLeft(TimesX(a, c), TimesX(a', c), Half(b), c);
      PickAdd(Low(b), false, a, a');
      XorExchange(Pick(Low(b), a), Pick(Low(b), a'), Mul(TimesX(a, c), Half(b), c), Mul(TimesX(a', c), Half(b), c));
    }
  }

  lemma {:induction false} MulTimesX(a: bv32, b: bv32, c: bv32)
    ensures Mul(TimesX(a, c), b, c) == TimesX(Mul(a, b, c), c)
    decreases b
  {
    hide Xor, TimesX, Half, Low, Pick;
    TimesXZero(c);
    if b != 0 {
      MulTimesX(TimesX(a, c), Half(b), c);
      PickTimesX(Low(b), a, c);
      TimesXAdd(Pick(Low(b), a), Mul(TimesX(a, c), Half(b), c), c);
    }
  }

  /** Horner's form of the product. */
  lemma MulHorner(a: bv32, b: bv32, c: bv32)
    ensures Mul(a, b, c) == Xor(Pick(Low(b), a), TimesX(Mul(a, Half(b), c), c))
  {
    if b == 0 {
      assert TimesX(0, c) == 0;
    } else {
      hide Xor, TimesX, Half, Low, Pick;
      MulTimesX(a, Half(b), c);
    }
  }

  lemma {:induction false} MulOne(a: bv32, c: bv32)
    ensures Mul(1, a, c) == a
    decreases a
  {
    hide Xor, TimesX, Half, Low, Pick;
    if a != 0 {
      MulOne(Half(a), c);
      MulHorner(1, a, c);
      LowAndHalf(a, c);
    }
  }

  lemma {:induction false} MulZero(a: bv32, c: bv32)
    ensures Mul(0, a, c) == 0
    decreases a
  {
    if a != 0 {
      hide Xor, TimesX, Half, Low;
      TimesXZero(c);
      XorLaws(0, 0);
      MulZero(Half(a), c);
    }
  }

  lemma {:induction false} MulCommutative(a: bv32, b: bv32, c: bv32)
    ensures Mul(a, b, c) == Mul(b, a, c)
    decreases b
  {
    MulZero(a, c);
    if b != 0 {
      hide *;
      MulCommutative(a, Half(b), c);
      MulHorner(a, b, c);
      LowAndHalf(b, c);
      MulAddLeft(Pick(Low(b), 1), TimesX(Half(b), c), a, c);
      MulTimesX(Half(b), a, c);
      MulPick(Low(b), a, c);
    }
  }

  lemma MulPick(p: bool, a: bv32, c: bv32)
    ensures Mul(Pick(p, 1), a, c) == Pick(p, a)
  {
    hide Mul;
    MulOne(a, c);
    MulZero(a, c);
  }

  /** The product distributes over addition on both sides. */
  lemma MulAddRight(a: bv32, b: bv32, b': bv32, c: bv32)
    ensures Mul(a, Xor(b, b'), c) == Xor(Mul(a, b, c), Mul(a, b', c))
  {
    hide *;
    MulCommutative(a, Xor(b, b'), c);
    MulCommutative(a, b, c);
    MulCommutative(a, b', c);
    MulAddLeft(b, b', a, c);
  }

  lemma {:induction false} MulAssociative(a: bv32, b: bv32, d: bv32, c: bv32)
    ensures Mul(Mul(a, b, c), d, c) == Mul(a, Mul(b, d, c), c)
    decreases d
  {
    if d == 0 {
      MulZero(a, c);
      MulCommutative(a, 0, c);
    } else {
      hide *;
      var y := Mul(b, Half(d), c);
      MulAssociative(a, b, Half(d), c);
      MulHorner(Mul(a, b, c), d, c);
      MulHorner(b, d, c);
      MulAddRight(a, Pick(Low(d), b), TimesX(y, c), c);
      MulCommutative(a, TimesX(y, c), c);
      MulTimesX(y, a, c);
      MulCommutative(y, a, c);
      MulPickRight(Low(d), a, b, c);
    }
  }

  lemma MulPickRight(p: bool, a: bv32, b: bv32, c: bv32)
    ensures Mul(a, Pick(p, b), c) == Pick(p, Mul(a, b, c))
  {
    hide Mul;
    MulZero(a, c);
    MulCommutative(a, 0, c);
  }
}
