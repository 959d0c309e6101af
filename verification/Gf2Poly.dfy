/**
 Polynomials over GF(2) in 64-bit words: the carry-less product, its coefficients, and what is left
 of a polynomial modulo x^32 + c. The ring product of Gf2Ring is the remainder of the product.
 */
module Gf2Poly {
  import opened Gf2Ring

  // ----- 64-bit words -----

  function Xor64(a: bv64, b: bv64): bv64 {
    a ^ b
  }

  function Double64(a: bv64): bv64 {
    a << 1
  }

  function Half64(b: bv64): (h: bv64)
    ensures b != 0 ==> h < b
  {
    b >> 1
  }

  predicate Top64(a: bv64) {
    a & 0x8000_0000_0000_0000 != 0
  }

  predicate Low64(a: bv64) {
    a & 1 != 0
  }

  function Pick64(bit: bool, a: bv64): bv64 {
    if bit then a else 0
  }

  function Widen(a: bv32): bv64 {
    a as bv64
  }

  function Truncate(w: bv64): bv32 {
    (w & 0xFFFF_FFFF) as bv32
  }

  lemma TruncateWiden(a: bv32)
    ensures Truncate(Widen(a)) == a
  {
    assert ((a as bv64) & 0xFFFF_FFFF) as bv32 == a;
  }

  /** v shifted left by n. */
  function Shl(v: bv64, n: nat): bv64 {
    if n == 0 then v else Double64(Shl(v, n - 1))
  }

  lemma Xor64Laws(a: bv64, b: bv64)
    ensures Xor64(a, b) == Xor64(b, a) && Xor64(a, 0) == a && Xor64(0, a) == a && Xor64(a, a) == 0
  {
  }

  lemma Xor64Associative(a: bv64, b: bv64, d: bv64)
    ensures Xor64(Xor64(a, b), d) == Xor64(a, Xor64(b, d))
  {
    calc {
      Xor64(Xor64(a, b), d);
      Xor64(a ^ b, d);
      (a ^ b) ^ d;
      a ^ (b ^ d);
      Xor64(a, b ^ d);
      Xor64(a, Xor64(b, d));
    }
  }

  lemma Xor64Exchange(a: bv64, b: bv64, d: bv64, e: bv64)
    ensures Xor64(Xor64(a, b), Xor64(d, e)) == Xor64(Xor64(a, d), Xor64(b, e))
  {
    hide *;
    Xor64Associative(a, b, Xor64(d, e));
    Xor64Associative(b, d, e);
    Xor64Laws(b, d);
    Xor64Associative(d, b, e);
    Xor64Associative(a, d, Xor64(b, e));
  }

  lemma Double64Add(a: bv64, b: bv64)
    ensures Double64(Xor64(a, b)) == Xor64(Double64(a), Double64(b))
  {
  }

  lemma Half64Add(a: bv64, b: bv64)
    ensures Half64(Xor64(a, b)) == Xor64(Half64(a), Half64(b))
  {
  }

  lemma Bits64Add(a: bv64, b: bv64)
    ensures Top64(Xor64(a, b)) == (Top64(a) != Top64(b)) && Low64(Xor64(a, b)) == (Low64(a) != Low64(b))
  {
  }

  lemma HalfOfDouble(a: bv64)
    requires !Top64(a)
    ensures Half64(Double64(a)) == a
  {
  }

  lemma LowOfDouble(a: bv64)
    ensures !Low64(Double64(a))
  {
  }

  lemma HalfOfWidened(a: bv32)
    ensures Half64(Widen(a)) == Widen(Half(a))
  {
    calc {
      Half64(Widen(a));
      Half64(a as bv64);
      (a as bv64) >> 1;
      (a >> 1) as bv64;
      Widen(a >> 1);
      Widen(Half(a));
    }
  }

  lemma LowOfWidened(a: bv32)
    ensures Low64(Widen(a)) == Low(a)
  {
  }

  lemma WidenAdd(a: bv32, b: bv32)
    ensures Widen(Xor(a, b)) == Xor64(Widen(a), Widen(b))
  {
  }

  lemma WidenedZero(a: bv32)
    ensures Widen(a) == 0 <==> a == 0
  {
  }

  // ----- how much of a word is used -----

  predicate Apart(a: bv64, m: bv64) {
    a & m == 0
  }

  function NextHigh(m: bv64): bv64 {
    (m >> 1) | 0x8000_0000_0000_0000
  }

  predicate Within(b: bv32, m: bv32) {
    b | m == m
  }

  function NextLow(m: bv32): bv32 {
    (m << 1) | 1
  }

  /** n doublings of a lose no bit. */
  ghost predicate Room(a: bv64, n: nat)
    decreases n
  {
    n == 0 || (!Top64(a) && Room(Double64(a), n - 1))
  }

  /** The n highest bits. */
  ghost function HighBits(n: nat): bv64 {
    if n == 0 then 0 else NextHigh(HighBits(n - 1))
  }

  lemma HighBitsStep(a: bv64, m: bv64)
    requires Apart(a, NextHigh(m))
    ensures !Top64(a) && Apart(Double64(a), m)
  {
  }

  lemma {:induction false} ClearHighBitsRoom(a: bv64, n: nat)
    requires Apart(a, HighBits(n))
    ensures Room(a, n)
    decreases n
  {
    hide Apart, NextHigh, Double64, Top64;
    if n > 0 {
      HighBitsStep(a, HighBits(n - 1));
      ClearHighBitsRoom(Double64(a), n - 1);
    }
  }

  lemma HighBits32()
    ensures HighBits(31) == 0xFFFF_FFFE_0000_0000
    ensures HighBits(32) == 0xFFFF_FFFF_0000_0000
  {
    assert HighBits(4) == 0xF000_0000_0000_0000;
    assert HighBits(8) == 0xFF00_0000_0000_0000;
    assert HighBits(12) == 0xFFF0_0000_0000_0000;
    assert HighBits(16) == 0xFFFF_0000_0000_0000;
    assert HighBits(20) == 0xFFFF_F000_0000_0000;
    assert HighBits(24) == 0xFFFF_FF00_0000_0000;
    assert HighBits(28) == 0xFFFF_FFF0_0000_0000;
  }

  lemma WidenedApart(a: bv32)
    ensures Apart(Widen(a), 0xFFFF_FFFF_0000_0000)
    ensures Apart(Xor64(0x1_0000_0000, Widen(a)), 0xFFFF_FFFE_0000_0000)
  {
  }

  lemma WidenedRoom(a: bv32)
    ensures Room(Widen(a), 32) && Room(Xor64(0x1_0000_0000, Widen(a)), 31)
  {
    HighBits32();
    WidenedApart(a);
    ClearHighBitsRoom(Widen(a), 32);
    ClearHighBitsRoom(Xor64(0x1_0000_0000, Widen(a)), 31);
  }

  /** The n lowest bits. */
  ghost function LowBits(n: nat): bv32 {
    if n == 0 then 0 else NextLow(LowBits(n - 1))
  }

  /** No bit at n or above. */
  ghost predicate Short(b: bv32, n: nat) {
    Within(b, LowBits(n))
  }

  lemma LowBitsLiterals()
    ensures LowBits(31) == 0x7FFF_FFFF && LowBits(32) == 0xFFFF_FFFF
  {
    assert LowBits(8) == 0xFF;
    assert LowBits(16) == 0xFFFF;
    assert LowBits(24) == 0xFF_FFFF;
    assert LowBits(28) == 0xFFF_FFFF;
  }

  lemma WithinAll(b: bv32)
    ensures Within(b, 0xFFFF_FFFF)
    ensures Within(b, 0x7FFF_FFFF) ==> !Top(b)
    ensures Within(b, 0) ==> b == 0
  {
  }

  lemma WithinHalf(b: bv32, m: bv32)
    requires Within(b, NextLow(m))
    ensures Within(Half(b), m)
  {
  }

  lemma WithinEven(q: bv32, m: bv32)
    requires Within(q, m)
    ensures Within(Double(q), NextLow(m))
  {
  }

  lemma WithinOdd(q: bv32, m: bv32)
    requires Within(q, m)
    ensures Within(Xor(Double(q), 1), NextLow(m))
  {
  }

  lemma WithinNext(q: bv32, m: bv32)
    requires Within(q, m)
    ensures Within(NextLow(q), NextLow(m))
  {
  }

  lemma WithinTransitive(b: bv32, m: bv32, m': bv32)
    requires Within(b, m) && Within(m, m')
    ensures Within(b, m')
  {
  }

  lemma AllShort(b: bv32)
    ensures Short(b, 32)
  {
    LowBitsLiterals();
    WithinAll(b);
  }

  lemma ShortHalf(b: bv32, n: nat)
    requires n > 0 && Short(b, n)
    ensures Short(Half(b), n - 1)
  {
    hide Within, NextLow, Half;
    WithinHalf(b, LowBits(n - 1));
  }

  lemma ShortZero(b: bv32)
    requires Short(b, 0)
    ensures b == 0
  {
    WithinAll(b);
  }

  lemma ShortDouble(q: bv32, t: bool, n: nat)
    requires Short(q, n)
    ensures Short(Xor(Double(q), Pick(t, 1)), n + 1)
  {
    hide Within, NextLow, Xor, Double;
    XorLaws(Double(q), 0);
    if t {
      WithinOdd(q, LowBits(n));
    } else {
      WithinEven(q, LowBits(n));
    }
  }

  lemma {:induction false} LowBitsGrow(n: nat)
    ensures Within(LowBits(n), LowBits(n + 1))
  {
    if n > 0 {
      hide Within, NextLow;
      LowBitsGrow(n - 1);
      WithinNext(LowBits(n - 1), LowBits(n));
    }
  }

  lemma {:induction false} ShortMore(b: bv32, n: nat, m: nat)
    requires Short(b, n) && n <= m
    ensures Short(b, m)
    decreases m
  {
    hide Within, NextLow;
    if n < m {
      ShortMore(b, n, m - 1);
      LowBitsGrow(m - 1);
      WithinTransitive(b, LowBits(m - 1), LowBits(m));
    }
  }

  lemma ShortTop(b: bv32, n: nat)
    requires Short(b, n) && n <= 31
    ensures !Top(b)
  {
    hide Within, NextLow, Top;
    ShortMore(b, n, 31);
    LowBits31();
    WithinAll(b);
  }

  lemma LowBits31()
    ensures LowBits(31) == 0x7FFF_FFFF
  {
    LowBitsLiterals();
  }

  // ----- coefficients -----

  /** The coefficient of x^k. */
  ghost function Coefficient(a: bv32, k: nat): bool {
    if k == 0 then Low(a) else Coefficient(Half(a), k - 1)
  }

  ghost function Coefficient64(a: bv64, k: nat): bool {
    if k == 0 then Low64(a) else Coefficient64(Half64(a), k - 1)
  }

  lemma {:induction false} CoefficientZero(k: nat)
    ensures !Coefficient(0, k) && !Coefficient64(0, k)
  {
    if k > 0 {
      CoefficientZero(k - 1);
    }
  }

  lemma {:induction false} CoefficientAdd(a: bv64, b: bv64, k: nat)
    ensures Coefficient64(Xor64(a, b), k) == (Coefficient64(a, k) != Coefficient64(b, k))
    decreases k
  {
    hide Xor64, Half64, Low64;
    Bits64Add(a, b);
    if k > 0 {
      Half64Add(a, b);
      CoefficientAdd(Half64(a), Half64(b), k - 1);
    }
  }

  lemma CoefficientDouble(a: bv64, k: nat)
    requires !Top64(a)
    ensures Coefficient64(Double64(a), k) == (k > 0 && Coefficient64(a, k - 1))
  {
    hide Double64, Half64, Low64, Top64;
    LowOfDouble(a);
    HalfOfDouble(a);
  }

  lemma {:induction false} CoefficientWiden(a: bv32, k: nat)
    ensures Coefficient64(Widen(a), k) == Coefficient(a, k)
    decreases k
  {
    hide Widen, Half64, Low64, Half, Low;
    LowOfWidened(a);
    if k > 0 {
      HalfOfWidened(a);
      CoefficientWiden(Half(a), k - 1);
    }
  }

  /** The first n terms of the textbook coefficient of x^k in a product. */
  ghost function Convolution(a: bv64, b: bv32, k: nat, n: nat): bool
    requires n <= k + 1
  {
    if n == 0 then false
    else Convolution(a, b, k, n - 1) != (Coefficient64(a, n - 1) && Coefficient(b, k - (n - 1)))
  }

  /** The textbook coefficient of x^k in a product: the parity of all a_i b_(k-i). */
  ghost predicate ProductCoefficient(a: bv64, b: bv32, k: nat) {
    Convolution(a, b, k, k + 1)
  }

  // ----- the carry-less product -----

  function Clmul(a: bv64, b: bv32): bv64
    decreases b
  {
    if b == 0 then 0
    else Xor64(Pick64(Low(b), a), Clmul(Double64(a), Half(b)))
  }

  lemma {:induction false} ConvolutionZero(a: bv64, k: nat, n: nat)
    requires n <= k + 1
    ensures !Convolution(a, 0, k, n)
  {
    if n > 0 {
      ConvolutionZero(a, k, n - 1);
      CoefficientZero(k - (n - 1));
    }
  }

  lemma {:induction false} ConvolutionShift(a: bv64, b: bv32, k: nat, n: nat)
    requires !Top64(a) && n <= k
    ensures Convolution(Double64(a), Half(b), k, n + 1) == Convolution(a, b, k, n)
    decreases n
  {
    hide Double64, Half, Top64, Low64, Low;
    CoefficientDouble(a, n);
    if n == 0 {
      assert !Convolution(Double64(a), Half(b), k, 0);
    } else {
      ConvolutionShift(a, b, k, n - 1);
    }
  }

  /** Every coefficient of the word product is the textbook one. */
  lemma {:induction false} ClmulCoefficient(a: bv64, b: bv32, k: nat, n: nat)
    requires Room(a, n) && Short(b, n)
    ensures Coefficient64(Clmul(a, b), k) == ProductCoefficient(a, b, k)
    decreases n
  {
    hide Xor64, Double64, Half, Low, Top64, Short, Low64, Half64;
    if b == 0 {
      CoefficientZero(k);
      ConvolutionZero(a, k, k + 1);
    } else {
      if n == 0 {
        ShortZero(b);
      }
      ShortHalf(b, n);
      var rest := Clmul(Double64(a), Half(b));
      ClmulCoefficient(Double64(a), Half(b), k, n - 1);
      ConvolutionShift(a, b, k, k);
      CoefficientAdd(Pick64(Low(b), a), rest, k);
      CoefficientZero(k);
    }
  }

  lemma Pick64Add(p: bool, a: bv64, b: bv64)
    ensures Pick64(p, Xor64(a, b)) == Xor64(Pick64(p, a), Pick64(p, b))
    ensures Pick64(p, Double64(a)) == Double64(Pick64(p, a))
  {
    Xor64Laws(0, 0);
    hide Xor64;
  }

  lemma {:induction false} ClmulDouble(a: bv64, b: bv32)
    ensures Clmul(Double64(a), b) == Double64(Clmul(a, b))
    decreases b
  {
    if b == 0 {
      assert Double64(0) == 0;
    } else {
      hide Xor64, Double64, Half, Low, Pick64;
      ClmulDouble(Double64(a), Half(b));
      Pick64Add(Low(b), a, a);
      Double64Add(Pick64(Low(b), a), Clmul(Double64(a), Half(b)));
    }
  }

  lemma ClmulHorner(a: bv64, b: bv32)
    ensures Clmul(a, b) == Xor64(Pick64(Low(b), a), Double64(Clmul(a, Half(b))))
  {
    if b == 0 {
      assert Double64(0) == 0;
    } else {
      hide Xor64, Double64, Half, Low, Pick64;
      ClmulDouble(a, Half(b));
    }
  }

  // ----- evaluation in the ring -----

  /** What a polynomial is in the ring: its value at x. */
  function Evaluate(v: bv64, c: bv32): bv32
    decreases v
  {
    if v == 0 then 0
    else Xor(Pick(Low64(v), 1), TimesX(Evaluate(Half64(v), c), c))
  }

  lemma EvaluateHorner(v: bv64, c: bv32)
    ensures Evaluate(v, c) == Xor(Pick(Low64(v), 1), TimesX(Evaluate(Half64(v), c), c))
  {
    if v == 0 {
      TimesXZero(c);
      assert Half64(0) == 0;
    }
  }

  lemma {:induction false} EvaluateAdd(u: bv64, v: bv64, c: bv32)
    ensures Evaluate(Xor64(u, v), c) == Xor(Evaluate(u, c), Evaluate(v, c))
    decreases u
  {
    if u == 0 {
      Xor64Laws(v, 0);
      XorLaws(Evaluate(v, c), 0);
    } else {
      hide Xor, Xor64, Low64, Half64, TimesX, Pick, Evaluate;
      EvaluateAdd(Half64(u), Half64(v), c);
      EvaluateHorner(u, c);
      EvaluateHorner(v, c);
      EvaluateHorner(Xor64(u, v), c);
      Half64Add(u, v);
      Bits64Add(u, v);
      PickAdd(Low64(u), Low64(v), 1, 1);
      TimesXAdd(Evaluate(Half64(u), c), Evaluate(Half64(v), c), c);
      XorExchange(Pick(Low64(u), 1), Pick(Low64(v), 1),
                  TimesX(Evaluate(Half64(u), c), c), TimesX(Evaluate(Half64(v), c), c));
    }
  }

  lemma EvaluateDouble(v: bv64, c: bv32)
    requires !Top64(v)
    ensures Evaluate(Double64(v), c) == TimesX(Evaluate(v, c), c)
  {
    hide Xor, Double64, Low64, Half64, TimesX, Evaluate, Top64;
    EvaluateHorner(Double64(v), c);
    LowOfDouble(v);
    HalfOfDouble(v);
    XorLaws(TimesX(Evaluate(v, c), c), 0);
  }

  lemma {:induction false} EvaluateWiden(a: bv32, c: bv32)
    ensures Evaluate(Widen(a), c) == a
    decreases a
  {
    WidenedZero(a);
    if a != 0 {
      hide Xor, Low64, Half64, TimesX, Widen, Half, Low;
      EvaluateWiden(Half(a), c);
      HalfOfWidened(a);
      LowOfWidened(a);
      LowAndHalf(a, c);
    }
  }

  lemma EvaluatePick(p: bool, a: bv64, c: bv32)
    ensures Evaluate(Pick64(p, a), c) == Pick(p, Evaluate(a, c))
  {
  }

  /** The ring product is the value of the carry-less product. */
  lemma {:induction false} EvaluateClmul(a: bv64, b: bv32, n: nat, c: bv32)
    requires Room(a, n) && Short(b, n)
    ensures Evaluate(Clmul(a, b), c) == Mul(Evaluate(a, c), b, c)
    decreases n
  {
    if b != 0 {
      hide Xor, Xor64, Double64, Half, TimesX, Low, Top64, Short, Evaluate;
      if n == 0 {
        ShortZero(b);
      }
      ShortHalf(b, n);
      EvaluateClmul(Double64(a), Half(b), n - 1, c);
      EvaluateDouble(a, c);
      EvaluateAdd(Pick64(Low(b), a), Clmul(Double64(a), Half(b)), c);
      EvaluatePick(Low(b), a, c);
    }
  }

  // ----- remainders -----

  /** The modulus x^32 + c. */
  function Modulus(c: bv32): bv64 {
    Xor64(0x1_0000_0000, Widen(c))
  }

  /** r is what is left of v after taking away q times the modulus; nothing is cut off. */
  ghost predicate IsRemainder(v: bv64, q: bv32, r: bv32, c: bv32) {
    Short(q, 31) && v == Xor64(Clmul(Modulus(c), q), Widen(r))
  }

  lemma HighPower(c: bv32)
    ensures Evaluate(0x1_0000_0000, c) == c
  {
    assert 0x1_0000_0000 == Double64(Widen(0x8000_0000)) && !Top64(Widen(0x8000_0000));
    EvaluateDouble(Widen(0x8000_0000), c);
    EvaluateWiden(0x8000_0000, c);
    XorLaws(c, 0);
    assert TimesX(0x8000_0000, c) == c;
  }

  lemma ModulusVanishes(c: bv32)
    ensures Evaluate(Modulus(c), c) == 0
  {
    hide Xor, Xor64, Evaluate, Widen;
    HighPower(c);
    EvaluateAdd(0x1_0000_0000, Widen(c), c);
    EvaluateWiden(c, c);
    XorLaws(c, c);
  }

  /** There is only one remainder, and it is the value in the ring. */
  lemma RemainderUnique(v: bv64, q: bv32, r: bv32, c: bv32)
    requires IsRemainder(v, q, r, c)
    ensures r == Evaluate(v, c)
  {
    hide Xor, Xor64, Evaluate, Widen, Clmul, Mul, Short;
    WidenedRoom(c);
    EvaluateClmul(Modulus(c), q, 31, c);
    ModulusVanishes(c);
    MulZero(q, c);
    EvaluateAdd(Clmul(Modulus(c), q), Widen(r), c);
    EvaluateWiden(r, c);
    XorLaws(r, 0);
  }

  lemma DoubledBits(r: bv32)
    ensures (r as bv64) << 1 == (if r & 0x8000_0000 != 0 then 0x1_0000_0000 as bv64 else 0) ^ ((r << 1) as bv64)
  {
  }

  /** Doubling a widened word is doubling the word, and keeping the bit that falls out. */
  lemma WidenDouble(r: bv32)
    ensures Double64(Widen(r)) == Xor64(Pick64(Top(r), 0x1_0000_0000), Widen(Double(r)))
  {
    calc {
      Double64(Widen(r));
      Double64(r as bv64);
      (r as bv64) << 1;
      { DoubledBits(r); }
      (if r & 0x8000_0000 != 0 then 0x1_0000_0000 as bv64 else 0) ^ ((r << 1) as bv64);
      Xor64(Pick64(Top(r), 0x1_0000_0000), (r << 1) as bv64);
      Xor64(Pick64(Top(r), 0x1_0000_0000), Widen(r << 1));
      Xor64(Pick64(Top(r), 0x1_0000_0000), Widen(Double(r)));
    }
  }

  lemma WidenTimesX(r: bv32, c: bv32)
    ensures Double64(Widen(r)) == Xor64(Pick64(Top(r), Modulus(c)), Widen(TimesX(r, c)))
  {
    WidenDouble(r);
    if Top(r) {
      hide Xor64, Widen, Double, Xor, Double64, Top;
      var h: bv64 := 0x1_0000_0000;
      WidenAdd(Double(r), c);
      Xor64Laws(h, Widen(c));
      Xor64Exchange(h, Widen(c), Widen(Double(r)), Widen(c));
      Xor64Laws(Widen(c), Widen(c));
      Xor64Laws(Xor64(h, Widen(Double(r))), 0);
    } else {
      hide Xor64, Widen, Double, Xor, Double64, Top;
      XorLaws(Double(r), 0);
      Xor64Laws(Widen(Double(r)), 0);
    }
  }

  // ----- existence of the remainder -----

  lemma ClmulAddRight(a: bv64, b: bv32, b': bv32)
    ensures Clmul(a, Xor(b, b')) == Xor64(Clmul(a, b), Clmul(a, b'))
    decreases b
  {
    if b == 0 {
      XorLaws(b', 0);
      Xor64Laws(Clmul(a, b'), 0);
    } else {
      hide Xor, Xor64, Double64, Half, Low, Pick64, Clmul;
      ClmulAddRight(a, Half(b), Half(b'));
      ClmulHorner(a, b);
      ClmulHorner(a, b');
      ClmulHorner(a, Xor(b, b'));
      HalfAdd(b, b');
      BitsAdd(b, b');
      Pick64AddBit(Low(b), Low(b'), a);
      Double64Add(Clmul(a, Half(b)), Clmul(a, Half(b')));
      Xor64Exchange(Pick64(Low(b), a), Pick64(Low(b'), a), Double64(Clmul(a, Half(b))), Double64(Clmul(a, Half(b'))));
    }
  }

  lemma Pick64AddBit(p: bool, q: bool, a: bv64)
    ensures Pick64(p != q, a) == Xor64(Pick64(p, a), Pick64(q, a))
  {
    Xor64Laws(a, a);
    Xor64Laws(a, 0);
    Xor64Laws(0, 0);
    hide Xor64;
  }

  lemma ClmulDoubleRight(a: bv64, q: bv32)
    requires !Top(q)
    ensures Clmul(a, Double(q)) == Double64(Clmul(a, q))
  {
    DoubledWord(q);
    hide Double64, Half, Low, Double;
    ClmulHorner(a, Double(q));
    Xor64Laws(Double64(Clmul(a, q)), 0);
  }

  lemma DoubledWord(q: bv32)
    requires !Top(q)
    ensures Half(Double(q)) == q && !Low(Double(q))
  {
  }

  lemma ClmulPick(a: bv64, t: bool)
    ensures Clmul(a, Pick(t, 1)) == Pick64(t, a)
  {
    ClmulHorner(a, Pick(t, 1));
    assert Half(1) == 0 && Double64(0) == 0;
    Xor64Laws(a, 0);
  }

  /** One Horner step of a division with remainder. */
  lemma RemainderStep(v: bv64, q: bv32, r: bv32, c: bv32, n: nat) returns (q': bv32)
    requires n < 31 && Short(q, n) && v == Xor64(Clmul(Modulus(c), q), Widen(r))
    ensures Short(q', n + 1) && Double64(v) == Xor64(Clmul(Modulus(c), q'), Widen(TimesX(r, c)))
  {
    hide Xor, Xor64, Double64, Half, Low, Pick64, Clmul, Modulus, Double, Top, Widen, TimesX, Short;
    var m, t := Modulus(c), Top(r);
    q' := Xor(Double(q), Pick(t, 1));
    ShortDouble(q, t, n);
    ShortTop(q, n);
    ClmulAddRight(m, Double(q), Pick(t, 1));
    ClmulDoubleRight(m, q);
    ClmulPick(m, t);
    Double64Add(Clmul(m, q), Widen(r));
    WidenTimesX(r, c);
    Xor64Associative(Double64(Clmul(m, q)), Pick64(t, m), Widen(TimesX(r, c)));
  }

  /** Dividing a carry-less product by the modulus leaves the ring product. */
  lemma {:induction false} ProductRemainder(a: bv32, b: bv32, c: bv32, n: nat) returns (q: bv32)
    requires n <= 31 && Short(b, n + 1)
    ensures Short(q, n) && Clmul(Widen(a), b) == Xor64(Clmul(Modulus(c), q), Widen(Mul(a, b, c)))
    decreases n
  {
    hide Xor, Xor64, Double64, Half, Low, Pick64, Clmul, Modulus, Widen, TimesX, Short, Mul;
    ShortHalf(b, n + 1);
    ClmulHorner(Widen(a), b);
    MulHorner(a, b, c);
    if n == 0 {
      ShortZero(Half(b));
      q := 0;
      OneBitProduct(a, c);
      ShortNothing();
      WidenPick(Low(b), a);
      XorLaws(Pick(Low(b), a), 0);
      Xor64Laws(Pick64(Low(b), Widen(a)), 0);
      ClmulZero(Modulus(c));
    } else {
      var q' := ProductRemainder(a, Half(b), c, n - 1);
      var r' := Mul(a, Half(b), c);
      q := RemainderStep(Clmul(Widen(a), Half(b)), q', r', c, n - 1);
      WidenPick(Low(b), a);
      WidenAdd(Pick(Low(b), a), TimesX(r', c));
      SwapFirst(Widen(Pick(Low(b), a)), Clmul(Modulus(c), q), Widen(TimesX(r', c)));
    }
  }

  lemma SwapFirst(a: bv64, b: bv64, d: bv64)
    ensures Xor64(a, Xor64(b, d)) == Xor64(b, Xor64(a, d))
  {
    hide Xor64;
    Xor64Associative(a, b, d);
    Xor64Laws(a, b);
    Xor64Associative(b, a, d);
  }

  lemma OneBitProduct(a: bv32, c: bv32)
    ensures Mul(a, 0, c) == 0 && TimesX(0, c) == 0
    ensures Clmul(Widen(a), 0) == 0 && Double64(0) == 0
  {
    TimesXZero(c);
  }

  lemma ClmulZero(a: bv64)
    ensures Clmul(a, 0) == 0
  {
  }

  lemma ShortNothing()
    ensures Short(0, 0)
  {
  }

  lemma WidenPick(t: bool, a: bv32)
    ensures Widen(Pick(t, a)) == Pick64(t, Widen(a))
  {
  }

  // ----- the main statement -----

  /** The first n terms of the textbook coefficient of x^k in the product of two words. */
  ghost function WordConvolution(a: bv32, b: bv32, k: nat, n: nat): bool
    requires n <= k + 1
  {
    if n == 0 then false
    else WordConvolution(a, b, k, n - 1) != (Coefficient(a, n - 1) && Coefficient(b, k - (n - 1)))
  }

  lemma {:induction false} ConvolutionOfWidened(a: bv32, b: bv32, k: nat, n: nat)
    requires n <= k + 1
    ensures Convolution(Widen(a), b, k, n) == WordConvolution(a, b, k, n)
  {
    hide Widen, Coefficient, Coefficient64;
    if n > 0 {
      ConvolutionOfWidened(a, b, k, n - 1);
      CoefficientWiden(a, n - 1);
    }
  }

  lemma ProductOfWidened(a: bv32, b: bv32, k: nat)
    ensures ProductCoefficient(Widen(a), b, k) == WordConvolution(a, b, k, k + 1)
  {
    ConvolutionOfWidened(a, b, k, k + 1);
  }

  /**
   The coefficients of the word product are the textbook ones, dividing it by the modulus leaves
   the ring product, and no other word can be left.
   */
  lemma MulIsReducedProduct(a: bv32, b: bv32, c: bv32)
    ensures forall k: nat :: Coefficient64(Clmul(Widen(a), b), k) == WordConvolution(a, b, k, k + 1)
    ensures exists q: bv32 :: IsRemainder(Clmul(Widen(a), b), q, Mul(a, b, c), c)
    ensures forall q: bv32, r: bv32 :: IsRemainder(Clmul(Widen(a), b), q, r, c) ==> r == Mul(a, b, c)
  {
    hide *;
    WidenedRoom(a);
    AllShort(b);
    forall k: nat ensures Coefficient64(Clmul(Widen(a), b), k) == WordConvolution(a, b, k, k + 1) {
      ClmulCoefficient(Widen(a), b, k, 32);
      ProductOfWidened(a, b, k);
    }
    var q := ProductRemainder(a, b, c, 31);
    RemainderFound(Clmul(Widen(a), b), q, Mul(a, b, c), c);
    forall q: bv32, r: bv32 | IsRemainder(Clmul(Widen(a), b), q, r, c) ensures r == Mul(a, b, c) {
      RemainderUnique(Clmul(Widen(a), b), q, r, c);
      EvaluateClmul(Widen(a), b, 32, c);
      EvaluateWiden(a, c);
    }
  }

  lemma RemainderFound(v: bv64, q: bv32, r: bv32, c: bv32)
    requires Short(q, 31) && v == Xor64(Clmul(Modulus(c), q), Widen(r))
    ensures IsRemainder(v, q, r, c)
  {
  }
}
