/**
 Modular exponentiation and extended-Euclid inversion of the kernel module
 (kernel/symmetrix-galois.c).
 */
module GaloisKernel {
  import opened MachineIntegers
  import opened NumberTheory
  import opened Wrappers

  datatype GaloisElement = GaloisElement(value: u64, modulus: u64)

  // ----- exponentiation -----

  /** One turn of square-and-multiply leaves result * b^e unchanged modulo m. */
  lemma SquareAndMultiply(result: int, b: int, e: nat, m: int)
    requires m > 0 && e > 0
    ensures var result' := if e % 2 == 1 then (result * b) % m else result;
            (result' * Pow((b * b) % m, e / 2)) % m == (result * Pow(b, e)) % m
  {
    var h := e / 2;
    var half := Pow(b, 2 * h);
    PowMod(b * b, h, m);
    PowSquare(b, h);
    if e % 2 == 1 {
      assert Pow(b, e) == b * half;
      ReduceBoth(result * b, Pow((b * b) % m, h), half, m);
      assert (result * b) * half == result * (b * half);
    } else {
      ReduceBoth(result, Pow((b * b) % m, h), half, m);
      ModMul(result, Pow((b * b) % m, h), m);
    }
  }

  lemma ReduceBoth(a: int, b: int, b': int, m: int)
    requires m > 0 && b % m == b' % m
    ensures ((a % m) * b) % m == (a * b') % m
  {
    ModMul(a, b, m);
    ModMulCongruent(b, b', a, m);
    assert a * b == b * a && a * b' == b' * a;
  }

  /** With modulus 1 and exponent 0 the code answers 1, which is why exponent 0 is set apart. */
  method GaloisPow(base: u64, exp: u64, mod: u64) returns (result: u64)
    requires mod > 0
    ensures result == if exp == 0 then 1 else Pow(base, exp) % mod
  {
    result := 1;
    var b: u64 := base % mod;
    var e: u64 := exp;
    PowMod(base, exp, mod);
    while e > 0
      invariant (result * Pow(b, e)) % mod == Pow(base, exp) % mod
      invariant e == exp ==> result == 1
      invariant e == 0 < exp ==> result < mod
      invariant result <= mod && e <= exp && b < mod
    {
      SquareAndMultiply(result, b, e, mod);
      if e % 2 == 1 {
        var wide: u128 := Wide(result, b);
        result := wide % mod;
      }
      var square: u128 := Wide(b, b);
      b := square % mod;
      e := e / 2;
    }
    if exp > 0 {
      ModSmall(result, mod);
    }
  }

  lemma ProductFits(x: int, y: int, c: int)
    requires 0 <= x <= c && 0 <= y <= c
    ensures 0 <= x * y <= c * c
  {
    assert x * y <= c * y && c * y <= c * c by {
      assert (c - x) * y >= 0 && c * (c - y) >= 0;
    }
  }

  /** The product of two 64-bit values fits 128 bits. */
  function Wide(x: u64, y: u64): (r: u128)
    ensures r == x * y
  {
    ProductFits(x, y, TWO_64 - 1);
    x * y
  }

  // ----- inversion -----

  function Abs(x: int): nat {
    if x < 0 then -x else x
  }

  /** The coefficients alternate in sign and keep a fixed weighted sum of magnitudes. */
  ghost predicate Balanced(oldR: int, r: int, oldS: int, s: int, total: int) {
    && (oldS <= 0 <= s || s <= 0 <= oldS)
    && Abs(s) * oldR + Abs(oldS) * r == total
  }

  lemma AlternatingStep(oldS: int, s: int, q: int)
    requires q >= 0 && (oldS <= 0 <= s || s <= 0 <= oldS)
    ensures Abs(q * s) == q * Abs(s) && Abs(oldS - q * s) == Abs(oldS) + q * Abs(s)
    ensures s <= 0 <= oldS - q * s || oldS - q * s <= 0 <= s
  {
    assert q * Abs(s) >= 0;
    if s < 0 {
      assert q * s == -(q * Abs(s));
    } else {
      assert q * s == q * Abs(s);
    }
  }

  lemma WeightedStep(x: int, y: int, q: int, r: int, r': int)
    requires x >= 0 && y >= 0 && q >= 0 && r >= 1 && r' >= 0
    ensures x * (q * r + r') + y * r == (y + q * x) * r + x * r' >= y + q * x
  {
    var z := y + q * x;
    assert z * r == y * r + q * x * r;
    assert x * (q * r + r') == q * x * r + x * r';
    assert x * r' >= 0 && z >= 0;
    assert z * r >= z by {
      assert z * (r - 1) >= 0;
    }
  }

  lemma BalancedStep(oldR: int, r: int, oldS: int, s: int, total: int, q: int)
    requires Balanced(oldR, r, oldS, s, total) && oldR >= 0 && r > 0 && q == oldR / r
    ensures Balanced(r, oldR - q * r, s, oldS - q * s, total)
    ensures Abs(q * s) <= Abs(oldS - q * s) <= total
  {
    QuotientAtLeast(oldR, r, 0);
    DivisionIdentity(oldR, r);
    Commute(r, q);
    AlternatingStep(oldS, s, q);
    BalancedSum(oldR, r, oldR - q * r, Abs(oldS), Abs(s), q, total);
    hide Abs;
  }

  lemma Commute(a: int, b: int)
    ensures a * b == b * a
  {
  }

  /** The weighted sum and its bound, on magnitudes. */
  lemma BalancedSum(oldR: int, r: int, r': int, y: int, x: int, q: int, total: int)
    requires x >= 0 && y >= 0 && q >= 0 && r >= 1 && r' >= 0 && oldR == q * r + r' && x * oldR + y * r == total
    ensures (y + q * x) * r + x * r' == total >= y + q * x
  {
    WeightedStep(x, y, q, r, r');
  }

  /** The pairs (oldR, r) and (x, y) have the same common divisors. */
  ghost predicate SameDivisors(oldR: int, r: int, x: int, y: int) {
    forall d | d > 0 :: Divides(d, oldR) && Divides(d, r) <==> Divides(d, x) && Divides(d, y)
  }

  lemma SameDivisorsStep(oldR: int, r: int, x: int, y: int, q: int)
    requires SameDivisors(oldR, r, x, y)
    ensures SameDivisors(r, oldR - q * r, x, y)
  {
    var r' := oldR - q * r;
    forall d | d > 0
      ensures Divides(d, r) && Divides(d, r') <==> Divides(d, oldR) && Divides(d, r)
    {
      if Divides(d, r) {
        DividesTimes(d, r, q);
        if Divides(d, r') {
          DividesSum(d, r', q * r);
        }
        if Divides(d, oldR) {
          DividesSum(d, oldR, q * r);
        }
      }
    }
  }

  lemma CombinationStep(x: int, y: int, oldR: int, r: int, oldS: int, s: int, oldT: int, t: int, q: int)
    requires oldR == oldS * x + oldT * y && r == s * x + t * y
    ensures oldR - q * r == (oldS - q * s) * x + (oldT - q * t) * y
  {
    assert q * r == (q * s) * x + (q * t) * y by {
      assert q * (s * x + t * y) == q * (s * x) + q * (t * y);
    }
  }

  lemma ZeroNotInvertible(m: int)
    requires m > 1
    ensures !Coprime(0, m)
  {
    MultipleIsZeroMod(0, m);
    MultipleIsZeroMod(1, m);
    assert Divides(m, 0) && Divides(m, m);
  }

  /** When Euclid's loop ends, the last divisor is 1 exactly for coprime inputs. */
  lemma LastDivisor(x: int, y: int, g: int, s: int, t: int)
    requires g > 0 && SameDivisors(g, 0, x, y) && g == s * x + t * y
    ensures g == 1 <==> Coprime(x, y)
  {
    MultipleIsZeroMod(1, g);
    MultipleIsZeroMod(0, g);
    assert Divides(g, g) && Divides(g, 0);
    if g == 1 {
      forall d | d > 0 && Divides(d, x) && Divides(d, y) ensures d == 1 {
        assert Divides(d, g);
        if d > 1 {
          ModSmall(1, d);
        }
      }
    }
  }

  /** A coefficient of the value, shifted into range, is its inverse. */
  lemma CoefficientIsInverse(x: int, m: int, s: int, t: int)
    requires m > 1 && s * x + t * m == 1 && Abs(s) <= m
    ensures var v := if s < 0 then s + m else s;
            0 <= v < m && (x * v) % m == 1
  {
    var v := if s < 0 then s + m else s;
    var k := if s < 0 then x - t else -t;
    assert x * v == 1 + k * m;
    ModOfMultiple(1, k, m);
    ModSmall(1, m);
    if v == m {
      assert x * v == x * m;
      MultipleIsZeroMod(x, m);
    }
  }

  /** What Euclid's loop keeps about its six variables. */
  ghost predicate EuclidInvariant(x: int, m: int, oldR: int, r: int, oldS: int, s: int, oldT: int, t: int) {
    && 0 <= r && 0 <= oldR && oldR + r > 0
    && Balanced(oldR, r, oldS, s, m) && Balanced(oldR, r, oldT, t, x)
    && oldR == oldS * x + oldT * m && r == s * x + t * m
    && SameDivisors(oldR, r, x, m)
    && (m > 0 ==> Abs(oldS) <= m && Abs(s) <= m)
  }

  lemma QuotientBounds(oldR: int, r: int)
    requires oldR >= 0 && r > 0
    ensures var q := oldR / r;
            0 <= q <= oldR && 0 <= q * r <= oldR && 0 <= oldR - q * r < r
  {
    var q := oldR / r;
    DivisionIdentity(oldR, r);
    if q < 0 {
      MulAtLeast(r, -q);
    } else if q > 0 {
      MulAtLeast(q, r);
    }
    assert q * r == r * q;
  }

  lemma EuclidStep(x: int, m: int, oldR: int, r: int, oldS: int, s: int, oldT: int, t: int)
    requires EuclidInvariant(x, m, oldR, r, oldS, s, oldT, t) && r > 0
    ensures var q := oldR / r;
            && EuclidInvariant(x, m, r, oldR - q * r, s, oldS - q * s, t, oldT - q * t)
            && 0 <= q <= oldR && 0 <= q * r <= oldR && oldR - q * r < r
            && Abs(q * s) <= m && Abs(oldS - q * s) <= m
            && Abs(q * t) <= x && Abs(oldT - q * t) <= x
  {
    var q := oldR / r;
    QuotientBounds(oldR, r);
    BalancedStep(oldR, r, oldS, s, m, q);
    BalancedStep(oldR, r, oldT, t, x, q);
    SameDivisorsStep(oldR, r, x, m, q);
    CombinationStep(x, m, oldR, r, oldS, s, oldT, t, q);
  }

  /** What the last divisor and its coefficient say about invertibility. */
  lemma EuclidEnd(x: int, m: int, g: int, s: int, s': int, t: int, t': int)
    requires m > 1 && EuclidInvariant(x, m, g, 0, s, s', t, t')
    ensures g > 1 ==> !Coprime(x, m)
    ensures g <= 1 ==> Coprime(x, m)
    ensures var v := if s < 0 then s + m else s;
            g <= 1 ==> 0 <= v < m && (x * v) % m == 1
  {
    LastDivisor(x, m, g, s, t);
    if g == 1 {
      CoefficientIsInverse(x, m, s, t);
    }
  }

  /** The few states of Euclid's loop for the moduli 0 and 1. */
  ghost predicate TinyModulus(x: int, m: int, oldR: int, r: int, oldS: int, s: int) {
    || (oldR == m && r == x && oldS == 0 && s == 1)
    || (m == 0 && oldR == x && r == 0 && oldS == 1 && s == 0)
    || (m == 1 && x == 1 && oldR == 1 && r == 0 && oldS == 1 && s == -1)
    || (m == 1 && x > 1 && oldR == x && r == 1 && oldS == 1 && s == 0)
    || (m == 1 && x > 1 && oldR == 1 && r == 0 && oldS == 0 && s == 1)
  }

  lemma TinyStep(x: int, m: int, oldR: int, r: int, oldS: int, s: int)
    requires 0 <= m <= 1 && x > 0 && r > 0 && TinyModulus(x, m, oldR, r, oldS, s)
    ensures TinyModulus(x, m, r, oldR - oldR / r * r, s, oldS - oldR / r * s)
  {
    if oldR == m && r == x {
      if x > m {
        DivModUnique(m, x, 0, m);
      } else {
        DivModUnique(1, 1, 1, 0);
      }
    } else {
      DivModUnique(x, 1, x, 0);
    }
  }

  /** What the loop keeps, for every modulus. */
  ghost predicate LoopState(x: int, m: int, oldR: int, r: int, oldS: int, s: int, oldT: int, t: int) {
    EuclidInvariant(x, m, oldR, r, oldS, s, oldT, t) && (m <= 1 ==> TinyModulus(x, m, oldR, r, oldS, s))
  }

  lemma LoopStart(x: int, m: int)
    requires x > 0 && m >= 0
    ensures LoopState(x, m, m, x, 0, 1, 1, 0)
  {
    assert SameDivisors(m, x, x, m);
  }

  lemma LoopTurn(x: int, m: int, oldR: int, r: int, oldS: int, s: int, oldT: int, t: int)
    requires x > 0 && m >= 0 && LoopState(x, m, oldR, r, oldS, s, oldT, t) && r > 0
    ensures var q := oldR / r;
            && LoopState(x, m, r, oldR - q * r, s, oldS - q * s, t, oldT - q * t)
            && 0 <= q <= oldR && 0 <= q * r <= oldR && 0 <= oldR - q * r < r
            && -m <= q * s <= m && -m <= oldS - q * s <= m
            && -x <= q * t <= x && -x <= oldT - q * t <= x
  {
    hide EuclidInvariant, TinyModulus, Abs;
    EuclidStep(x, m, oldR, r, oldS, s, oldT, t);
    var q := oldR / r;
    AbsBound(q * s, m);
    AbsBound(oldS - q * s, m);
    AbsBound(q * t, x);
    AbsBound(oldT - q * t, x);
    if m <= 1 {
      TinyStep(x, m, oldR, r, oldS, s);
    }
  }

  lemma AbsBound(x: int, m: int)
    ensures Abs(x) <= m <==> -m <= x <= m
  {
  }

  /** The code's answer from the last divisor and its coefficient. */
  function AnswerOf(m: int, oldR: int, oldS: int): int {
    if oldR > 1 then 0 else if oldS < 0 then oldS + m else oldS
  }

  lemma TinyEnd(x: int, m: int, oldR: int, oldS: int, s: int)
    requires x > 0 && 0 <= m <= 1 && TinyModulus(x, m, oldR, 0, oldS, s)
    ensures AnswerOf(m, oldR, oldS) == (if x == 1 then 1 else 0) && 0 <= oldS <= 1
  {
  }

  /** The answer when the loop has ended. */
  lemma LoopEnd(x: int, m: int, oldR: int, oldS: int, s: int, oldT: int, t: int)
    requires x > 0 && m >= 0 && LoopState(x, m, oldR, 0, oldS, s, oldT, t)
    ensures var v := AnswerOf(m, oldR, oldS);
            && -m <= oldS <= m + 1 && 0 <= v
            && (m > 1 && Coprime(x, m) ==> v < m && (x * v) % m == 1)
            && (m > 1 && !Coprime(x, m) ==> v == 0)
            && (m <= 1 ==> v == if x == 1 then 1 else 0)
  {
    if m > 1 {
      assert -m <= oldS <= m;
      hide EuclidInvariant, Coprime;
      EuclidEnd(x, m, oldR, oldS, s, oldT, t);
    } else {
      hide EuclidInvariant, TinyModulus, Coprime;
      TinyEnd(x, m, oldR, oldS, s);
    }
  }

  // ----- the loop as a function, for all 64-bit inputs -----

  /** The quotient truncated toward zero. */
  function TruncDiv(a: int, b: int): int
    requires b != 0
  {
    var q := Abs(a) / Abs(b);
    if (a < 0) == (b < 0) then q else -q
  }

  lemma Signs(q: int, y: int)
    ensures (-q) * y == -(q * y) && q * -y == -(q * y) && (-q) * -y == q * y && q * y == y * q
  {
  }

  lemma TruncRemainder(a: int, b: int)
    requires b != 0
    ensures Abs(a - TruncDiv(a, b) * b) < Abs(b)
  {
    DivisionIdentity(Abs(a), Abs(b));
    Signs(Abs(a) / Abs(b), Abs(b));
  }

  /** The quotient's magnitude is rounded down, its sign is that of a true quotient. */
  lemma TruncatesTowardZero(a: int, b: int)
    requires b != 0
    ensures var q := TruncDiv(a, b);
            && Abs(q) * Abs(b) <= Abs(a) < (Abs(q) + 1) * Abs(b)
            && (q > 0 ==> (a < 0) == (b < 0)) && (q < 0 ==> (a < 0) != (b < 0))
  {
    var x, y := Abs(a), Abs(b);
    QuotientAtLeast(x, y, 0);
    DivisionIdentity(x, y);
    MagnitudeBounds(x, y, x / y, x % y);
    assert Abs(TruncDiv(a, b)) == x / y;
  }

  lemma MagnitudeBounds(x: nat, y: nat, q: nat, r: nat)
    requires x == y * q + r && r < y
    ensures q * y <= x < (q + 1) * y
  {
    assert q * y == y * q && (q + 1) * y == y * q + y;
  }

  /** Euclid's loop from any state: the last divisor and its coefficient, unless a division stops the machine. */
  function EuclidRun(oldR: int, r: int, oldS: s64, s: s64): Option<(int, s64)>
    decreases Abs(r)
  {
    if r == 0 then Some((oldR, oldS))
    else if oldR == -TWO_63 && r == -1 then None
    else
      var q := TruncDiv(oldR, r);
      TruncRemainder(oldR, r);
      EuclidRun(r, oldR - q * r, s, WrapSigned(oldS - q * s))
  }

  /** What the code answers. */
  function CodeInverse(value: u64, modulus: u64): Option<u64> {
    if value == 0 then Some(0)
    else
      match EuclidRun(AsSigned(modulus), AsSigned(value), 0, 1)
      case None => None
      case Some((g, s)) => Some(if g > 1 then 0 else Wrap64(if s < 0 then s + modulus else s))
  }

  lemma SmallSigned(x: int)
    requires -TWO_63 <= x < TWO_63
    ensures WrapSigned(x) == x
  {
    if x < 0 {
      ModOfMultiple(x + TWO_64, -1, TWO_64);
      Wrap64Small(x + TWO_64);
    } else {
      Wrap64Small(x);
    }
  }

  /** While all numbers are in range a turn neither truncates a negative quotient nor wraps. */
  lemma RunTurn(oldR: int, r: int, oldS: s64, s: s64)
    requires oldR >= 0 && r > 0 && -TWO_63 <= oldS - oldR / r * s < TWO_63
    ensures EuclidRun(oldR, r, oldS, s) == EuclidRun(r, oldR - oldR / r * r, s, oldS - oldR / r * s)
  {
    QuotientAtLeast(oldR, r, 0);
    SmallSigned(oldS - oldR / r * s);
  }

  /** The loop is on its way from the start. */
  ghost predicate OnRun(x: int, m: int, oldR: int, r: int, oldS: s64, s: s64) {
    EuclidRun(oldR, r, oldS, s) == EuclidRun(m, x, 0, 1)
  }

  lemma RunStarts(x: int, m: int)
    ensures OnRun(x, m, m, x, 0, 1)
  {
  }

  lemma RunGoesOn(x: int, m: int, oldR: int, r: int, oldS: s64, s: s64)
    requires OnRun(x, m, oldR, r, oldS, s)
    requires oldR >= 0 && r > 0 && -TWO_63 <= oldS - oldR / r * s < TWO_63
    ensures OnRun(x, m, r, oldR - oldR / r * r, s, oldS - oldR / r * s)
  {
    hide EuclidRun;
    RunTurn(oldR, r, oldS, s);
  }

  lemma RunEnds(x: int, m: int, oldR: int, oldS: s64, s: s64)
    requires 0 < x < TWO_63 && 0 <= m < TWO_63 && OnRun(x, m, oldR, 0, oldS, s)
    requires 0 <= AnswerOf(m, oldR, oldS) < TWO_64
    ensures CodeInverse(x, m) == Some(AnswerOf(m, oldR, oldS))
  {
    assert EuclidRun(oldR, 0, oldS, s) == Some((oldR, oldS));
    Wrap64Small(AnswerOf(m, oldR, oldS));
    hide EuclidRun, Wrap64;
  }

  /**
   Every s64 operation is checked to stay in range, for all values and moduli that s64 can hold.
   The moduli 0 and 1 have no inverses to offer; the code then answers 1 for the value 1 and else 0.
   */
  method GaloisInv(a: GaloisElement) returns (result: GaloisElement)
    requires a.value < TWO_63 && a.modulus < TWO_63
    ensures result.modulus == a.modulus && CodeInverse(a.value, a.modulus) == Some(result.value)
    ensures a.modulus > 1 && Coprime(a.value, a.modulus) ==>
              result.value < a.modulus && (a.value * result.value) % a.modulus == 1
    ensures a.modulus > 1 && !Coprime(a.value, a.modulus) ==> result.value == 0
    ensures a.modulus <= 1 ==> result.value == if a.value == 1 then 1 else 0
  {
    var x, m := a.value, a.modulus;
    if x == 0 {
      if m > 1 {
        ZeroNotInvertible(m);
      }
      hide EuclidRun, Coprime;
      return GaloisElement(0, m);
    }
    hide LoopState, Coprime, OnRun, CodeInverse;
    var oldR: s64, r: s64 := m, x;
    var oldS: s64, s: s64 := 0, 1;
    var oldT: s64, t: s64 := 1, 0;
    LoopStart(x, m);
    RunStarts(x, m);
    while r != 0
      invariant 0 <= r && 0 <= oldR && LoopState(x, m, oldR, r, oldS, s, oldT, t)
      invariant OnRun(x, m, oldR, r, oldS, s)
      decreases r
    {
      LoopTurn(x, m, oldR, r, oldS, s, oldT, t);
      RunGoesOn(x, m, oldR, r, oldS, s);
      var quotient: s64 := oldR / r;
      var taken: s64 := quotient * r;
      r, oldR := oldR - taken, r;
      taken := quotient * s;
      s, oldS := oldS - taken, s;
      taken := quotient * t;
      t, oldT := oldT - taken, t;
    }
    LoopEnd(x, m, oldR, oldS, s, oldT, t);
    RunEnds(x, m, oldR, oldS, s);
    if oldR > 1 {
      return GaloisElement(0, m);
    }
    var coefficient: s64 := oldS;
    if coefficient < 0 {
      coefficient := coefficient + m;
    }
    return GaloisElement(coefficient, m);
  }
}
