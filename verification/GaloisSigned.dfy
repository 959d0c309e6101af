/**
 For which moduli the kernel's inverse (kernel/symmetrix-galois.c) may be asked at all. It keeps
 unsigned 64-bit numbers in signed variables. Here they are converted modulo 2^64, as GCC and Clang
 do, and the coefficients wrap, as the kernel has them compiled; the one division that does not fit
 stops the machine.
 */
module GaloisSigned {
  import opened MachineIntegers
  import opened NumberTheory
  import opened GaloisKernel
  import opened Wrappers

  /** The answer is the inverse in range if there is one, and 0 otherwise. */
  ghost predicate Inverts(value: u64, modulus: u64)
    requires modulus > 1
  {
    && CodeInverse(value, modulus).Some?
    && var v := CodeInverse(value, modulus).value;
       if Coprime(value, modulus) then v < modulus && (value * v) % modulus == 1 else v == 0
  }

  /** The division that does not fit, at once or after a turn: dividing the least number by -1. */
  lemma DivisionStops()
    ensures CodeInverse(TWO_64 - 1, TWO_63) == None && CodeInverse(TWO_63, TWO_64 - 1) == None
  {
    DivModUnique(1, TWO_63, 0, 1);
    SmallSigned(0);
    SmallSigned(1);
    assert TruncDiv(-1, -TWO_63) == 0;
    assert EuclidRun(-TWO_63, -1, 0, 1) == None && EuclidRun(-TWO_63, -1, 1, 0) == None;
    assert EuclidRun(-1, -TWO_63, 0, 1) == EuclidRun(-TWO_63, -1, 1, 0);
  }

  // ----- below 2^63 -----

  /** Below 2^63 the loop is the one without any wrapping, and ends as that one does. */
  lemma {:induction false} RunInverts(x: int, m: int, oldR: int, r: int, oldS: s64, s: s64, oldT: int, t: int)
    requires 0 < x < TWO_63 && 1 < m < TWO_63 && 0 <= r && 0 <= oldR
    requires LoopState(x, m, oldR, r, oldS, s, oldT, t)
    ensures EuclidRun(oldR, r, oldS, s).Some?
    ensures var (g, c) := EuclidRun(oldR, r, oldS, s).value;
            var v := AnswerOf(m, g, c);
            0 <= v && if Coprime(x, m) then v < m && (x * v) % m == 1 else v == 0
    decreases r
  {
    hide LoopState, Coprime;
    if r == 0 {
      LoopEnd(x, m, oldR, oldS, s, oldT, t);
    } else {
      LoopTurn(x, m, oldR, r, oldS, s, oldT, t);
      var q := oldR / r;
      RunTurn(oldR, r, oldS, s);
      RunInverts(x, m, r, oldR - q * r, s, oldS - q * s, t, oldT - q * t);
    }
  }

  lemma InvertsBelow(value: u64, modulus: u64)
    requires value < TWO_63 && 1 < modulus < TWO_63
    ensures Inverts(value, modulus)
  {
    if value == 0 {
      ZeroNotInvertible(modulus);
    } else {
      LoopStart(value, modulus);
      hide LoopState, Coprime, EuclidRun, Wrap64;
      RunInverts(value, modulus, modulus, value, 0, 1, 1, 0);
      var (g, c) := EuclidRun(modulus, value, 0, 1).value;
      var v := AnswerOf(modulus, g, c);
      if Coprime(value, modulus) {
        Wrap64Small(v);
      }
    }
  }

  // ----- from 2^63 up -----

  /** One less than the modulus is its own inverse. */
  lemma LastIsCoprime(m: int)
    requires m > 1
    ensures Coprime(m - 1, m)
  {
    forall d | d > 0 && Divides(d, m - 1) && Divides(d, m) ensures d == 1 {
      DividesSum(d, m, m - 1);
      if d > 1 {
        ModSmall(1, d);
      }
    }
  }

  /** But the code gives 1, or 0, for it. */
  lemma LastAnswer(m: u64)
    requires m >= TWO_63
    ensures CodeInverse(m - 1, m) == Some(if m == TWO_64 - 1 then 0 else 1)
  {
    var a, b := AsSigned(m), AsSigned(m - 1);
    Wrap64Small(0);
    Wrap64Small(1);
    if m == TWO_63 {
      FromTwo63();
    } else if m == TWO_64 - 1 {
      FromMinusOne();
    } else {
      assert a == m - TWO_64 && b == a - 1;
      FromNegative(a);
    }
  }

  lemma FromTwo63()
    ensures EuclidRun(-TWO_63, TWO_63 - 1, 0, 1) == Some((-1, 1))
  {
    var b := TWO_63 - 1;
    DivModUnique(TWO_63, b, 1, 1);
    DivModUnique(b, 1, b, 0);
    SmallSigned(1);
    assert TruncDiv(-TWO_63, b) == -1 && TruncDiv(b, -1) == -b;
    assert EuclidRun(-1, 0, 1, WrapSigned(1 + b)) == Some((-1, 1));
    assert EuclidRun(b, -1, 1, 1) == Some((-1, 1));
  }

  lemma FromMinusOne()
    ensures EuclidRun(-1, -2, 0, 1) == Some((-1, 0))
  {
    SmallSigned(0);
    SmallSigned(1);
    assert TruncDiv(-1, -2) == 0 && TruncDiv(-2, -1) == 2;
    assert EuclidRun(-1, 0, 0, WrapSigned(1)) == Some((-1, 0));
    assert EuclidRun(-2, -1, 1, 0) == Some((-1, 0));
  }

  lemma FromNegative(a: int)
    requires -TWO_63 < a <= -2
    ensures EuclidRun(a, a - 1, 0, 1) == Some((-1, 1))
  {
    DivModUnique(-a, 1 - a, 0, -a);
    DivModUnique(1 - a, -a, 1, 1);
    DivModUnique(-a, 1, -a, 0);
    SmallSigned(0);
    SmallSigned(1);
    assert TruncDiv(a, a - 1) == 0 && TruncDiv(a - 1, a) == 1 && TruncDiv(a, -1) == -a;
    assert EuclidRun(-1, 0, 1, WrapSigned(a)) == Some((-1, 1));
    assert EuclidRun(a, -1, 0, 1) == Some((-1, 1));
    assert EuclidRun(a - 1, a, 1, 0) == Some((-1, 1));
  }

  lemma LastIsLost(m: u64)
    requires m >= TWO_63
    ensures !Inverts(m - 1, m)
  {
    LastIsCoprime(m);
    LastAnswer(m);
    ModSmall(m - 1, m);
    ModSmall(0, m);
    hide CodeInverse;
    assert (m - 1) * 1 == m - 1 && (m - 1) * 0 == 0;
  }

  /** All reduced elements of a modulus are answered rightly exactly if the modulus is below 2^63. */
  lemma ServesIff(modulus: u64)
    requires modulus > 1
    ensures (forall value: u64 | value < modulus :: Inverts(value, modulus)) <==> modulus < TWO_63
  {
    hide Inverts;
    if modulus < TWO_63 {
      forall value: u64 | value < modulus ensures Inverts(value, modulus) {
        InvertsBelow(value, modulus);
      }
    } else {
      LastIsLost(modulus);
      var last: u64 := modulus - 1;
      assert !Inverts(last, modulus);
    }
  }
}
