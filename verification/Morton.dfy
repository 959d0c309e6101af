/**
 Morton order (symmetrix_morton_encode_2d in kernel/symmetrix-core.c) and the index that the tensor
 allocator derives from a size. Words are natural numbers; the bit operations are written out.
 */
module Morton {
  import opened MachineIntegers
  import opened NumberTheory

  function Bit(x: nat, i: nat): (b: nat)
    ensures b <= 1
  {
    x / Pow2(i) % 2
  }

  function BitOr(a: nat, b: nat): nat {
    if a == 0 then b else if b == 0 then a
    else (if a % 2 == 1 || b % 2 == 1 then 1 else 0) + 2 * BitOr(a / 2, b / 2)
  }

  function BitAnd(a: nat, b: nat): nat {
    if a == 0 || b == 0 then 0
    else (if a % 2 == 1 && b % 2 == 1 then 1 else 0) + 2 * BitAnd(a / 2, b / 2)
  }

  // ----- bit operations as arithmetic -----

  lemma FourTimes(n: nat, k: nat, m: nat)
    requires k == 2 * n && m == k + 2
    ensures Pow2(m) == 4 * Pow2(k) && m == 2 * (n + 1)
  {
    Pow2Next(k);
    Pow2Next(k + 1);
  }

  /** Halving a number drops its lowest bit. */
  lemma BitOfHalf(x: nat, i: nat)
    ensures Bit(x / 2, i) == Bit(x, i + 1)
  {
    DivDiv(x, 2, Pow2(i));
  }

  lemma DivDiv(x: nat, a: nat, b: nat)
    requires a > 0 && b > 0
    ensures a * b > 0 && x / a / b == x / (a * b)
  {
    var q, r := x / a, x % a;
    var q', r' := q / b, q % b;
    DivisionIdentity(x, a);
    DivisionIdentity(q, b);
    assert a * q == a * (b * q') + a * r';
    assert a * (b * q') == a * b * q';
    MulOrder(r', b - 1, a);
    assert r' * a == a * r' && (b - 1) * a == a * b - a;
    DivModUnique(x, a * b, q', a * r' + r);
  }

  lemma BitOfSum(b: nat, rest: nat, i: nat)
    requires b <= 1 && i > 0
    ensures Bit(b + 2 * rest, i) == Bit(rest, i - 1)
  {
    DivModUnique(b + 2 * rest, 2, rest, b);
    BitOfHalf(b + 2 * rest, i - 1);
  }

  lemma LowestOfSum(b: nat, rest: nat)
    requires b <= 1
    ensures Bit(b + 2 * rest, 0) == b
  {
    LowestBit(b + 2 * rest);
    DivModUnique(b + 2 * rest, 2, rest, b);
  }

  lemma BitOfZero(i: nat)
    ensures Bit(0, i) == 0
  {
    PowPositive(2, i);
    DivModUnique(0, Pow2(i), 0, 0);
  }

  /** Each bit of the two operations is that of the operands' bits. */
  lemma {:induction false} BitwiseOr(a: nat, b: nat, i: nat)
    ensures Bit(BitOr(a, b), i) == if Bit(a, i) == 1 || Bit(b, i) == 1 then 1 else 0
    decreases i
  {
    BitOfZero(i);
    if a != 0 && b != 0 {
      var low, rest := if a % 2 == 1 || b % 2 == 1 then 1 else 0, BitOr(a / 2, b / 2);
      LowestBit(a);
      LowestBit(b);
      if i == 0 {
        LowestOfSum(low, rest);
      } else {
        BitwiseOr(a / 2, b / 2, i - 1);
        hide Bit;
        BitOfSum(low, rest, i);
        BitOfHalf(a, i - 1);
        BitOfHalf(b, i - 1);
      }
    }
  }

  lemma {:induction false} BitwiseAnd(a: nat, b: nat, i: nat)
    ensures Bit(BitAnd(a, b), i) == if Bit(a, i) == 1 && Bit(b, i) == 1 then 1 else 0
    decreases i
  {
    BitOfZero(i);
    if a != 0 && b != 0 {
      var low, rest := if a % 2 == 1 && b % 2 == 1 then 1 else 0, BitAnd(a / 2, b / 2);
      LowestBit(a);
      LowestBit(b);
      if i == 0 {
        LowestOfSum(low, rest);
      } else {
        BitwiseAnd(a / 2, b / 2, i - 1);
        hide Bit;
        BitOfSum(low, rest, i);
        BitOfHalf(a, i - 1);
        BitOfHalf(b, i - 1);
      }
    }
  }

  /** The mask of one bit. */
  lemma {:induction false} AndBit(x: nat, i: nat)
    ensures BitAnd(x, Pow2(i)) == Bit(x, i) * Pow2(i)
  {
    if i == 0 {
      Pow2Words();
      assert BitAnd(x / 2, 0) == 0;
    } else if x > 0 {
      AndBit(x / 2, i - 1);
      BitOfHalf(x, i - 1);
      assert Pow2(i) / 2 == Pow2(i - 1) && Pow2(i) % 2 == 0;
      assert Bit(x, i) * Pow2(i) == 2 * (Bit(x, i) * Pow2(i - 1));
    } else {
      assert 0 / Pow2(i) == 0;
    }
  }

  lemma LowStep(x: nat, p: nat)
    requires p > 0
    ensures x % (2 * p) == x % 2 + 2 * (x / 2 % p)
  {
    var q, r := x / 2 / p, x / 2 % p;
    DivisionIdentity(x / 2, p);
    assert 2 * (p * q) == 2 * p * q;
    DivModUnique(x, 2 * p, q, 2 * r + x % 2);
  }

  /** The mask of the low bits. */
  lemma {:induction false} AndLow(x: nat, k: nat)
    ensures BitAnd(x, Pow2(k) - 1) == x % Pow2(k)
  {
    if k > 0 && x > 0 {
      AndLow(x / 2, k - 1);
      LowStep(x, Pow2(k - 1));
      var mask := Pow2(k) - 1;
      assert mask / 2 == Pow2(k - 1) - 1 && mask % 2 == 1;
      hide Pow2;
      assert BitAnd(x, mask) == x % 2 + 2 * BitAnd(x / 2, mask / 2);
    } else if k == 0 {
      Pow2Words();
    } else {
      ModSmall(0, Pow2(k));
    }
  }

  /** b shifted left by k. */
  function Shifted(b: nat, k: nat): nat {
    if k == 0 then b else 2 * Shifted(b, k - 1)
  }

  lemma {:induction false} ShiftedIsProduct(b: nat, k: nat)
    ensures Shifted(b, k) == b * Pow2(k)
  {
    if k == 0 {
      Pow2Words();
    } else {
      ShiftedIsProduct(b, k - 1);
      Pow2Next(k - 1);
      Associate(b, 2, Pow2(k - 1));
      Associate(2, b, Pow2(k - 1));
    }
  }

  lemma HalfBound(x: nat, n: nat)
    requires n > 0 && x < Pow2(n)
    ensures x / 2 < Pow2(n - 1)
  {
    Pow2Next(n - 1);
  }

  /** Or-ing in bits above those in use adds them. */
  lemma {:induction false} OrShifted(a: nat, b: nat, k: nat)
    requires a < Pow2(k)
    ensures BitOr(a, Shifted(b, k)) == a + Shifted(b, k)
  {
    Pow2Words();
    if a > 0 && Shifted(b, k) > 0 {
      HalfBound(a, k);
      OrShifted(a / 2, b, k - 1);
      OrEven(a, Shifted(b, k - 1));
    }
  }

  lemma OrEven(a: nat, half: nat)
    requires BitOr(a / 2, half) == a / 2 + half
    ensures BitOr(a, 2 * half) == a + 2 * half
  {
    DivModUnique(2 * half, 2, half, 0);
    DivisionIdentity(a, 2);
  }

  lemma OrDisjoint(a: nat, b: nat, k: nat)
    requires a < Pow2(k)
    ensures BitOr(a, b * Pow2(k)) == a + b * Pow2(k)
  {
    OrShifted(a, b, k);
    ShiftedIsProduct(b, k);
  }

  // ----- interleaving -----

  /** The low n bits of x and y, x in the even places. */
  function Interleave(x: nat, y: nat, n: nat): nat {
    if n == 0 then 0 else x % 2 + 2 * (y % 2) + 4 * Interleave(x / 2, y / 2, n - 1)
  }

  /** Every other bit of m, from the lowest. */
  function EvenBits(m: nat, n: nat): nat {
    if n == 0 then 0 else m % 2 + 2 * EvenBits(m / 4, n - 1)
  }

  lemma {:induction false} InterleaveBound(x: nat, y: nat, n: nat)
    ensures Interleave(x, y, n) < Pow2(2 * n)
  {
    if n > 0 {
      InterleaveBound(x / 2, y / 2, n - 1);
      FourTimes(n - 1, 2 * (n - 1), 2 * n);
      hide Pow2;
    }
  }

  lemma InterleaveUnfold(x: nat, y: nat, n: nat)
    requires n > 0
    ensures Interleave(x, y, n) == x % 2 + 2 * (y % 2) + 4 * Interleave(x / 2, y / 2, n - 1)
  {
  }

  lemma LiftTop(low: nat, rest: nat, top: nat, p: nat)
    ensures low + 4 * (rest + top * p) == low + 4 * rest + top * (4 * p)
  {
  }

  /** One more bit of each coordinate goes on top. */
  lemma {:induction false} InterleaveTop(x: nat, y: nat, n: nat)
    ensures Interleave(x, y, n + 1) == Interleave(x, y, n) + (Bit(x, n) + 2 * Bit(y, n)) * Pow2(2 * n)
  {
    if n == 0 {
      assert Interleave(x / 2, y / 2, 0) == 0;
    } else {
      InterleaveTop(x / 2, y / 2, n - 1);
      BitOfHalf(x, n - 1);
      BitOfHalf(y, n - 1);
      FourTimes(n - 1, 2 * (n - 1), 2 * n);
      hide Bit, Pow2;
      InterleaveUnfold(x, y, n);
      InterleaveUnfold(x, y, n + 1);
      hide Interleave;
      LiftTop(x % 2 + 2 * (y % 2), Interleave(x / 2, y / 2, n - 1), Bit(x, n) + 2 * Bit(y, n), Pow2(2 * (n - 1)));
    }
  }

  /** The lowest two bits of an interleaving, and what is above them. */
  lemma SplitInterleaved(x: nat, y: nat, n: nat)
    requires n > 0
    ensures var m, rest := Interleave(x, y, n), Interleave(x / 2, y / 2, n - 1);
            m % 2 == x % 2 && m / 2 % 2 == y % 2 && m / 4 == rest && m / 2 / 4 == rest / 2
  {
    LowBits(x % 2, y % 2, Interleave(x / 2, y / 2, n - 1));
  }

  lemma LowBits(a: nat, b: nat, rest: nat)
    requires a <= 1 && b <= 1
    ensures var m := a + 2 * b + 4 * rest;
            m % 2 == a && m / 2 % 2 == b && m / 4 == rest && m / 2 / 4 == rest / 2
  {
    var m, half := a + 2 * b + 4 * rest, b + 2 * rest;
    DivModUnique(m, 2, half, a);
    DivModUnique(half, 2, rest, b);
    DivModUnique(m, 4, rest, a + 2 * b);
    DivisionIdentity(rest, 2);
    DivModUnique(half, 4, rest / 2, b + 2 * (rest % 2));
  }

  lemma LowestBit(x: nat)
    ensures Bit(x, 0) == x % 2
  {
    Pow2Words();
    DivModUnique(x, 1, x, 0);
  }

  /** Bit i of x is at 2i and bit i of y is at 2i + 1. */
  lemma {:induction false} BitsPlaced(x: nat, y: nat, n: nat, i: nat)
    requires i < n
    ensures Bit(Interleave(x, y, n), 2 * i) == Bit(x, i)
    ensures Bit(Interleave(x, y, n), 2 * i + 1) == Bit(y, i)
  {
    var m := Interleave(x, y, n);
    SplitInterleaved(x, y, n);
    LowestBit(m);
    LowestBit(m / 2);
    LowestBit(x);
    LowestBit(y);
    if i > 0 {
      BitsPlaced(x / 2, y / 2, n - 1, i - 1);
      DivDiv(m, 2, 2);
      hide Interleave, Bit;
      BitOfHalf(m, 2 * i - 1);
      BitOfHalf(m / 2, 2 * i - 2);
      BitOfHalf(m, 2 * i);
      BitOfHalf(m / 2, 2 * i - 1);
      BitOfHalf(x, i - 1);
      BitOfHalf(y, i - 1);
    } else {
      hide Interleave, Bit;
      BitOfHalf(m, 0);
    }
  }

  lemma SplitEven(m: nat, n: nat)
    requires n > 0
    ensures EvenBits(m, n) % 2 == m % 2 && EvenBits(m, n) / 2 == EvenBits(m / 4, n - 1)
  {
    DivModUnique(EvenBits(m, n), 2, EvenBits(m / 4, n - 1), m % 2);
  }

  /** De-interleaving undoes interleaving. */
  lemma {:induction false} DeinterleaveUndoes(x: nat, y: nat, n: nat)
    requires x < Pow2(n) && y < Pow2(n)
    ensures EvenBits(Interleave(x, y, n), n) == x && EvenBits(Interleave(x, y, n) / 2, n) == y
  {
    if n > 0 {
      HalfBound(x, n);
      HalfBound(y, n);
      hide Pow2, EvenBits;
      DeinterleaveUndoes(x / 2, y / 2, n - 1);
      SplitInterleaved(x, y, n);
      hide Interleave;
      SplitEven(Interleave(x, y, n), n);
      SplitEven(Interleave(x, y, n) / 2, n);
    }
  }

  lemma FourParts(m: nat)
    ensures m / 2 / 4 == m / 4 / 2 && m == m % 2 + 2 * (m / 2 % 2) + 4 * (m / 4)
  {
    DivisionIdentity(m, 2);
    DivisionIdentity(m / 2, 2);
    DivDiv(m, 2, 2);
    DivDiv(m, 2, 4);
    DivDiv(m, 4, 2);
  }

  /** Every word of 2n bits is the interleaving of its even and odd bits. */
  lemma {:induction false} InterleaveUndoes(m: nat, n: nat)
    requires m < Pow2(2 * n)
    ensures Interleave(EvenBits(m, n), EvenBits(m / 2, n), n) == m
  {
    if n > 0 {
      FourTimes(n - 1, 2 * (n - 1), 2 * n);
      hide Pow2, EvenBits;
      InterleaveUndoes(m / 4, n - 1);
      SplitEven(m, n);
      SplitEven(m / 2, n);
      FourParts(m);
      assert Interleave(EvenBits(m, n), EvenBits(m / 2, n), n) == m % 2 + 2 * (m / 2 % 2) + 4 * (m / 4);
    }
  }

  lemma Injective(x: nat, y: nat, x': nat, y': nat, n: nat)
    requires x < Pow2(n) && y < Pow2(n) && x' < Pow2(n) && y' < Pow2(n)
    requires Interleave(x, y, n) == Interleave(x', y', n)
    ensures x == x' && y == y'
  {
    DeinterleaveUndoes(x, y, n);
    DeinterleaveUndoes(x', y', n);
  }

  /** Growing a coordinate grows the code. */
  lemma {:induction false} Monotone(x: nat, y: nat, x': nat, y': nat, n: nat)
    requires x <= x' < Pow2(n) && y <= y' < Pow2(n)
    ensures Interleave(x, y, n) <= Interleave(x', y', n)
    ensures x < x' || y < y' ==> Interleave(x, y, n) < Interleave(x', y', n)
  {
    if n > 0 {
      Monotone(x / 2, y / 2, x' / 2, y' / 2, n - 1);
    }
  }

  /** Bits above the width of the coordinates are zero. */
  lemma {:induction false} NarrowCoordinates(x: nat, y: nat, w: nat, n: nat)
    requires w <= n && x < Pow2(w) && y < Pow2(w)
    ensures Interleave(x, y, n) == Interleave(x, y, w) < Pow2(2 * w)
  {
    InterleaveBound(x, y, w);
    if w > 0 {
      NarrowCoordinates(x / 2, y / 2, w - 1, n - 1);
    } else {
      ZeroInterleave(n);
    }
  }

  lemma {:induction false} ZeroInterleave(n: nat)
    ensures Interleave(0, 0, n) == 0
  {
    if n > 0 {
      ZeroInterleave(n - 1);
    }
  }

  // ----- the kernel's loop -----

  /** A masked bit of x, shifted by its own position, is at an even place; that of y next to it. */
  lemma ShiftedBits(x: nat, y: nat, i: nat)
    ensures BitAnd(x, Pow2(i)) * Pow2(i) == Bit(x, i) * Pow2(2 * i)
    ensures BitAnd(y, Pow2(i)) * Pow2(i + 1) == Bit(y, i) * Pow2(2 * i + 1)
    ensures Pow2(2 * i + 1) == 2 * Pow2(2 * i)
  {
    hide Bit, BitAnd;
    AndBit(x, i);
    AndBit(y, i);
    Pow2Add(i, i);
    Pow2Add(i, i + 1);
    assert 2 * i == i + i && 2 * i + 1 == i + (i + 1);
    Associate(Bit(x, i), Pow2(i), Pow2(i));
    Associate(Bit(y, i), Pow2(i), Pow2(i + 1));
    assert Pow2(2 * i + 1) == 2 * Pow2(2 * i);
  }

  lemma TwoBits(a: nat, b: nat, p: nat)
    requires a <= 1 && b <= 1 && p > 0
    ensures a * p < 2 * p && a * p + b * (2 * p) == (a + 2 * b) * p
  {
  }

  /** One turn: the two masked bits, shifted, are or-ed in. */
  lemma OneTurn(x: nat, y: nat, i: nat, result: nat)
    requires result == Interleave(x, y, i)
    ensures BitOr(result, BitOr(BitAnd(x, Pow2(i)) * Pow2(i), BitAnd(y, Pow2(i)) * Pow2(i + 1))) ==
            Interleave(x, y, i + 1)
  {
    hide BitOr, BitAnd, Interleave, Bit, Pow2;
    ShiftedBits(x, y, i);
    TwoBits(Bit(x, i), Bit(y, i), Pow2(2 * i));
    OrDisjoint(Bit(x, i) * Pow2(2 * i), Bit(y, i), 2 * i + 1);
    InterleaveBound(x, y, i);
    OrDisjoint(result, Bit(x, i) + 2 * Bit(y, i), 2 * i);
    InterleaveTop(x, y, i);
  }

  method MortonEncode2d(x: u32, y: u32) returns (result: u64)
    ensures result == Interleave(x, y, 32)
  {
    hide Interleave, BitOr, BitAnd, Pow2;
    Pow2Words();
    var code: nat := 0;
    NoBits(x, y);
    for i := 0 to 32
      invariant code == Interleave(x, y, i)
    {
      OneTurn(x, y, i, code);
      code := BitOr(code, BitOr(BitAnd(x, Pow2(i)) * Pow2(i), BitAnd(y, Pow2(i)) * Pow2(i + 1)));
    }
    InterleaveBound(x, y, 32);
    result := code;
  }

  lemma NoBits(x: nat, y: nat)
    ensures Interleave(x, y, 0) == 0
  {
  }

  /** The allocator's index: the code of the size's low and next 16 bits, cut to 32 bits. */
  ghost function SizeIndex(size: nat): nat {
    Interleave(size % 0x1_0000, size / 0x1_0000 % 0x1_0000, 16)
  }

  method TensorAllocIndex(size: u64) returns (mortonIndex: u32)
    ensures mortonIndex == SizeIndex(size)
  {
    hide Interleave, BitAnd;
    Pow2Words();
    AndLow(size, 16);
    AndLow(size / 0x1_0000, 16);
    var code := MortonEncode2d(BitAnd(size, 0xFFFF), BitAnd(size / 0x1_0000, 0xFFFF));
    NarrowCoordinates(size % 0x1_0000, size / 0x1_0000 % 0x1_0000, 16, 32);
    mortonIndex := Wrap32(code);
  }

  lemma BitOfLow(x: nat, n: nat, i: nat)
    requires i < n
    ensures Pow2(n) > 0 && Bit(x % Pow2(n), i) == Bit(x, i)
  {
    var p, q := Pow2(i), Pow2(n - 1 - i);
    PowPositive(2, n);
    PowPositive(2, i);
    PowPositive(2, n - 1 - i);
    Pow2Add(i, n - i);
    Pow2Next(n - 1 - i);
    hide Pow2;
    LowQuotient(x, p, q, Pow2(n));
  }

  lemma LowQuotient(x: nat, p: nat, q: nat, m: nat)
    requires p > 0 && q > 0 && m == p * (2 * q)
    ensures m > 0 && x % m / p % 2 == x / p % 2
  {
    var low, k := x % m, q * (x / m);
    DivisionIdentity(x, m);
    DivisionIdentity(low, p);
    assert m * (x / m) == p * (2 * k) by {
      Associate(p, 2 * q, x / m);
      Associate(2, q, x / m);
    }
    assert p * (2 * k) + p * (low / p) == p * (2 * k + low / p);
    DivModUnique(x, p, 2 * k + low / p, low % p);
    assert 2 * k == k * 2;
    ModOfMultiple(low / p, k, 2);
  }

  lemma {:induction false} BitOfHigh(x: nat, n: nat, i: nat)
    ensures Pow2(n) > 0 && Bit(x / Pow2(n), i) == Bit(x, n + i)
  {
    PowPositive(2, n);
    PowPositive(2, i);
    Pow2Add(n, i);
    hide Pow2;
    DivDiv(x, Pow2(n), Pow2(i));
  }

  /** Bit i of the size is bit 2i of the index, and bit 16 + i of the size is bit 2i + 1. */
  lemma IndexBits(size: nat, i: nat)
    requires i < 16
    ensures Bit(SizeIndex(size), 2 * i) == Bit(size, i)
    ensures Bit(SizeIndex(size), 2 * i + 1) == Bit(size, 16 + i)
  {
    Pow2Words();
    BitsPlaced(size % 0x1_0000, size / 0x1_0000 % 0x1_0000, 16, i);
    hide Bit, Pow2, Interleave;
    BitOfLow(size, 16, i);
    BitOfLow(size / 0x1_0000, 16, i);
    BitOfHigh(size, 16, i);
  }

  /** Two sizes share an index exactly when their low 32 bits agree. */
  lemma IndexIdentifiesSize(size: nat, size': nat)
    ensures SizeIndex(size) == SizeIndex(size') <==> size % TWO_32 == size' % TWO_32
  {
    hide Interleave, Pow2;
    Pow2Words();
    LowHalves(size);
    LowHalves(size');
    if SizeIndex(size) == SizeIndex(size') {
      Injective(size % 0x1_0000, size / 0x1_0000 % 0x1_0000, size' % 0x1_0000, size' / 0x1_0000 % 0x1_0000, 16);
    }
  }

  lemma LowHalves(size: nat)
    ensures var low := size % TWO_32;
            low == size % 0x1_0000 + 0x1_0000 * (size / 0x1_0000 % 0x1_0000)
            && low % 0x1_0000 == size % 0x1_0000 && low / 0x1_0000 == size / 0x1_0000 % 0x1_0000
  {
    var q, r := size / 0x1_0000, size % 0x1_0000;
    DivisionIdentity(size, 0x1_0000);
    DivisionIdentity(q, 0x1_0000);
    var low := 0x1_0000 * (q % 0x1_0000) + r;
    DivModUnique(size, TWO_32, q / 0x1_0000, low);
    DivModUnique(low, 0x1_0000, q % 0x1_0000, r);
  }
}
