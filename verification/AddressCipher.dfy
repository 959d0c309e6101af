/**
 The address scrambler of the QAGML engine (qagml/src/engine.rs): multiplication modulo
 x^32 + x^7 + x^3 + x^2 + 1 with a memo table, applied to the two halves of an address.
 */
module AddressCipher {
  import opened Gf2Ring
  import opened Gf2Poly
  import opened Gf2Evaluation

  const IRREDUCIBLE: bv64 := 0x1_0000_008D

  // ----- 64-bit addresses as two words -----

  function HighWord(address: bv64): bv32 {
    ((address >> 32) & 0xFFFF_FFFF) as bv32
  }

  function Join(high: bv32, low: bv32): bv64 {
    ((high as bv64) << 32) | (low as bv64)
  }

  lemma JoinParts(high: bv32, low: bv32)
    ensures HighWord(Join(high, low)) == high && Truncate(Join(high, low)) == low
  {
    calc {
      HighWord(Join(high, low));
      HighWord(((high as bv64) << 32) | (low as bv64));
      (((((high as bv64) << 32) | (low as bv64)) >> 32) & 0xFFFF_FFFF) as bv32;
      high;
    }
    calc {
      Truncate(Join(high, low));
      Truncate(((high as bv64) << 32) | (low as bv64));
      ((((high as bv64) << 32) | (low as bv64)) & 0xFFFF_FFFF) as bv32;
      low;
    }
  }

  lemma PartsJoin(address: bv64)
    ensures Join(HighWord(address), Truncate(address)) == address
  {
  }

  lemma PartsAdd(a: bv64, b: bv64)
    ensures HighWord(Xor64(a, b)) == Xor(HighWord(a), HighWord(b))
    ensures Truncate(Xor64(a, b)) == Xor(Truncate(a), Truncate(b))
  {
  }

  lemma JoinAdd(h: bv32, h': bv32, l: bv32, l': bv32)
    ensures Join(Xor(h, h'), Xor(l, l')) == Xor64(Join(h, l), Join(h', l'))
  {
  }

  // ----- the engine -----

  /** The ring product of this engine. */
  function GfProduct(a: bv32, b: bv32): bv32 {
    Mul(a, b, 0x8D)
  }

  /** The scrambled address. */
  function Encrypted(address: bv64): bv64 {
    Join(GfProduct(HighWord(address), 0x7f4a7c15), GfProduct(Truncate(address), 0x9e3779b9))
  }

  lemma ConstantIsModulus()
    ensures Modulus(0x8D) == IRREDUCIBLE
  {
  }

  /** A coefficient of x^32. */
  predicate Carry(w: bv64) {
    w & 0x1_0000_0000 != 0
  }

  lemma CarryIsTop(a: bv32)
    ensures Carry(Double64(Widen(a))) == Top(a)
  {
    assert ((a as bv64) << 1) & 0x1_0000_0000 != 0 <==> a & 0x8000_0000 != 0;
  }

  /** The shift and conditional reduction of the loop multiply by x. */
  lemma ShiftAndReduce(a: bv32)
    ensures var shifted := Double64(Widen(a));
            Widen(TimesX(a, 0x8D)) == if Carry(shifted) then Xor64(shifted, IRREDUCIBLE) else shifted
  {
    hide Double64, Widen, Xor64, TimesX, Modulus, Top, Carry;
    CarryIsTop(a);
    WidenTimesX(a, 0x8D);
    ConstantIsModulus();
    var w := Widen(TimesX(a, 0x8D));
    Xor64Laws(IRREDUCIBLE, w);
    Xor64Laws(IRREDUCIBLE, IRREDUCIBLE);
    Xor64Laws(w, 0);
    Xor64Associative(w, IRREDUCIBLE, IRREDUCIBLE);
  }

  /** One turn of the loop: the product still to come, with the sum so far, does not change. */
  lemma LoopStep(sum: bv32, a: bv32, b: bv32)
    requires Length(b) > 0
    ensures Xor(Xor(sum, Pick(Low(b), a)), GfProduct(TimesX(a, 0x8D), Half(b))) == Xor(sum, GfProduct(a, b))
  {
    hide Xor, Pick, Low, TimesX, Half;
    XorAssociative(sum, Pick(Low(b), a), GfProduct(TimesX(a, 0x8D), Half(b)));
  }

  class GaloisFieldEngine {
    var multTable: map<(bv32, bv32), bv32>

    /** Every remembered product is right. */
    ghost predicate Valid()
      reads this
    {
      forall k | k in multTable :: multTable[k] == GfProduct(k.0, k.1)
    }

    constructor ()
      ensures Valid() && multTable == map[]
    {
      multTable := map[];
    }

    /** The answer does not depend on what was asked before. */
    method GfMultiply(a: bv32, b: bv32) returns (result: bv32)
      requires Valid()
      modifies this
      ensures Valid() && result == GfProduct(a, b)
      ensures multTable == old(multTable)[(a, b) := result]
    {
      if (a, b) in multTable {
        return multTable[(a, b)];
      }
      result := ShiftAndAdd(a, b);
      multTable := multTable[(a, b) := result];
    }

    /** The loop of the multiplication. */
    method ShiftAndAdd(a: bv32, b: bv32) returns (result: bv32)
      ensures result == GfProduct(a, b)
    {
      hide *;
      result := 0;
      var tempA: bv64, tempB: bv64 := Widen(a), Widen(b);
      ghost var ra, rb := a, b;
      XorLaws(GfProduct(a, b), 0);
      while Positive(tempB)
        invariant tempA == Widen(ra) && tempB == Widen(rb)
        invariant Xor(result, GfProduct(ra, rb)) == GfProduct(a, b)
        decreases Length(rb)
      {
        PositiveLength(rb);
        result, tempA, tempB := Turn(result, tempA, tempB, ra, rb);
        ra, rb := TimesX(ra, 0x8D), Half(rb);
      }
      PositiveLength(rb);
      NothingLeft(result, ra, rb);
    }

    /** One turn: the words a and b that the variables hold. */
    method Turn(sum: bv32, tempA: bv64, tempB: bv64, ghost a: bv32, ghost b: bv32)
      returns (result: bv32, nextA: bv64, nextB: bv64)
      requires tempA == Widen(a) && tempB == Widen(b) && Length(b) > 0
      ensures nextA == Widen(TimesX(a, 0x8D)) && nextB == Widen(Half(b))
      ensures Xor(result, GfProduct(TimesX(a, 0x8D), Half(b))) == Xor(sum, GfProduct(a, b))
    {
      hide *;
      LoopStep(sum, a, b);
      PickLow(a, b);
      LowOfWidened(b);
      TruncateWiden(a);
      XorLaws(sum, 0);
      result := sum;
      if Low64(tempB) {
        result := Xor(result, Truncate(tempA));
      }
      ShiftAndReduce(a);
      nextA := Double64(tempA);
      if Carry(nextA) {
        nextA := Xor64(nextA, IRREDUCIBLE);
      }
      HalfOfWidened(b);
      nextB := Half64(tempB);
    }

    method EncryptAddress(address: bv64) returns (encrypted: bv64)
      requires Valid()
      modifies this
      ensures Valid() && encrypted == Encrypted(address)
      ensures var low, high := Truncate(address), HighWord(address);
              multTable == old(multTable)[(low, 0x9e3779b9) := GfProduct(low, 0x9e3779b9)]
                                         [(high, 0x7f4a7c15) := GfProduct(high, 0x7f4a7c15)]
    {
      var low := Truncate(address);
      var high := HighWord(address);
      var encLow := GfMultiply(low, 0x9e3779b9);
      var encHigh := GfMultiply(high, 0x7f4a7c15);
      encrypted := Join(encHigh, encLow);
    }
  }

  lemma PickLow(a: bv32, b: bv32)
    ensures Pick(Low(b), a) == if Low(b) then a else 0
  {
  }

  /** The number of bits of a word, without leading zeros. */
  ghost function Length(b: bv32): nat
    decreases b
  {
    if b == 0 then 0 else 1 + Length(Half(b))
  }

  /** The test of the loop. */
  predicate Positive(w: bv64) {
    w > 0
  }

  lemma PositiveLength(b: bv32)
    ensures Positive(Widen(b)) <==> Length(b) > 0
    ensures Length(b) > 0 ==> Length(Half(b)) < Length(b)
  {
    WidenedZero(b);
  }

  lemma NothingLeft(result: bv32, a: bv32, b: bv32)
    requires Length(b) == 0
    ensures Xor(result, GfProduct(a, b)) == result
  {
    assert GfProduct(a, 0) == 0;
    XorLaws(result, 0);
  }

  // ----- what scrambling means -----

  /** Scrambling respects XOR of addresses. */
  lemma EncryptedAdd(a: bv64, b: bv64)
    ensures Encrypted(Xor64(a, b)) == Xor64(Encrypted(a), Encrypted(b))
  {
    hide Xor, Xor64, HighWord, Truncate, Join, Mul;
    PartsAdd(a, b);
    MulAddLeft(HighWord(a), HighWord(b), 0x7f4a7c15, 0x8D);
    MulAddLeft(Truncate(a), Truncate(b), 0x9e3779b9, 0x8D);
    JoinAdd(GfProduct(HighWord(a), 0x7f4a7c15), GfProduct(HighWord(b), 0x7f4a7c15),
            GfProduct(Truncate(a), 0x9e3779b9), GfProduct(Truncate(b), 0x9e3779b9));
  }

  lemma LowConstantInverse()
    ensures GfProduct(0x9e3779b9, 0xa98db6d2) == 1
  {
    ProductFrom(0x9e3779b9, 0xa98db6d2, 0x8d,
                Partial(0x497be8c2, 0x3779f016, 0xa98db6), Partial(0xde36cf80, 0x79f00cd3, 0xa98d),
                Partial(0x7780e131, 0xf00cedd5, 0xa9), Partial(0x1, 0xceda9b0, 0x0));
  }

  lemma HighConstantInverse()
    ensures GfProduct(0x7f4a7c15, 0xfcf6e3ac) == 1
  {
    ProductFrom(0x7f4a7c15, 0xfcf6e3ac, 0x8d,
                Partial(0x4b0b80b6, 0x4a7c28fb, 0xfcf6e3), Partial(0x7b14bbad, 0x7c28dd32, 0xfcf6),
                Partial(0x2a29c029, 0x28dd0e6c, 0xfc), Partial(0x1, 0xdd0e79c8, 0x0));
  }

  /** Multiplying each half by the inverse of its constant. */
  function Decrypted(scrambled: bv64): bv64 {
    Join(GfProduct(HighWord(scrambled), 0xfcf6e3ac), GfProduct(Truncate(scrambled), 0xa98db6d2))
  }

  lemma Undo(a: bv32, k: bv32, inverse: bv32)
    requires GfProduct(k, inverse) == 1
    ensures GfProduct(GfProduct(a, k), inverse) == a
  {
    hide Mul;
    MulAssociative(a, k, inverse, 0x8D);
    MulCommutative(a, 1, 0x8D);
    MulOne(a, 0x8D);
  }

  /** No two addresses are scrambled alike, and every word is a scrambled address. */
  lemma ScramblingIsUndone(address: bv64)
    ensures Decrypted(Encrypted(address)) == address
    ensures Encrypted(Decrypted(address)) == address
  {
    hide GfProduct, HighWord, Truncate, Join;
    LowConstantInverse();
    HighConstantInverse();
    PartsJoin(address);
    var high, low := HighWord(address), Truncate(address);
    JoinParts(GfProduct(high, 0x7f4a7c15), GfProduct(low, 0x9e3779b9));
    Undo(high, 0x7f4a7c15, 0xfcf6e3ac);
    Undo(low, 0x9e3779b9, 0xa98db6d2);
    JoinParts(GfProduct(high, 0xfcf6e3ac), GfProduct(low, 0xa98db6d2));
    Commute(0x7f4a7c15, 0xfcf6e3ac);
    Commute(0x9e3779b9, 0xa98db6d2);
    Undo(high, 0xfcf6e3ac, 0x7f4a7c15);
    Undo(low, 0xa98db6d2, 0x9e3779b9);
  }

  /** Each half of an address is multiplied by its own constant, modulo x^32 + x^7 + x^3 + x^2 + 1. */
  lemma HalvesScrambled(address: bv64)
    ensures HighWord(Encrypted(address)) == Mul(HighWord(address), 0x7f4a7c15, 0x8D)
    ensures Truncate(Encrypted(address)) == Mul(Truncate(address), 0x9e3779b9, 0x8D)
  {
    hide HighWord, Truncate, Join, Mul;
    JoinParts(GfProduct(HighWord(address), 0x7f4a7c15), GfProduct(Truncate(address), 0x9e3779b9));
  }

  lemma Commute(a: bv32, b: bv32)
    ensures GfProduct(a, b) == GfProduct(b, a)
  {
    MulCommutative(a, b, 0x8D);
  }
}
