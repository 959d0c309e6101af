/**
 The packet cipher of qanban (qanban/src/qanban_galois_field.rs). Features are 32-bit floats taken
 as their bits; f32::to_bits and f32::from_bits are inverse to each other and change nothing.
 The modulus of the code is x^32 + x^31 + x^7 + x^3 + x^2 + 1, because its constant is used with the
 leading term implied; that polynomial is reducible.
 */
module PacketCipher {
  import opened Gf2Ring
  import opened Gf2Poly

  const IRREDUCIBLE32: bv32 := 0x8000_008D

  // ----- ring operations -----

  function Times(a: bv32, b: bv32): bv32 {
    Mul(a, b, 0x8000_008D)
  }

  /** Repeated multiplication. */
  function Power(a: bv32, e: nat): bv32 {
    if e == 0 then 1 else Times(a, Power(a, e - 1))
  }

  lemma TimesLaws(a: bv32, b: bv32)
    ensures Times(a, b) == Times(b, a) && Times(a, 1) == a && Times(1, a) == a
    ensures Times(a, 0) == 0 && Times(0, a) == 0
  {
    hide Mul;
    MulCommutative(a, b, 0x8000_008D);
    MulCommutative(a, 1, 0x8000_008D);
    MulCommutative(a, 0, 0x8000_008D);
    MulOne(a, 0x8000_008D);
    MulZero(a, 0x8000_008D);
  }

  lemma TimesAssociative(a: bv32, b: bv32, d: bv32)
    ensures Times(Times(a, b), d) == Times(a, Times(b, d))
  {
    hide Mul;
    MulAssociative(a, b, d, 0x8000_008D);
  }

  lemma TimesAdd(a: bv32, b: bv32, d: bv32)
    ensures Times(Xor(a, b), d) == Xor(Times(a, d), Times(b, d))
    ensures Times(d, Xor(a, b)) == Xor(Times(d, a), Times(d, b))
  {
    hide Mul, Xor;
    MulAddLeft(a, b, d, 0x8000_008D);
    MulAddRight(d, a, b, 0x8000_008D);
  }

  lemma TimesExchange(a: bv32, b: bv32, d: bv32, e: bv32)
    ensures Times(Times(a, b), Times(d, e)) == Times(Times(a, d), Times(b, e))
  {
    hide Times;
    TimesAssociative(a, b, Times(d, e));
    TimesAssociative(b, d, e);
    TimesLaws(b, d);
    TimesAssociative(d, b, e);
    TimesAssociative(a, d, Times(b, e));
  }

  lemma {:induction false} PowerAdd(a: bv32, e: nat, f: nat)
    ensures Power(a, e + f) == Times(Power(a, e), Power(a, f))
  {
    hide Times;
    TimesLaws(Power(a, f), 0);
    if e > 0 {
      PowerAdd(a, e - 1, f);
      TimesAssociative(a, Power(a, e - 1), Power(a, f));
    }
  }

  lemma {:induction false} PowerSquare(a: bv32, e: nat)
    ensures Power(Times(a, a), e) == Power(a, 2 * e)
  {
    if e > 0 {
      hide Times;
      PowerSquare(a, e - 1);
      TimesAssociative(a, a, Power(a, 2 * e - 2));
    }
  }

  /** The library's inverse: a to the power 2^32 - 2. */
  function Inverse(a: bv32): bv32 {
    if a == 0 then 0 else Power(a, 0xFFFF_FFFE)
  }

  // ----- the multiplication loop: the full product, then the reduction -----

  lemma ProductStep(sum: bv64, a: bv64, b: bv32)
    ensures Xor64(Xor64(sum, Pick64(Low(b), a)), Clmul(Double64(a), Half(b))) == Xor64(sum, Clmul(a, b))
  {
    if b == 0 {
      assert Half(0) == 0 && !Low(0);
      Xor64Laws(sum, 0);
    } else {
      hide Xor64, Pick64, Low, Double64, Half;
      Xor64Associative(sum, Pick64(Low(b), a), Clmul(Double64(a), Half(b)));
    }
  }

  /** The first loop computes the exact carry-less product. */
  method FullProduct(x: bv32, y: bv32) returns (result: bv64)
    ensures result == Clmul(Widen(x), y)
  {
    hide Xor, Xor64, Double64, Half64, Half, Low, Low64, Pick64, Clmul, Widen, Short;
    result := 0;
    var a, b := Widen(x), Widen(y);
    ghost var rb := y;
    AllShort(y);
    Xor64Laws(Clmul(a, y), 0);
    for i := 0 to 32
      invariant b == Widen(rb) && Short(rb, 32 - i)
      invariant Xor64(result, Clmul(a, rb)) == Clmul(Widen(x), y)
    {
      ProductStep(result, a, rb);
      LowOfWidened(rb);
      Xor64Laws(result, 0);
      NoPick(a);
      if Low64(b) {
        result := Xor64(result, a);
      }
      HalfOfWidened(rb);
      ShortHalf(rb, 32 - i);
      b := Half64(b);
      a := Double64(a);
      rb := Half(rb);
    }
    ShortZero(rb);
    ClmulZero(a);
    Xor64Laws(result, 0);
  }

  lemma NoPick(a: bv64)
    ensures Pick64(true, a) == a && Pick64(false, a) == 0
  {
  }

  // ----- the reduction -----

  function And64(a: bv64, b: bv64): bv64 {
    a & b
  }

  function NextLow64(m: bv64): bv64 {
    (m << 1) | 1
  }

  /** The n lowest bits. */
  function Ones(n: nat): bv64 {
    if n == 0 then 0 else NextLow64(Ones(n - 1))
  }

  lemma Ones32()
    ensures Ones(32) == 0xFFFF_FFFF
  {
    assert Ones(8) == 0xFF;
    assert Ones(16) == 0xFFFF;
    assert Ones(24) == 0xFF_FFFF;
  }

  lemma Ones48()
    ensures Ones(48) == 0xFFFF_FFFF_FFFF
  {
    Ones32();
    assert Ones(36) == 0xF_FFFF_FFFF;
    assert Ones(40) == 0xFF_FFFF_FFFF;
    assert Ones(44) == 0xFFF_FFFF_FFFF;
  }

  lemma Ones64()
    ensures Ones(64) == 0xFFFF_FFFF_FFFF_FFFF
  {
    Ones48();
    assert Ones(52) == 0xF_FFFF_FFFF_FFFF;
    assert Ones(56) == 0xFF_FFFF_FFFF_FFFF;
    assert Ones(60) == 0xFFF_FFFF_FFFF_FFFF;
  }

  lemma Shl32()
    ensures Shl(1, 32) == 0x1_0000_0000
  {
    assert Shl(1, 8) == 0x100;
    assert Shl(1, 16) == 0x1_0000;
    assert Shl(1, 24) == 0x100_0000;
  }

  lemma AndDouble(v: bv64, x: bv64)
    ensures And64(v, Double64(x)) == Double64(And64(Half64(v), x))
  {
  }

  lemma AndNextLowEven(v: bv64, m: bv64)
    requires !Low64(v)
    ensures And64(v, NextLow64(m)) == Double64(And64(Half64(v), m))
  {
  }

  lemma AndNextLowOdd(v: bv64, m: bv64)
    requires Low64(v)
    ensures And64(v, NextLow64(m)) == Xor64(Double64(And64(Half64(v), m)), 1)
  {
  }

  lemma AndNextLow(v: bv64, m: bv64)
    ensures And64(v, NextLow64(m)) == Xor64(Double64(And64(Half64(v), m)), Pick64(Low64(v), 1))
  {
    hide And64, NextLow64, Double64, Half64, Xor64, Low64;
    Xor64Laws(Double64(And64(Half64(v), m)), 0);
    if Low64(v) {
      AndNextLowOdd(v, m);
    } else {
      AndNextLowEven(v, m);
    }
  }

  lemma AndBoth(y: bv64, m: bv64)
    ensures And64(Double64(y), NextLow64(m)) == Double64(And64(y, m))
  {
  }

  lemma AndAdd(a: bv64, b: bv64, m: bv64)
    ensures And64(Xor64(a, b), m) == Xor64(And64(a, m), And64(b, m))
  {
    calc {
      And64(Xor64(a, b), m);
      And64(a ^ b, m);
      (a ^ b) & m;
      (a & m) ^ (b & m);
      Xor64(a & m, b & m);
      Xor64(And64(a, m), And64(b, m));
    }
  }

  lemma AndOne(v: bv64)
    ensures And64(v, 1) == Pick64(Low64(v), 1) && And64(v, 0) == 0
    ensures NextLow64(0) == 1 && And64(1, 0) == 0
  {
  }

  /** One more bit of a mask. */
  lemma {:induction false} MaskGrows(v: bv64, n: nat)
    ensures And64(v, Ones(n + 1)) == Xor64(And64(v, Ones(n)), And64(v, Shl(1, n)))
    ensures And64(v, Shl(1, n)) == 0 || And64(v, Shl(1, n)) == Shl(1, n)
    decreases n
  {
    if n == 0 {
      OnesBase();
      AndOne(v);
      hide And64, Xor64, NextLow64, Double64, Low64;
      Xor64Laws(And64(v, 1), 0);
    } else {
      hide And64, Xor64, NextLow64, Double64, Half64, Low64, Pick64;
      var h, m, x, low := Half64(v), Ones(n - 1), Shl(1, n - 1), Pick64(Low64(v), 1);
      MaskGrows(h, n - 1);
      AndDouble(v, x);
      AndNextLow(v, m);
      AndNextLow(v, Ones(n));
      Double64Add(And64(h, m), And64(h, x));
      Xor64Associative(Double64(And64(h, m)), Double64(And64(h, x)), low);
      Xor64Laws(Double64(And64(h, x)), low);
      Xor64Associative(Double64(And64(h, m)), low, Double64(And64(h, x)));
      DoubleOfZero();
    }
  }

  lemma OnesBase()
    ensures Ones(0) == 0 && Ones(1) == NextLow64(0) && Shl(1, 0) == 1
  {
  }

  lemma DoubleOfZero()
    ensures Double64(0) == 0
  {
  }

  /** A shifted 32-bit word lies below the bit that selected it. */
  lemma {:induction false} ShiftedWordMasked(w: bv32, n: nat)
    ensures And64(Shl(Widen(w), n), Ones(n + 32)) == Shl(Widen(w), n)
  {
    if n == 0 {
      Ones32();
      WordMasked(w);
    } else {
      hide And64, NextLow64, Double64, Widen;
      ShiftedWordMasked(w, n - 1);
      AndBoth(Shl(Widen(w), n - 1), Ones(n + 31));
    }
  }

  lemma WordMasked(w: bv32)
    ensures And64(Widen(w), 0xFFFF_FFFF) == Widen(w)
  {
    calc {
      And64(Widen(w), 0xFFFF_FFFF);
      And64(w as bv64, 0xFFFF_FFFF);
      (w as bv64) & 0xFFFF_FFFF;
      w as bv64;
      Widen(w);
    }
  }

  /** x^(n+32) and the lower part of the modulus shifted by n have the same value. */
  lemma {:induction false} SameValue(n: nat, c: bv32)
    requires n <= 31
    ensures Evaluate(Shl(1, n + 32), c) == Evaluate(Shl(Widen(c), n), c)
    decreases n
  {
    if n == 0 {
      Shl32();
      HighPower(c);
      EvaluateWiden(c, c);
    } else {
      hide Evaluate, Double64, Top64, Widen;
      SameValue(n - 1, c);
      TopsClear(n - 1, c);
      EvaluateDouble(Shl(1, n + 31), c);
      EvaluateDouble(Shl(Widen(c), n - 1), c);
    }
  }

  lemma {:induction false} RoomAfter(v: bv64, n: nat, room: nat)
    requires n < room && Room(v, room)
    ensures Room(Shl(v, n), room - n) && !Top64(Shl(v, n))
  {
    hide Double64, Top64;
    if n > 0 {
      RoomAfter(v, n - 1, room);
    }
  }

  lemma {:induction false} ShlAdd(v: bv64, m: nat, n: nat)
    ensures Shl(v, m + n) == Shl(Shl(v, m), n)
  {
    if n > 0 {
      ShlAdd(v, m, n - 1);
    }
  }

  lemma TopsClear(n: nat, c: bv32)
    requires n < 31
    ensures !Top64(Shl(1, n + 32)) && !Top64(Shl(Widen(c), n))
  {
    hide Double64, Top64, Widen, Xor64;
    WidenedRoom(c);
    RoomAfter(Widen(c), n, 32);
    PowerRoom();
    Shl32();
    RoomAfter(0x1_0000_0000, n, 31);
    ShlAdd(1, 32, n);
  }

  lemma PowerRoom()
    ensures Room(0x1_0000_0000, 31)
  {
    WidenedRoom(0);
    assert Xor64(0x1_0000_0000, Widen(0)) == 0x1_0000_0000;
  }

  /** One turn of the reduction: the value of the part still to be looked at does not change. */
  lemma ReduceTurn(v: bv64, n: nat)
    requires n <= 31
    ensures var bit, low := Shl(1, n + 32), Shl(Widen(IRREDUCIBLE32), n);
            var v' := if And64(v, bit) != 0 then Xor64(v, low) else v;
            Evaluate(And64(v', Ones(n + 32)), IRREDUCIBLE32) == Evaluate(And64(v, Ones(n + 33)), IRREDUCIBLE32)
  {
    hide And64, Xor64, Evaluate, Widen, Ones, Shl;
    var m, bit, low := Ones(n + 32), Shl(1, n + 32), Shl(Widen(IRREDUCIBLE32), n);
    MaskGrows(v, n + 32);
    Xor64Laws(And64(v, m), 0);
    if And64(v, bit) != 0 {
      AndAdd(v, low, m);
      ShiftedWordMasked(IRREDUCIBLE32, n);
      EvaluateAdd(And64(v, m), low, IRREDUCIBLE32);
      EvaluateAdd(And64(v, m), bit, IRREDUCIBLE32);
      SameValue(n, IRREDUCIBLE32);
    }
  }

  lemma WholeWord(v: bv64)
    ensures And64(v, Ones(64)) == v
    ensures And64(v, Ones(32)) == Widen(Truncate(v))
  {
    Ones64();
    Ones32();
    hide Ones;
    calc {
      And64(v, 0xFFFF_FFFF);
      v & 0xFFFF_FFFF;
      ((v & 0xFFFF_FFFF) as bv32) as bv64;
      Widen(Truncate(v));
    }
  }

  /** The second loop leaves the polynomial's value in the ring. */
  method Reduce(value: bv64) returns (reduced: bv32)
    ensures reduced == Evaluate(value, IRREDUCIBLE32)
  {
    hide And64, Xor64, Evaluate, Widen, Ones, Shl, Truncate;
    var v := value;
    var i := 64;
    WholeWord(v);
    while i > 32
      invariant 32 <= i <= 64
      invariant Evaluate(And64(v, Ones(i)), IRREDUCIBLE32) == Evaluate(value, IRREDUCIBLE32)
    {
      i := i - 1;
      ReduceTurn(v, i - 32);
      if And64(v, Shl(1, i)) != 0 {
        v := Xor64(v, Shl(Widen(IRREDUCIBLE32), i - 32));
      }
    }
    WholeWord(v);
    EvaluateWiden(Truncate(v), IRREDUCIBLE32);
    reduced := Truncate(v);
  }

  /** The product of the code is the ring product. */
  method GfMul(a: bv32, b: bv32) returns (r: bv32)
    ensures r == Times(a, b)
  {
    hide Evaluate, Widen, Clmul, Mul, Short, Room;
    var result := FullProduct(a, b);
    r := Reduce(result);
    WidenedRoom(a);
    AllShort(b);
    EvaluateClmul(Widen(a), b, 32, IRREDUCIBLE32);
    EvaluateWiden(a, IRREDUCIBLE32);
  }

  /** Square and multiply. */
  method GfPow(self: bv32, exponent: nat) returns (result: bv32)
    ensures result == Power(self, exponent)
  {
    hide Times;
    result := 1;
    var base, exp := self, exponent;
    TimesLaws(Power(self, exponent), 0);
    while exp > 0
      invariant Times(result, Power(base, exp)) == Power(self, exponent)
    {
      ghost var h := exp / 2;
      PowerSquare(base, h);
      TimesAssociative(result, base, Power(base, 2 * h));
      if exp % 2 != 0 {
        result := GfMul(result, base);
      }
      base := GfMul(base, base);
      exp := exp / 2;
    }
    TimesLaws(result, 0);
  }

  /** 2^32 - 2 is the exponent of the source. */
  method GfInv(self: bv32) returns (inverse: bv32)
    ensures inverse == Inverse(self)
  {
    if self == 0 {
      return 0;
    }
    inverse := GfPow(self, 0xFFFF_FFFE);
  }

  // ----- the engine -----

  function Encrypt(features: seq<bv32>, key: bv32): (r: seq<bv32>)
    ensures |r| == |features|
  {
    seq(|features|, i requires 0 <= i < |features| => Times(features[i], key))
  }

  function Decrypt(encrypted: seq<bv32>, key: bv32): (r: seq<bv32>)
    ensures |r| == |encrypted|
  {
    var keyInverse := Inverse(key);
    seq(|encrypted|, i requires 0 <= i < |encrypted| => Times(encrypted[i], keyInverse))
  }

  /** Element i of a packet, with zero beyond its end. */
  function PaddedAt(s: seq<bv32>, i: nat): bv32 {
    if i < |s| then s[i] else 0
  }

  /** Pairs are added and multiplied by the compression key; an odd last element is paired with zero. */
  function Compressed(encrypted: seq<bv32>, compressionKey: bv32): (r: seq<bv32>)
    ensures |r| == (|encrypted| + 1) / 2
  {
    seq((|encrypted| + 1) / 2, i requires 0 <= i < (|encrypted| + 1) / 2 =>
        Times(Xor(encrypted[2 * i], PaddedAt(encrypted, 2 * i + 1)), compressionKey))
  }

  function SecureCompress(features: seq<bv32>, key: bv32, compressionKey: bv32): seq<bv32> {
    Decrypt(Compressed(Encrypt(features, key), compressionKey), key)
  }

  /** The loop over chunks of two. */
  method CompressEncrypted(encrypted: seq<bv32>, compressionKey: bv32) returns (compressed: seq<bv32>)
    ensures compressed == Compressed(encrypted, compressionKey)
  {
    hide Times, Xor;
    compressed := [];
    var i := 0;
    while i < |encrypted|
      invariant i == 2 * |compressed| && i <= |encrypted| + 1
      invariant forall k | 0 <= k < |compressed| ::
                  compressed[k] == Times(Xor(encrypted[2 * k], PaddedAt(encrypted, 2 * k + 1)), compressionKey)
    {
      var a := encrypted[i];
      var b := if i + 1 < |encrypted| then encrypted[i + 1] else 0;
      var sum := Xor(a, b);
      var value := GfMul(sum, compressionKey);
      compressed := compressed + [value];
      i := i + 2;
    }
  }

  // ----- what the engine promises -----

  /** Two packets of one length, added element by element. */
  function Added(a: seq<bv32>, b: seq<bv32>): (r: seq<bv32>)
    requires |a| == |b|
    ensures |r| == |a|
  {
    seq(|a|, i requires 0 <= i < |a| => Xor(a[i], b[i]))
  }

  /** Encryption respects addition of packets, the documented homomorphic property. */
  lemma EncryptionAdds(a: seq<bv32>, b: seq<bv32>, key: bv32)
    requires |a| == |b|
    ensures Encrypt(Added(a, b), key) == Added(Encrypt(a, key), Encrypt(b, key))
  {
    hide Times, Xor;
    forall i | 0 <= i < |a| ensures Encrypt(Added(a, b), key)[i] == Added(Encrypt(a, key), Encrypt(b, key))[i] {
      TimesAdd(a[i], b[i], key);
    }
  }

  lemma DecryptedElement(f: bv32, key: bv32)
    ensures Times(Times(f, key), Inverse(key)) == Times(f, Times(key, Inverse(key)))
  {
    hide Times, Inverse;
    TimesAssociative(f, key, Inverse(key));
  }

  /** Decryption undoes encryption exactly when the key times its library inverse is 1. */
  lemma DecryptUndoesEncrypt(key: bv32)
    ensures (forall features: seq<bv32> :: Decrypt(Encrypt(features, key), key) == features)
            <==> Times(key, Inverse(key)) == 1
  {
    hide Times, Inverse;
    if forall features: seq<bv32> :: Decrypt(Encrypt(features, key), key) == features {
      var one := [1 as bv32];
      assert Decrypt(Encrypt(one, key), key) == one;
      DecryptedElement(1, key);
      TimesLaws(1, Times(key, Inverse(key)));
      assert Decrypt(Encrypt(one, key), key)[0] == Times(Times(1, key), Inverse(key));
      TimesLaws(Times(key, Inverse(key)), 1);
    }
    if Times(key, Inverse(key)) == 1 {
      forall features: seq<bv32> ensures Decrypt(Encrypt(features, key), key) == features {
        forall i | 0 <= i < |features| ensures Decrypt(Encrypt(features, key), key)[i] == features[i] {
          DecryptedElement(features[i], key);
          TimesLaws(features[i], 1);
        }
      }
    }
  }

  /** Whatever the key, element i is the pair's sum times the compression key times key * inverse(key). */
  lemma SecureCompressElement(features: seq<bv32>, key: bv32, compressionKey: bv32, i: nat)
    requires i < (|features| + 1) / 2
    ensures |SecureCompress(features, key, compressionKey)| == (|features| + 1) / 2
    ensures SecureCompress(features, key, compressionKey)[i] ==
            Times(Times(Xor(features[2 * i], PaddedAt(features, 2 * i + 1)), compressionKey), Times(key, Inverse(key)))
  {
    hide Times, Inverse, Xor;
    var a, b := features[2 * i], PaddedAt(features, 2 * i + 1);
    var ck, inverse := compressionKey, Inverse(key);
    TimesLaws(key, 0);
    TimesAdd(a, b, key);
    var sum := Xor(a, b);
    TimesAssociative(Times(sum, key), ck, inverse);
    TimesExchange(sum, key, ck, inverse);
    assert Encrypt(features, key)[2 * i] == Times(a, key);
    assert PaddedAt(Encrypt(features, key), 2 * i + 1) == Times(b, key);
  }
}
