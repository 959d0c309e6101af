/** Working out ring products of concrete words, eight bits at a time. */
module Gf2Evaluation {
  import opened Gf2Ring

  /** A multiplication under way: the sum so far, and the factors still to be multiplied. */
  datatype Partial = Partial(sum: bv32, a: bv32, b: bv32)

  function AddIfLow(sum: bv32, a: bv32, b: bv32): bv32 {
    if b & 1 == 0 then sum else sum ^ a
  }

  function ShiftOnce(a: bv32, c: bv32): bv32 {
    if a & 0x8000_0000 == 0 then a << 1 else (a << 1) ^ c
  }

  /** One turn, written out so that it is quickly worked out. */
  function Turn(s: Partial, c: bv32): Partial {
    Partial(AddIfLow(s.sum, s.a, s.b), ShiftOnce(s.a, c), Half(s.b))
  }

  lemma AddIfLowIs(sum: bv32, a: bv32, b: bv32)
    ensures AddIfLow(sum, a, b) == Xor(sum, Pick(Low(b), a))
  {
    if b & 1 == 0 {
      XorLaws(sum, 0);
    }
  }

  lemma ShiftOnceIs(a: bv32, c: bv32)
    ensures ShiftOnce(a, c) == TimesX(a, c)
  {
    if a & 0x8000_0000 == 0 {
      calc {
        ShiftOnce(a, c);
        a << 1;
        Double(a);
        { XorLaws(Double(a), 0); }
        Xor(Double(a), Pick(Top(a), c));
      }
    } else {
      calc {
        ShiftOnce(a, c);
        (a << 1) ^ c;
        Xor(a << 1, c);
        Xor(Double(a), c);
        Xor(Double(a), Pick(Top(a), c));
      }
    }
  }

  lemma TurnIsStep(s: Partial, c: bv32)
    ensures Turn(s, c) == Partial(Xor(s.sum, Pick(Low(s.b), s.a)), TimesX(s.a, c), Half(s.b))
  {
    hide Xor, Low, Half, AddIfLow, ShiftOnce, TimesX;
    AddIfLowIs(s.sum, s.a, s.b);
    ShiftOnceIs(s.a, c);
  }

  function Turns4(s: Partial, c: bv32): Partial {
    Turn(Turn(Turn(Turn(s, c), c), c), c)
  }

  function Turns8(s: Partial, c: bv32): Partial {
    Turns4(Turns4(s, c), c)
  }

  function Outcome(s: Partial, c: bv32): bv32 {
    Xor(s.sum, Mul(s.a, s.b, c))
  }

  lemma TurnKeeps(s: Partial, c: bv32)
    ensures Outcome(Turn(s, c), c) == Outcome(s, c)
  {
    TurnIsStep(s, c);
    hide Turn;
    if s.b == 0 {
      assert Half(0) == 0 && !Low(0);
      XorLaws(s.sum, 0);
    } else {
      hide Xor, Half, Low, Pick, TimesX;
      XorAssociative(s.sum, Pick(Low(s.b), s.a), Mul(TimesX(s.a, c), Half(s.b), c));
    }
  }

  lemma Turns8Keep(s: Partial, c: bv32)
    ensures Outcome(Turns8(s, c), c) == Outcome(s, c)
  {
    Turns4Keep(s, c);
    Turns4Keep(Turns4(s, c), c);
  }

  lemma Turns4Keep(s: Partial, c: bv32)
    ensures Outcome(Turns4(s, c), c) == Outcome(s, c)
  {
    hide Turn, Outcome;
    TurnKeeps(s, c);
    TurnKeeps(Turn(s, c), c);
    TurnKeeps(Turn(Turn(s, c), c), c);
    TurnKeeps(Turn(Turn(Turn(s, c), c), c), c);
  }

  /** Four rounds of eight turns finish a product. */
  lemma ProductFrom(a: bv32, b: bv32, c: bv32, s1: Partial, s2: Partial, s3: Partial, s4: Partial)
    requires s1 == Turns8(Partial(0, a, b), c) && s2 == Turns8(s1, c)
    requires s3 == Turns8(s2, c) && s4 == Turns8(s3, c) && s4.b == 0
    ensures Mul(a, b, c) == s4.sum
  {
    hide Turns8, Xor;
    Turns8Keep(Partial(0, a, b), c);
    Turns8Keep(s1, c);
    Turns8Keep(s2, c);
    Turns8Keep(s3, c);
    XorLaws(Mul(a, b, c), 0);
    XorLaws(s4.sum, 0);
    assert Mul(s4.a, 0, c) == 0;
  }
}
