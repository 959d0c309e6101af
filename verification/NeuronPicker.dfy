/**
 The activation predictor's neuron picker (src/bin/control_plane_server.rs): draw indices from a
 64-bit linear congruential generator until 102 different ones are found, then sort them.
 That the drawing ends is a theorem about the generator's period.
 */
module NeuronPicker {
  import opened MachineIntegers
  import opened NumberTheory

  const NUM_ACTIVE := 102
  const HIDDEN_SIZE := 2048
  const MULTIPLIER := 6364136223846793005
  const INCREMENT := 1442695040888963407
  const TWO_43 := 0x800_0000_0000

  // ----- the generator over the integers -----

  /** n turns of x -> a * x + c, without any modulus. */
  ghost function Orbit(x: int, n: nat): int {
    if n == 0 then x else MULTIPLIER * Orbit(x, n - 1) + INCREMENT
  }

  /** 1 + a + ... + a^(n-1). */
  ghost function Geometric(n: nat): int {
    if n == 0 then 0 else MULTIPLIER * Geometric(n - 1) + 1
  }

  lemma {:induction false} OrbitAffine(x: int, n: nat)
    ensures Orbit(x, n) == Pow(MULTIPLIER, n) * x + INCREMENT * Geometric(n)
  {
    if n > 0 {
      OrbitAffine(x, n - 1);
      assert Pow(MULTIPLIER, n) * x == MULTIPLIER * (Pow(MULTIPLIER, n - 1) * x);
    }
  }

  lemma {:induction false} OrbitAdd(x: int, m: nat, n: nat)
    ensures Orbit(x, m + n) == Orbit(Orbit(x, m), n)
  {
    if n > 0 {
      OrbitAdd(x, m, n - 1);
    }
  }

  lemma StepMod(x: int, y: int, m: int)
    requires m > 0 && x % m == y % m
    ensures (MULTIPLIER * x + INCREMENT) % m == (MULTIPLIER * y + INCREMENT) % m
  {
    ModMulCongruent(x, y, MULTIPLIER, m);
    ModAdd(x * MULTIPLIER, INCREMENT, m);
    ModAdd(y * MULTIPLIER, INCREMENT, m);
  }

  lemma {:induction false} GeometricAdd(m: nat, n: nat)
    ensures Geometric(m + n) == Geometric(m) + Pow(MULTIPLIER, m) * Geometric(n)
  {
    if m > 0 {
      GeometricAdd(m - 1, n);
      assert Geometric(m + n) == 1 + MULTIPLIER * Geometric(m - 1 + n);
      assert Geometric(m) == 1 + MULTIPLIER * Geometric(m - 1);
      assert Pow(MULTIPLIER, m) == MULTIPLIER * Pow(MULTIPLIER, m - 1);
      hide Geometric, Pow;
      Associate(MULTIPLIER, Pow(MULTIPLIER, m - 1), Geometric(n));
    }
  }

  // ----- full period modulo every power of two -----

  /** After 2^k turns the multiplier is 1 modulo 2^(k+2), and the geometric sum is 2^k times an odd number. */
  lemma {:induction false} PowerOfTwoTurns(k: nat) returns (u: int, v: int)
    ensures Pow(2, k) > 0
    ensures Pow(MULTIPLIER, Pow(2, k)) == 1 + 4 * (Pow(2, k) * u)
    ensures Geometric(Pow(2, k)) == Pow(2, k) * (2 * v + 1)
  {
    if k == 0 {
      assert Pow(MULTIPLIER, 1) == MULTIPLIER * Pow(MULTIPLIER, 0);
      assert Geometric(1) == MULTIPLIER * Geometric(0) + 1;
      u, v := (MULTIPLIER - 1) / 4, 0;
    } else {
      var h := Pow(2, k - 1);
      var u', v' := PowerOfTwoTurns(k - 1);
      var a := Pow(MULTIPLIER, h);
      PowAdd(MULTIPLIER, h, h);
      GeometricAdd(h, h);
      var w := h * u';
      u := u' + 2 * (w * u');
      v := v' + 2 * (w * v') + w;
      SquareOfOnePlus(h, u', w);
      DoubledSum(h, v', w);
    }
  }

  lemma SquareOfOnePlus(h: int, u: int, w: int)
    requires w == h * u
    ensures (1 + 4 * w) * (1 + 4 * w) == 1 + 4 * ((2 * h) * (u + 2 * (w * u)))
  {
    assert w * w == h * (w * u);
    assert (2 * h) * (u + 2 * (w * u)) == 2 * (h * u) + 4 * (h * (w * u));
    assert (1 + 4 * w) * (1 + 4 * w) == 1 + 8 * w + 16 * (w * w);
  }

  lemma DoubledSum(h: int, v: int, w: int)
    ensures h * (2 * v + 1) + (1 + 4 * w) * (h * (2 * v + 1)) == (2 * h) * (2 * (v + 2 * (w * v) + w) + 1)
  {
    var g := h * (2 * v + 1);
    assert (1 + 4 * w) * g == g + 4 * (w * g);
    assert w * g == h * (2 * (w * v) + w);
    assert (2 * h) * (2 * (v + 2 * (w * v) + w) + 1) == 2 * (h * (2 * v + 1)) + 4 * (h * (2 * (w * v) + w));
  }

  lemma JumpSum(x: int, h: int, u: int, v: int)
    ensures var c := (INCREMENT - 1) / 2;
            (1 + 4 * (h * u)) * x + INCREMENT * (h * (2 * v + 1))
            == x + h + (2 * (u * x) + c * (2 * v + 1) + v) * (2 * h)
  {
    var c := (INCREMENT - 1) / 2;
    var g, y := h * v, u * x;
    assert (1 + 4 * (h * u)) * x == x + 4 * (h * y);
    assert h * (2 * v + 1) == 2 * g + h;
    assert (2 * y + c * (2 * v + 1) + v) * (2 * h) == 4 * (h * y) + 4 * c * g + 2 * c * h + 2 * g;
  }

  /** 2^k turns move every number by 2^k modulo 2^(k+1). */
  lemma Jump(x: int, k: nat)
    ensures Pow(2, k) > 0 && Orbit(x, Pow(2, k)) % (2 * Pow(2, k)) == (x + Pow(2, k)) % (2 * Pow(2, k))
  {
    var h := Pow(2, k);
    var u, v := PowerOfTwoTurns(k);
    OrbitAffine(x, h);
    JumpSum(x, h, u, v);
    var d := 2 * (u * x) + (INCREMENT - 1) / 2 * (2 * v + 1) + v;
    ModOfMultiple(x + h, d, 2 * h);
  }

  /** From anywhere, every residue modulo 2^k is met within the first 2^k numbers of the orbit. */
  lemma {:induction false} Reach(x: int, t: int, k: nat) returns (n: nat)
    ensures Pow(2, k) > 0 && n < Pow(2, k) && Orbit(x, n) % Pow(2, k) == t % Pow(2, k)
  {
    if k == 0 {
      n := 0;
    } else {
      n := Reach(x, t, k - 1);
      var h := Pow(2, k - 1);
      assert Pow(2, k) == 2 * h;
      hide Orbit, Pow;
      if Orbit(x, n) % (2 * h) != t % (2 * h) {
        JumpToOtherHalf(x, t, k - 1, n, h);
        n := n + h;
      }
    }
  }

  lemma JumpToOtherHalf(x: int, t: int, k: nat, n: nat, h: nat)
    requires h == Pow(2, k) > 0
    requires Orbit(x, n) % h == t % h && Orbit(x, n) % (2 * h) != t % (2 * h)
    ensures Orbit(x, n + h) % (2 * h) == t % (2 * h)
  {
    hide Orbit, Pow;
    OtherHalf(Orbit(x, n), t, h);
    Jump(Orbit(x, n), k);
    OrbitAdd(x, n, h);
  }

  /** Two numbers that agree modulo h but not modulo 2h differ by h modulo 2h. */
  lemma OtherHalf(y: int, t: int, h: int)
    requires h > 0 && y % h == t % h && y % (2 * h) != t % (2 * h)
    ensures (y + h) % (2 * h) == t % (2 * h)
  {
    EqualModDivides(y, t, h);
    DivisionIdentity(y - t, h);
    HalfOrWhole(y, t, h, (y - t) / h / 2, (y - t) / h % 2);
  }

  lemma HalfOrWhole(y: int, t: int, h: int, e: int, odd: int)
    requires h > 0 && 0 <= odd <= 1 && y - t == h * (2 * e + odd) && y % (2 * h) != t % (2 * h)
    ensures (y + h) % (2 * h) == t % (2 * h)
  {
    assert e * (2 * h) == h * (2 * e) && (e + 1) * (2 * h) == e * (2 * h) + 2 * h;
    if odd == 0 {
      assert y == t + e * (2 * h);
      ModOfMultiple(t, e, 2 * h);
    } else {
      assert h * (2 * e + 1) == h * (2 * e) + h;
      assert y + h == t + (e + 1) * (2 * h);
      ModOfMultiple(t, e + 1, 2 * h);
    }
  }

  // ----- the 64-bit generator -----

  function Next(state: u64): u64 {
    Wrap64(Wrap64(state * MULTIPLIER) + INCREMENT)
  }

  function Index(state: u64): (i: nat)
    ensures i < HIDDEN_SIZE
  {
    state / TWO_32 % TWO_32 % HIDDEN_SIZE
  }

  ghost function State(start: u64, n: nat): u64 {
    if n == 0 then start else Next(State(start, n - 1))
  }

  lemma {:induction false} StateIsOrbit(start: u64, n: nat)
    ensures State(start, n) == Orbit(start, n) % TWO_64
  {
    if n == 0 {
      ModSmall(start, TWO_64);
    } else {
      StateIsOrbit(start, n - 1);
      var s := State(start, n - 1);
      ModAdd(s * MULTIPLIER, INCREMENT, TWO_64);
      ModIdempotent(Orbit(start, n - 1), TWO_64);
      StepMod(s, Orbit(start, n - 1), TWO_64);
    }
  }

  /** The index is the eleven bits from bit 32 up. */
  lemma IndexIsMiddleBits(state: u64)
    ensures Index(state) == state % TWO_43 / TWO_32
  {
    var q, low := state / TWO_32, state % TWO_32;
    DivisionIdentity(state, TWO_32);
    DivisionIdentity(q, HIDDEN_SIZE);
    var middle := q % HIDDEN_SIZE;
    DivModUnique(state, TWO_43, q / HIDDEN_SIZE, TWO_32 * middle + low);
    DivModUnique(TWO_32 * middle + low, TWO_32, middle, low);
    QuotientAtLeast(state, TWO_32, 0);
    QuotientBelow(state, TWO_32, TWO_32);
    ModSmall(q, TWO_32);
  }

  lemma TwoTo43()
    ensures Pow(2, 43) == TWO_43
  {
    PowAdd(2, 20, 20);
    PowAdd(2, 40, 3);
    assert Pow(2, 3) == 8;
    PowAdd(2, 10, 10);
    PowAdd(2, 5, 5);
    assert Pow(2, 5) == 32;
  }

  /** Every index is drawn within the first 2^43 draws, from any starting state. */
  lemma EveryIndexDrawn(start: u64, index: nat) returns (n: nat)
    requires index < HIDDEN_SIZE
    ensures 1 <= n <= TWO_43 && Index(State(start, n)) == index
  {
    var target := index * TWO_32;
    var first := MULTIPLIER * start + INCREMENT;
    var m := Reach(first, target, 43);
    TwoTo43();
    n := m + 1;
    OrbitAdd(start, 1, m);
    assert Orbit(start, 1) == MULTIPLIER * Orbit(start, 0) + INCREMENT;
    StateIsOrbit(start, n);
    var o := Orbit(start, n);
    ModOfMod(o, TWO_64, TWO_43);
    ModSmall(target, TWO_43);
    IndexIsMiddleBits(State(start, n));
  }

  // ----- drawing distinct indices -----

  /** The indices drawn in the first n turns. */
  ghost function Draws(start: u64, n: nat): seq<nat> {
    if n == 0 then [] else Draws(start, n - 1) + [Index(State(start, n))]
  }

  lemma {:induction false} DrawsAt(start: u64, n: nat)
    ensures |Draws(start, n)| == n
    ensures forall i | 0 <= i < n :: Draws(start, n)[i] == Index(State(start, i + 1))
  {
    if n > 0 {
      DrawsAt(start, n - 1);
    }
  }

  /** A sequence without its repetitions, each value where it first occurs. */
  ghost function Distinct(d: seq<nat>): seq<nat> {
    if d == [] then []
    else
      var front, x := Distinct(d[..|d| - 1]), d[|d| - 1];
      if x in front then front else front + [x]
  }

  ghost predicate NoRepetition(s: seq<nat>) {
    forall i, j | 0 <= i < j < |s| :: s[i] != s[j]
  }

  lemma {:induction false} DistinctProperties(d: seq<nat>)
    ensures NoRepetition(Distinct(d)) && forall x :: x in Distinct(d) <==> x in d
  {
    if d != [] {
      DistinctProperties(d[..|d| - 1]);
      assert d == d[..|d| - 1] + [d[|d| - 1]];
    }
  }

  lemma DistinctStep(start: u64, n: nat)
    requires n > 0
    ensures var before, x := Distinct(Draws(start, n - 1)), Index(State(start, n));
            Distinct(Draws(start, n)) == if x in before then before else before + [x]
  {
    assert Draws(start, n)[..n - 1] == Draws(start, n - 1) by {
      DrawsAt(start, n - 1);
    }
    DrawsAt(start, n);
  }

  lemma {:induction false} AllSmallNumbers(s: seq<nat>, n: nat)
    requires forall x: nat | x < n :: x in s
    ensures |s| >= n
    decreases n
  {
    if n > 0 {
      assert n - 1 in s;
      var i :| 0 <= i < |s| && s[i] == n - 1;
      var rest := s[..i] + s[i + 1..];
      forall x: nat | x < n - 1 ensures x in rest {
        assert x in s;
        var j :| 0 <= j < |s| && s[j] == x;
        if j < i {
          assert rest[j] == x;
        } else {
          assert rest[j - 1] == x;
        }
      }
      AllSmallNumbers(rest, n - 1);
    }
  }

  /** 2^43 draws meet all 2048 indices; that is why the drawing ends. */
  lemma EnoughDraws(start: u64, n: nat)
    requires |Distinct(Draws(start, n))| < HIDDEN_SIZE
    ensures n < TWO_43
  {
    if n >= TWO_43 {
      var d := Distinct(Draws(start, n));
      DrawsAt(start, n);
      DistinctProperties(Draws(start, n));
      forall x: nat | x < HIDDEN_SIZE ensures x in d {
        var m := EveryIndexDrawn(start, x);
        assert Draws(start, n)[m - 1] == x;
      }
      AllSmallNumbers(d, HIDDEN_SIZE);
    }
  }

  // ----- the predictor -----

  /** The wrapping sum of the hash bytes, each shifted to its place in a 64-bit word. */
  function SeedOf(hash: seq<byte>): u64 {
    if hash == [] then 0
    else
      var i := |hash| - 1;
      Wrap64(SeedOf(hash[..i]) + hash[i] * ByteWeight(i % 8))
  }

  function ByteWeight(i: nat): (w: nat)
    requires i < 8
    ensures 0 < w <= 0x100_0000_0000_0000
  {
    [1, 0x100, 0x1_0000, 0x100_0000, 0x1_0000_0000, 0x100_0000_0000, 0x1_0000_0000_0000, 0x100_0000_0000_0000][i]
  }

  /** The source's shift never loses a bit of a byte. */
  method Seed(hash: seq<byte>) returns (seed: u64)
    ensures seed == SeedOf(hash)
  {
    seed := 0;
    for i := 0 to |hash|
      invariant seed == SeedOf(hash[..i])
    {
      assert hash[..i + 1][..i] == hash[..i];
      var weight := ByteWeight(i % 8);
      assert hash[i] * weight <= 255 * weight;
      var shifted: u64 := hash[i] * weight;
      seed := Wrap64(seed + shifted);
    }
    assert hash[..|hash|] == hash;
  }

  lemma WeightIsPower(i: nat)
    requires i < 8
    ensures ByteWeight(i) == Pow(256, i) && Pow(256, 8) == TWO_64
  {
    assert Pow(256, 1) == 256 * Pow(256, 0) == 256;
    PowAdd(256, 1, 1);
    PowAdd(256, 2, 1);
    PowAdd(256, 2, 2);
    PowAdd(256, 4, 1);
    PowAdd(256, 4, 2);
    PowAdd(256, 4, 3);
    PowAdd(256, 4, 4);
  }

  /** Up to eight bytes nothing wraps: each byte adds a digit on top. */
  lemma {:induction false} SeedGrows(hash: seq<byte>)
    requires |hash| <= 8
    ensures SeedOf(hash) < Pow(256, |hash|)
    ensures hash != [] ==>
              var n := |hash| - 1; SeedOf(hash) == SeedOf(hash[..n]) + hash[n] * Pow(256, n)
  {
    if hash != [] {
      var n := |hash| - 1;
      SeedGrows(hash[..n]);
      WeightIsPower(n);
      ModSmall(n, 8);
      PowPositive(256, n);
      TopDigit(SeedOf(hash[..n]), hash[n], Pow(256, n));
      PowersGrow(n + 1);
      assert Pow(256, n + 1) == 256 * Pow(256, n);
      hide ByteWeight, Pow;
      Wrap64Small(SeedOf(hash[..n]) + hash[n] * Pow(256, n));
    }
  }

  lemma PowersGrow(n: nat)
    requires n <= 8
    ensures Pow(256, n) <= TWO_64
  {
    if n < 8 {
      WeightIsPower(n);
    } else {
      WeightIsPower(0);
    }
  }

  lemma TopDigit(low: nat, digit: nat, weight: nat)
    requires low < weight && digit < 256
    ensures low + digit * weight < 256 * weight && (low + digit * weight) / weight % 256 == digit
  {
    MulOrder(digit, 255, weight);
    assert digit * weight == weight * digit;
    DivModUnique(low + digit * weight, weight, digit, low);
    ModSmall(digit, 256);
  }

  lemma HigherMultiple(low: nat, k: nat, p: nat, sum: nat)
    requires p > 0 && sum == low + k * 256 * p
    ensures sum / p % 256 == low / p % 256
  {
    var q, r := low / p, low % p;
    DivisionIdentity(low, p);
    Associate(k, 256, p);
    Commuted(p, q, k * 256);
    DivModUnique(sum, p, q + k * 256, r);
    ModOfMultiple(q, k, 256);
  }

  lemma Commuted(p: int, q: int, m: int)
    ensures p * (q + m) == p * q + m * p
  {
  }

  /** A digit below the top one is that of the lower part. */
  lemma LowerDigit(low: nat, digit: nat, n: nat, i: nat)
    requires i < n
    ensures Pow(256, i) > 0
    ensures (low + digit * Pow(256, n)) / Pow(256, i) % 256 == low / Pow(256, i) % 256
  {
    var p, q := Pow(256, i), Pow(256, n - 1 - i);
    PowPositive(256, i);
    PowPositive(256, n - 1 - i);
    PowAdd(256, i, n - i);
    assert Pow(256, n - i) == 256 * q;
    Regrouped(digit, p, q);
    MulOrder(0, digit, q);
    hide *;
    HigherMultiple(low, digit * q, p, low + digit * Pow(256, n));
  }

  lemma Regrouped(digit: int, p: int, q: int)
    ensures digit * (p * (256 * q)) == digit * q * 256 * p
  {
    Associate(digit, q, 256);
    Associate(digit, q * 256, p);
    assert q * 256 == 256 * q && p * (256 * q) == 256 * q * p;
  }

  /** Up to eight bytes are read back from the seed, the first from its lowest byte. */
  lemma {:induction false} SeedReadBack(hash: seq<byte>, i: nat)
    requires i < |hash| <= 8
    ensures Pow(256, i) > 0 && SeedOf(hash) / Pow(256, i) % 256 == hash[i]
  {
    var n := |hash| - 1;
    PowPositive(256, i);
    SeedGrows(hash);
    SeedGrows(hash[..n]);
    if i == n {
      hide Pow, SeedOf;
      TopDigit(SeedOf(hash[..n]), hash[n], Pow(256, n));
    } else {
      SeedReadBack(hash[..n], i);
      hide Pow, SeedOf;
      LowerDigit(SeedOf(hash[..n]), hash[n], n, i);
    }
  }

  /** What byte i adds to the sum. */
  function Contribution(hash: seq<byte>, i: nat): nat
    requires i < |hash|
  {
    hash[i] * ByteWeight(i % 8)
  }

  lemma SeedNext(hash: seq<byte>)
    requires hash != []
    ensures SeedOf(hash) == Wrap64(SeedOf(hash[..|hash| - 1]) + Contribution(hash, |hash| - 1))
  {
  }

  lemma WrapTwice(a: nat, b: nat, c: nat)
    ensures Wrap64(Wrap64(a + b) + c) == Wrap64(a + Wrap64(b + c))
  {
    hide Wrap64;
    Wrap64Adds(a + b, c);
    Wrap64Adds(b + c, a);
    assert a + b + c == b + c + a && Wrap64(b + c) + a == a + Wrap64(b + c);
  }

  lemma SeedWhole(hash: seq<byte>)
    requires |hash| == 8
    ensures SeedOf(hash) == Wrap64(SeedOf(hash[..8]) + SeedOf(hash[8..]))
  {
    assert hash[8..] == [] && hash[..8] == hash && SeedOf([]) == 0;
    Wrap64Small(SeedOf(hash));
  }

  /** Leaving out the last byte leaves out the last byte of the second part. */
  lemma LastByte(hash: seq<byte>, front: seq<byte>, rest: seq<byte>)
    requires |hash| > 8 && front == hash[..|hash| - 1] && rest == hash[8..]
    ensures front[..8] == hash[..8] && front[8..] == rest[..|rest| - 1]
    ensures Contribution(rest, |rest| - 1) == Contribution(hash, |hash| - 1)
  {
    ModOfMultiple(|rest| - 1, 1, 8);
  }

  /** A longer hash is summed eight bytes at a time. */
  lemma {:induction false} SeedSplit(hash: seq<byte>)
    requires |hash| >= 8
    ensures SeedOf(hash) == Wrap64(SeedOf(hash[..8]) + SeedOf(hash[8..]))
  {
    hide *;
    if |hash| == 8 {
      SeedWhole(hash);
    } else {
      var front, rest := hash[..|hash| - 1], hash[8..];
      LastByte(hash, front, rest);
      SeedSplit(front);
      SeedNext(hash);
      SeedNext(rest);
      WrapTwice(SeedOf(hash[..8]), SeedOf(rest[..|rest| - 1]), Contribution(hash, |hash| - 1));
    }
  }

  lemma NextDraw(start: u64, n: nat, state: u64, draws: seq<nat>)
    requires State(start, n) == state && Draws(start, n) == draws
    ensures State(start, n + 1) == Next(state) && Draws(start, n + 1) == draws + [Index(Next(state))]
  {
    hide Next, Index;
  }

  /** The first draws for the hash "ab" at layer 0, whose seed is 0x6261. */
  lemma FirstDraws()
    ensures Draws(0x6261, 3) == [2042, 13, 1766]
  {
    assert State(0x6261, 0) == 0x6261 && Draws(0x6261, 0) == [];
    assert Next(0x6261) == 16900980233786354524 && Index(16900980233786354524) == 2042;
    assert Next(16900980233786354524) == 4517048909918274683 && Index(4517048909918274683) == 13;
    assert Next(4517048909918274683) == 8647464227905523694 && Index(8647464227905523694) == 1766;
    hide State, Draws, Next, Index;
    NextDraw(0x6261, 0, 0x6261, []);
    NextDraw(0x6261, 1, 16900980233786354524, [2042]);
    NextDraw(0x6261, 2, 4517048909918274683, [2042, 13]);
  }

  /** Index m is drawn from the exact orbit of x -> 6364136223846793005 x + 1442695040888963407: its bits 32 to 42. */
  lemma DrawIsOrbit(start: u64, n: nat, m: nat)
    requires m < n
    ensures |Draws(start, n)| == n
    ensures Draws(start, n)[m] == Orbit(start, m + 1) % 0x800_0000_0000 / 0x1_0000_0000
  {
    DrawsAt(start, n);
    StateIsOrbit(start, m + 1);
    IndexIsMiddleBits(State(start, m + 1));
    assert 0x1_0000_0000_0000_0000 == TWO_43 * 0x20_0000;
    MultipleIsZeroMod(0x20_0000, TWO_43);
    ModOfMod(Orbit(start, m + 1), TWO_64, TWO_43);
  }

  ghost predicate StrictlyIncreasing(s: seq<nat>) {
    forall i, j | 0 <= i < j < |s| :: s[i] < s[j]
  }

  /** After n draws: the generator's state and the different indices so far. */
  ghost predicate Drawn(start: u64, n: nat, state: u64, indices: seq<nat>) {
    state == State(start, n) && indices == Distinct(Draws(start, n))
  }

  lemma NothingDrawn(start: u64)
    ensures Drawn(start, 0, start, [])
  {
  }

  /** The body of both loops. */
  method Draw(ghost start: u64, ghost n: nat, state: u64, indices: seq<nat>)
    returns (state': u64, indices': seq<nat>)
    requires Drawn(start, n, state, indices)
    ensures Drawn(start, n + 1, state', indices')
    ensures |indices| <= |indices'| <= |indices| + 1
  {
    DistinctStep(start, n + 1);
    state' := Next(state);
    var neuron := Index(state');
    indices' := if neuron in indices then indices else indices + [neuron];
  }

  /** What sorting the different indices gives. */
  lemma SortedDraws(start: u64, n: nat)
    ensures var picked := Sorted(Distinct(Draws(start, n)));
            StrictlyIncreasing(picked) && forall x | x in picked :: x < HIDDEN_SIZE
  {
    DrawsAt(start, n);
    DistinctProperties(Draws(start, n));
    var distinct := Distinct(Draws(start, n));
    SortedDistinct(distinct);
    forall x | x in Sorted(distinct) ensures x < HIDDEN_SIZE {
      assert x in multiset(Sorted(distinct));
      assert x in multiset(distinct);
      assert x in Draws(start, n);
    }
  }

  /**
   The picked indices, in increasing order, are the first 102 different ones that the generator
   draws; total is the number of draws this took.
   */
  method PickNeurons(hash: seq<byte>, layer: nat) returns (activeNeurons: seq<nat>, ghost total: nat)
    requires layer < TWO_32
    ensures |activeNeurons| == NUM_ACTIVE && StrictlyIncreasing(activeNeurons)
    ensures forall x | x in activeNeurons :: x < HIDDEN_SIZE
    ensures var start := Wrap64(SeedOf(hash) + layer);
            && NUM_ACTIVE <= total <= TWO_43
            && (total > NUM_ACTIVE ==> |Distinct(Draws(start, total - 1))| < NUM_ACTIVE)
            && multiset(activeNeurons) == multiset(Distinct(Draws(start, total)))
  {
    hide State, Draws, Distinct, Sorted;
    var seed := Seed(hash);
    var state: u64 := Wrap64(seed + layer);
    ghost var start := state;
    var drawn: seq<nat> := [];
    total := 0;
    NothingDrawn(start);
    for i := 0 to NUM_ACTIVE
      invariant total == i && Drawn(start, total, state, drawn) && |drawn| <= total
    {
      state, drawn := Draw(start, total, state, drawn);
      total := total + 1;
    }
    while |drawn| < NUM_ACTIVE
      invariant NUM_ACTIVE <= total <= TWO_43 && |drawn| <= NUM_ACTIVE
      invariant Drawn(start, total, state, drawn)
      invariant total > NUM_ACTIVE ==> |Distinct(Draws(start, total - 1))| < NUM_ACTIVE
      decreases TWO_43 - total
    {
      EnoughDraws(start, total);
      state, drawn := Draw(start, total, state, drawn);
      total := total + 1;
    }
    activeNeurons := Sorted(drawn);
    SortedDraws(start, total);
  }

  // ----- the library sort -----

  function Insert(x: nat, s: seq<nat>): (r: seq<nat>)
    ensures multiset(r) == multiset(s) + multiset{x} && |r| == |s| + 1
  {
    if s == [] then [x]
    else if x <= s[0] then [x] + s
    else
      assert s == [s[0]] + s[1..];
      [s[0]] + Insert(x, s[1..])
  }

  /** Sorting, as the standard library's sort does it for numbers. */
  function Sorted(s: seq<nat>): (r: seq<nat>)
    ensures multiset(r) == multiset(s) && |r| == |s|
  {
    if s == [] then []
    else
      assert s == [s[0]] + s[1..];
      Insert(s[0], Sorted(s[1..]))
  }

  /** What is inserted above a number into a list above it keeps the list above it. */
  lemma {:induction false} InsertAbove(x: nat, s: seq<nat>, y: nat, i: nat)
    requires y < x && (forall j | 0 <= j < |s| :: y < s[j]) && i < |s| + 1
    ensures y < Insert(x, s)[i]
  {
    if s != [] && x > s[0] && i > 0 {
      InsertAbove(x, s[1..], y, i - 1);
    }
  }

  lemma PutFirst(y: nat, t: seq<nat>)
    requires StrictlyIncreasing(t) && forall i | 0 <= i < |t| :: y < t[i]
    ensures StrictlyIncreasing([y] + t)
  {
    var s := [y] + t;
    forall i, j | 0 <= i < j < |s| ensures s[i] < s[j] {
      assert s[j] == t[j - 1] && (i > 0 ==> s[i] == t[i - 1]);
    }
  }

  lemma {:induction false} InsertIncreasing(x: nat, s: seq<nat>)
    requires StrictlyIncreasing(s) && x !in s
    ensures StrictlyIncreasing(Insert(x, s))
  {
    if s == [] {
    } else if x <= s[0] {
      assert x != s[0];
      assert forall i | 0 < i < |s| :: s[0] < s[i];
      hide StrictlyIncreasing, Insert;
      PutFirst(x, s);
      InsertFront(x, s);
    } else {
      assert StrictlyIncreasing(s[1..]);
      assert forall i | 0 <= i < |s| - 1 :: s[0] < s[1..][i];
      hide StrictlyIncreasing, Insert;
      InsertIncreasing(x, s[1..]);
      forall i | 0 <= i < |s| ensures s[0] < Insert(x, s[1..])[i] {
        InsertAbove(x, s[1..], s[0], i);
      }
      PutFirst(s[0], Insert(x, s[1..]));
      InsertFront(x, s);
    }
  }

  lemma InsertFront(x: nat, s: seq<nat>)
    requires s != []
    ensures Insert(x, s) == if x <= s[0] then [x] + s else [s[0]] + Insert(x, s[1..])
  {
  }

  lemma {:induction false} SortedDistinct(s: seq<nat>)
    requires NoRepetition(s)
    ensures StrictlyIncreasing(Sorted(s))
  {
    if s != [] {
      SortedDistinct(s[1..]);
      assert s[0] !in multiset(s[1..]);
      InsertIncreasing(s[0], Sorted(s[1..]));
    }
  }
}
