/**
 How many primes of the header's table (kernel/symmetrix.h) the residue code may use. The two
 exponentiations that the first pair needs are followed bit by bit, so primality is not assumed.
 */
module CrtTable {
  import opened MachineIntegers
  import opened NumberTheory
  import opened CrtIntegers
  import opened Crt
  import opened CrtOverflow

  /** One bit of left-to-right square-and-multiply, given its quotient. */
  lemma ClimbEven(b: nat, m: nat, e: nat, z: nat, k: nat, z': nat)
    requires m > z' && Pow(b, e) % m == z && z * z == k * m + z'
    ensures Pow(b, 2 * e) % m == z'
  {
    PowAdd(b, e, e);
    ModMulBoth(Pow(b, e), Pow(b, e), m);
    ModOfMultiple(z', k, m);
    ModSmall(z', m);
  }

  lemma ClimbOdd(b: nat, c: nat, m: nat, e: nat, z: nat, k: nat, z': nat)
    requires m > z' && b == c && Pow(b, e) % m == z && z * z * c == k * m + z'
    ensures Pow(b, 2 * e + 1) % m == z'
  {
    PowAdd(b, e, e);
    ModMulBoth(Pow(b, e), Pow(b, e), m);
    ModMulCongruent(Pow(b, 2 * e), z * z, b, m);
    ModOfMultiple(z', k, m);
    ModSmall(z', m);
    assert Pow(b, 2 * e + 1) == Pow(b, 2 * e) * b;
  }

  lemma FirstPowerStart(b: nat)
    requires b == 2147483629
    ensures Pow(b, 2047) % 2147483647 == 2076503390
  {
    assert Pow(b, 1) == b * Pow(b, 0);
    ClimbOdd(b, 2147483629, 2147483647, 1, 2147483629, 4611685898168304642, 2147477815);
    ClimbOdd(b, 2147483629, 2147483647, 3, 2147477815, 4611660927262678530, 1535263615);
    ClimbOdd(b, 2147483629, 2147483647, 7, 1535263615, 2357034347786434375, 140622900);
    ClimbOdd(b, 2147483629, 2147483647, 15, 140622900, 19774799838659541, 105863973);
    ClimbOdd(b, 2147483629, 2147483647, 31, 105863973, 11207180685407224, 1799275613);
    ClimbOdd(b, 2147483629, 2147483647, 63, 1799275613, 3237392704401013352, 815480957);
    ClimbOdd(b, 2147483629, 2147483647, 127, 815480957, 665009185655593197, 717066562);
    ClimbOdd(b, 2147483629, 2147483647, 255, 717066562, 514184450028655533, 895485025);
    ClimbOdd(b, 2147483629, 2147483647, 511, 895485025, 801893423277857537, 1552320686);
    ClimbOdd(b, 2147483629, 2147483647, 1023, 1552320686, 2409699491985642602, 2076503390);
  }

  lemma FirstPowerMiddle(b: nat)
    requires b == 2147483629
    ensures Pow(b, 2097151) % 2147483647 == 1756450115
  {
    FirstPowerStart(b);
    hide Pow;
    ClimbOdd(b, 2147483629, 2147483647, 2047, 2076503390, 4311866292539846027, 1162410431);
    ClimbOdd(b, 2147483629, 2147483647, 4095, 1162410431, 1351197998771994869, 1098179426);
    ClimbOdd(b, 2147483629, 2147483647, 8191, 1098179426, 1205998041581130576, 2071897732);
    ClimbOdd(b, 2147483629, 2147483647, 16383, 2071897732, 4292760175885243372, 1591719612);
    ClimbOdd(b, 2147483629, 2147483647, 32767, 1591719612, 2533571301989281024, 1389149648);
    ClimbOdd(b, 2147483629, 2147483647, 65535, 1389149648, 1929736728363657357, 396426637);
    ClimbOdd(b, 2147483629, 2147483647, 131071, 396426637, 157154077205879499, 414998848);
    ClimbOdd(b, 2147483629, 2147483647, 262143, 414998848, 172224042397761844, 83415348);
    ClimbOdd(b, 2147483629, 2147483647, 524287, 83415348, 6958120223638813, 1102775405);
    ClimbOdd(b, 2147483629, 2147483647, 1048575, 1102775405, 1216113583679567630, 1756450115);
  }

  lemma FirstPower(b: nat)
    requires b == 2147483629
    ensures Pow(b, 2147483645) % 2147483647 == 119304647
  {
    FirstPowerMiddle(b);
    hide Pow;
    ClimbOdd(b, 2147483629, 2147483647, 2097151, 1756450115, 3085116980624361191, 1598549948);
    ClimbOdd(b, 2147483629, 2147483647, 4194303, 1598549948, 2555361914832006376, 289199544);
    ClimbOdd(b, 2147483629, 2147483647, 8388607, 289199544, 83636375548775928, 707030328);
    ClimbOdd(b, 2147483629, 2147483647, 16777215, 707030328, 499891880521742208, 335789760);
    ClimbOdd(b, 2147483629, 2147483647, 33554431, 335789760, 112754761975758094, 1347341582);
    ClimbOdd(b, 2147483629, 2147483647, 67108863, 1347341582, 1815329323370347976, 923396924);
    ClimbOdd(b, 2147483629, 2147483647, 134217727, 923396924, 852661872105732462, 1532016190);
    ClimbOdd(b, 2147483629, 2147483647, 268435455, 1532016190, 2347073586749172385, 715838805);
    ClimbEven(b, 2147483647, 536870911, 715838805, 238616575, 2028179000);
    ClimbOdd(b, 2147483629, 2147483647, 1073741822, 2028179000, 4113510021561956999, 119304647);
  }

  lemma SecondPowerStart(b: nat)
    requires b == 18
    ensures Pow(b, 2047) % 2147483629 == 705035814
  {
    assert Pow(b, 1) == b * Pow(b, 0);
    ClimbOdd(b, 18, 2147483629, 1, 18, 0, 5832);
    ClimbOdd(b, 18, 2147483629, 3, 5832, 0, 612220032);
    ClimbOdd(b, 18, 2147483629, 7, 612220032, 3141649382, 574491154);
    ClimbOdd(b, 18, 2147483629, 15, 574491154, 2766364068, 552688116);
    ClimbOdd(b, 18, 2147483629, 31, 552688116, 2560370980, 500643788);
    ClimbOdd(b, 18, 2147483629, 63, 500643788, 2100875454, 300858426);
    ClimbOdd(b, 18, 2147483629, 127, 300858426, 758694614, 1938080362);
    ClimbOdd(b, 18, 2147483629, 255, 1938080362, 31483731889, 808173611);
    ClimbOdd(b, 18, 2147483629, 511, 808173611, 5474594721, 544705269);
    ClimbOdd(b, 18, 2147483629, 1023, 544705269, 2486942796, 705035814);
  }

  lemma SecondPowerMiddle(b: nat)
    requires b == 18
    ensures Pow(b, 2097151) % 2147483629 == 648965406
  {
    SecondPowerStart(b);
    hide Pow;
    ClimbOdd(b, 18, 2147483629, 2047, 705035814, 4166438738, 1321146526);
    ClimbOdd(b, 18, 2147483629, 4095, 1321146526, 14630009818, 649366646);
    ClimbOdd(b, 18, 2147483629, 8191, 649366646, 3534456158, 147970306);
    ClimbOdd(b, 18, 2147483629, 16383, 147970306, 183523543, 2110627901);
    ClimbOdd(b, 18, 2147483629, 32767, 2110627901, 37339284627, 1580113035);
    ClimbOdd(b, 18, 2147483629, 65535, 1580113035, 20927577306, 1517478576);
    ClimbOdd(b, 18, 2147483629, 131071, 1517478576, 19301354178, 356028006);
    ClimbOdd(b, 18, 2147483629, 262143, 356028006, 1062456033, 1614264891);
    ClimbOdd(b, 18, 2147483629, 524287, 1614264891, 21841992114, 112252152);
    ClimbOdd(b, 18, 2147483629, 1048575, 112252152, 105616554, 648965406);
  }

  lemma SecondPower(b: nat)
    requires b == 18
    ensures Pow(b, 2147483627) % 2147483629 == 2028178983
  {
    SecondPowerMiddle(b);
    hide Pow;
    ClimbOdd(b, 18, 2147483629, 2097151, 648965406, 3530089666, 688329134);
    ClimbOdd(b, 18, 2147483629, 4194303, 688329134, 3971320584, 1186699872);
    ClimbOdd(b, 18, 2147483629, 8388607, 1186699872, 11803870450, 1474831862);
    ClimbOdd(b, 18, 2147483629, 16777215, 1474831862, 18231721002, 776490534);
    ClimbOdd(b, 18, 2147483629, 33554431, 776490534, 5053764202, 427643750);
    ClimbEven(b, 2147483629, 67108863, 427643750, 85159753, 1496878863);
    ClimbOdd(b, 18, 2147483629, 134217726, 1496878863, 18780880750, 104868092);
    ClimbEven(b, 2147483629, 268435453, 104868092, 5121024, 1516004368);
    ClimbOdd(b, 18, 2147483629, 536870906, 1516004368, 19263870434, 119304646);
    ClimbOdd(b, 18, 2147483629, 1073741813, 119304646, 119304645, 2028178983);
  }

  lemma OneModulusGood(ps: WordModuli)
    requires |ps| > 0 && 2 < ps[0] < TWO_63
    ensures GoodModuli(ps, 1) && ProductOf(ps, 1) == ps[0]
  {
    assert ProductOf(ps, 1) == ProductOf(ps, 0) * ps[0];
    MultipleIsZeroMod(1, ps[0]);
    ModSmall(1, ps[0]);
    PowOne(ps[0] - 2);
  }

  lemma {:induction false} PowOne(e: nat)
    ensures Pow(1, e) == 1
  {
    if e > 0 {
      PowOne(e - 1);
    }
  }

  lemma TwoModuliGood(ps: WordModuli, p: u64, q: u64)
    requires |ps| >= 2 && ps[0] == p == 2147483647 && ps[1] == q == 2147483629
    ensures GoodModuli(ps, 2) && ProductOf(ps, 2) == 4611685975477714963
  {
    assert ProductOf(ps, 1) == ProductOf(ps, 0) * p;
    assert ProductOf(ps, 2) == ProductOf(ps, 1) * q;
    var product := ProductOf(ps, 2);
    hide ProductOf, Pow;
    assert product / p == q && product / q == p;
    FirstInverse(p, q, product);
    SecondInverse(p, q, product);
    CombinationCoprime(p, q, -119304646, 119304647);
    assert PairwiseCoprime(ps, 2);
  }

  lemma FirstInverse(p: u64, q: u64, product: u64)
    requires p == 2147483647 && q == 2147483629 && product / p == q
    ensures InverseComputed(p, product)
  {
    hide Pow;
    FirstPower(q % p);
  }

  lemma SecondInverse(p: u64, q: u64, product: u64)
    requires p == 2147483647 && q == 2147483629 && product / q == p
    ensures InverseComputed(q, product)
  {
    hide Pow;
    assert p % q == 18;
    SecondPower(p % q);
  }

  lemma CombinationCoprime(p: int, q: int, x: int, y: int)
    requires p * x + q * y == 1
    ensures Coprime(p, q) && Coprime(q, p)
  {
    forall d | d > 0 && Divides(d, p) && Divides(d, q) ensures d == 1 {
      DividesTimes(d, p, x);
      DividesTimes(d, q, y);
      DividesSum(d, p * x, q * y);
      OneCoprime(1);
    }
  }

  lemma {:induction false} HeaderOverflow(n: nat)
    requires 3 <= n <= NUM_CRT_PRIMES
    ensures ProductOf(CRT_PRIMES, n) > TWO_64
  {
    if n == 3 {
      assert ProductOf(CRT_PRIMES, 3) == 9903519940736477367306812281;
    } else {
      HeaderOverflow(n - 1);
      MulAtLeast(ProductOf(CRT_PRIMES, n - 1), CRT_PRIMES[n - 1]);
    }
  }

  /** The code splits and rebuilds values faithfully with two primes of its table, and with no more. */
  lemma TableRoundTrip(n: nat)
    requires n <= NUM_CRT_PRIMES
    ensures WrappedProduct(CRT_PRIMES, n) > 0
    ensures RoundTrips(CRT_PRIMES, n) <==> n <= 2
  {
    hide ProductOf, GoodModuli, RoundTrips;
    HeaderProducts(n);
    if n <= 2 {
      FewPrimesGood(n);
      RoundTripsIff(CRT_PRIMES, n);
      SmallSumsFit(CRT_PRIMES, n);
    } else {
      HeaderOverflow(n);
      WrapLosesValues(CRT_PRIMES, n);
    }
  }

  lemma FewPrimesGood(n: nat)
    requires n <= 2
    ensures GoodModuli(CRT_PRIMES, n) && ProductOf(CRT_PRIMES, n) <= TWO_63
  {
    if n == 1 {
      OneModulusGood(CRT_PRIMES);
    } else if n == 2 {
      TwoModuliGood(CRT_PRIMES, CRT_PRIMES[0], CRT_PRIMES[1]);
    }
  }
}
