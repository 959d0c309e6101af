/**
 Exactly which lists of moduli the kernel's reconstruction serves (kernel/symmetrix-galois.c): the
 product must fit 64 bits, and so must the largest sum that each turn can reach.
 */
module CrtOverflow {
  import opened MachineIntegers
  import opened NumberTheory
  import opened CrtIntegers
  import opened Crt

  /** Every 64-bit value below the product of the first n moduli survives the round trip. */
  ghost predicate RoundTrips(ps: WordModuli, n: nat)
    requires n <= |ps|
  {
    && WrappedProduct(ps, n) > 0
    && forall value: u64 | value < ProductOf(ps, n) :: Reconstruct(ResiduesOf(value, ps, n), ps, n) == value
  }

  /** The largest sum before the reduction of turn k: the largest multiples of what each side must divide by. */
  ghost function LargestSum(ps: Moduli, n: nat, k: nat): int
    requires k < n <= |ps| && ProductOf(ps, k) > 0
  {
    var product := ProductOf(ps, n);
    (product - product / ProductOf(ps, k)) + (product - product / ps[k])
  }

  ghost predicate SumsFit(ps: Moduli, n: nat)
    requires n <= |ps|
  {
    && ProductOf(ps, n) < TWO_64
    && forall k | 0 < k < n :: ProductOf(ps, k) > 0 && LargestSum(ps, n, k) < TWO_64
  }

  // ----- multiples below a product -----

  lemma SubtractMultiple(a: int, b: int, q: int)
    requires q > 0 && Divides(q, b)
    ensures (a - b) % q == a % q
  {
    DivisionIdentity(b, q);
    var c := b / q;
    assert a - b == a + (-c) * q by {
      assert q * c == c * q;
    }
    ModOfMultiple(a, -c, q);
  }

  lemma PositiveMultiple(m: nat, x: nat)
    requires m > 0 && x > 0 && Divides(m, x)
    ensures x >= m
  {
    if x < m {
      ModSmall(x, m);
    }
  }

  /** A multiple of m below a product that m divides is at most the product less m. */
  lemma LargestMultiple(x: nat, m: nat, product: nat)
    requires 0 < m && Divides(m, x) && Divides(m, product) && x < product
    ensures x <= product - m
  {
    SubtractMultiple(product, x, m);
    PositiveMultiple(m, product - x);
  }

  /** Dividing by a divisor leaves a divisor. */
  lemma Cofactor(product: nat, d: nat)
    requires product > 0 && d > 0 && Divides(d, product)
    ensures 0 < product / d <= product && Divides(product / d, product)
  {
    PositiveMultiple(d, product);
    QuotientAtLeast(product, d, 1);
    QuotientAtMost(product, d);
    DivisionIdentity(product, d);
    MultipleIsZeroMod(d, product / d);
    assert d * (product / d) == (product / d) * d;
  }

  /** The product of the first n is that of the first k times that of the others. */
  lemma {:induction false} ProductSplit(ps: Moduli, k: nat, n: nat)
    requires k <= n <= |ps|
    ensures ProductOf(ps, n) == ProductOf(ps, k) * ProductOf(ps[k..], n - k)
    decreases n
  {
    if k < n {
      ProductSplit(ps, k, n - 1);
      var a, b, c := ProductOf(ps, k), ProductOf(ps[k..], n - 1 - k), ps[n - 1];
      assert ps[k..][n - 1 - k] == c;
      assert ProductOf(ps[k..], n - k) == b * c && ProductOf(ps, n) == ProductOf(ps, n - 1) * c;
      hide ProductOf;
      Associate(a, b, c);
    }
  }

  /** The rest of the product: what the moduli from k on multiply to. */
  lemma TailOf(ps: Moduli, k: nat, n: nat)
    requires k <= n <= |ps|
    ensures ProductOf(ps, k) > 0 && ProductOf(ps, n) > 0 && Divides(ProductOf(ps, k), ProductOf(ps, n))
    ensures ProductOf(ps, n) / ProductOf(ps, k) == ProductOf(ps[k..], n - k) > 0
  {
    ProductPositive(ps, k);
    ProductPositive(ps, n);
    ProductPositive(ps[k..], n - k);
    ProductSplit(ps, k, n);
    DivModUnique(ProductOf(ps, n), ProductOf(ps, k), ProductOf(ps[k..], n - k), 0);
  }

  /** A modulus from k on divides the rest, an earlier one does not matter. */
  lemma MemberDividesTail(ps: Moduli, k: nat, n: nat, j: nat)
    requires k <= j < n <= |ps|
    ensures ProductOf(ps, k) > 0 && Divides(ps[j], ProductOf(ps, n) / ProductOf(ps, k))
  {
    TailOf(ps, k, n);
    MemberDividesProduct(ps[k..], n - k, j - k);
    assert ps[k..][j - k] == ps[j];
  }

  // ----- the sums stay below their largest values -----

  /** The sum is a multiple of every modulus from turn k on. */
  lemma SumDivisible(residues: seq<nat>, ps: Moduli, n: nat, k: nat, i: nat)
    requires k <= n <= |ps| && n <= |residues| && GoodModuli(ps, n) && ProductOf(ps, n) > 0 && i < n - k
    ensures Divides(ps[k..][i], SumOfTerms(residues, ps, k, ProductOf(ps, n)))
  {
    hide SumOfTerms, ProductOf, GoodModuli;
    SumResidue(residues, ps, n, k, k + i);
    assert ps[k..][i] == ps[k + i];
  }

  /** So it is a multiple of their product. */
  lemma TailDividesSum(residues: seq<nat>, ps: Moduli, n: nat, k: nat)
    requires k <= n <= |ps| && n <= |residues| && GoodModuli(ps, n) && ProductOf(ps, n) > 0
    ensures ProductOf(ps[k..], n - k) > 0
    ensures Divides(ProductOf(ps[k..], n - k), SumOfTerms(residues, ps, k, ProductOf(ps, n)))
  {
    var s := SumOfTerms(residues, ps, k, ProductOf(ps, n));
    forall i | 0 <= i < n - k ensures Divides(ps[k..][i], s) {
      SumDivisible(residues, ps, n, k, i);
    }
    TailCoprime(ps, n, k);
    hide SumOfTerms, ProductOf, GoodModuli, PairwiseCoprime;
    ProductDivides(ps[k..], n - k, s);
  }

  lemma SumBound(residues: seq<nat>, ps: Moduli, n: nat, k: nat)
    requires k <= n <= |ps| && n <= |residues| && GoodModuli(ps, n)
    ensures ProductOf(ps, n) > 0 && ProductOf(ps, k) > 0
    ensures SumOfTerms(residues, ps, k, ProductOf(ps, n)) <= ProductOf(ps, n) - ProductOf(ps, n) / ProductOf(ps, k)
  {
    hide *;
    TailOf(ps, k, n);
    TailDividesSum(residues, ps, n, k);
    var product, d := ProductOf(ps, n), ProductOf(ps, k);
    Cofactor(product, d);
    LargestMultiple(SumOfTerms(residues, ps, k, product), product / d, product);
  }

  lemma TailCoprime(ps: Moduli, n: nat, k: nat)
    requires k <= n <= |ps| && PairwiseCoprime(ps, n)
    ensures PairwiseCoprime(ps[k..], n - k)
  {
    forall i, j | 0 <= i < n - k && 0 <= j < n - k && i != j ensures Coprime(ps[k..][i], ps[k..][j]) {
      assert ps[k..][i] == ps[k + i] && ps[k..][j] == ps[k + j];
    }
  }

  lemma TermBound(residue: nat, p: nat, product: nat)
    requires p >= 2 && product > 0 && Divides(p, product)
    ensures Term(residue, p, product) <= product - product / p
  {
    Cofactor(product, p);
    var m, inverse := product / p, CodeInverse(p, product);
    MultipleIsZeroMod(residue, m);
    ModOfMod(residue * m, product, m);
    var a := residue * m % product;
    DividesTimes(m, a, inverse);
    ModOfMod(a * inverse, product, m);
    LargestMultiple(Term(residue, p, product), m, product);
  }

  /** When the largest sums fit, no partial sum of any residues reaches 2^64. */
  lemma FitMeansNoWrap(residues: seq<u64>, ps: WordModuli, n: nat)
    requires n <= |ps| && n <= |residues| && GoodModuli(ps, n) && SumsFit(ps, n)
    ensures ProductOf(ps, n) > 0 && NoPartialWrap(residues, ps, n, ProductOf(ps, n))
  {
    ProductPositive(ps, n);
    forall k | 0 <= k < n
      ensures SumOfTerms(residues, ps, k, ProductOf(ps, n)) + Term(residues[k], ps[k], ProductOf(ps, n)) < TWO_64
    {
      PartialBound(residues, ps, n, k);
      FirstTurnFits(ps, n);
    }
  }

  /** No residues drive a turn above its largest sum. */
  lemma PartialBound(residues: seq<nat>, ps: Moduli, n: nat, k: nat)
    requires k < n <= |ps| && n <= |residues| && GoodModuli(ps, n)
    ensures ProductOf(ps, n) > 0 && ProductOf(ps, k) > 0
    ensures SumOfTerms(residues, ps, k, ProductOf(ps, n)) + Term(residues[k], ps[k], ProductOf(ps, n))
            <= LargestSum(ps, n, k)
  {
    hide Term, SumOfTerms, GoodModuli;
    SumBound(residues, ps, n, k);
    MemberDividesProduct(ps, n, k);
    TermBound(residues[k], ps[k], ProductOf(ps, n));
  }

  /** The first turn, which starts from zero, stays below the product. */
  lemma FirstTurnFits(ps: Moduli, n: nat)
    requires 0 < n <= |ps|
    ensures ProductOf(ps, 0) > 0 && LargestSum(ps, n, 0) <= ProductOf(ps, n)
  {
    TailOf(ps, 0, n);
    MemberDividesProduct(ps, n, 0);
    QuotientAtLeast(ProductOf(ps, n), ps[0], 0);
  }

  // ----- otherwise some value is lost -----

  /** The value that drives turn k to its largest sum. */
  ghost function Worst(ps: Moduli, n: nat, k: nat): int
    requires k < n <= |ps| && ProductOf(ps, k) > 0
  {
    LargestSum(ps, n, k) - ProductOf(ps, n)
  }

  /** Its residues: below k those of the largest partial sum, at k that of the largest term, above k zero. */
  lemma WorstResidues(ps: Moduli, n: nat, k: nat, j: nat)
    requires k < n <= |ps| && j < n && ProductOf(ps, k) > 0 && GoodModuli(ps, n)
    ensures var product := ProductOf(ps, n);
            var low, high := product - product / ProductOf(ps, k), product - product / ps[k];
            && product > 0
            && (j < k ==> Worst(ps, n, k) % ps[j] == low % ps[j])
            && (j >= k ==> low % ps[j] == 0)
            && (j == k ==> Worst(ps, n, k) % ps[j] == high % ps[j])
            && (j != k ==> high % ps[j] == 0)
            && (j > k ==> Worst(ps, n, k) % ps[j] == 0)
  {
    ProductPositive(ps, n);
    var product, q := ProductOf(ps, n), ps[j];
    var tail, cofactor := product / ProductOf(ps, k), product / ps[k];
    MemberDividesProduct(ps, n, j);
    MemberDividesProduct(ps, n, k);
    if j != k {
      CofactorDivisible(product, ps[k], q);
      SubtractMultiple(product, cofactor, q);
      SubtractMultiple(product - tail, cofactor, q);
    }
    if j >= k {
      MemberDividesTail(ps, k, n, j);
      SubtractMultiple(product, tail, q);
      SubtractMultiple(product - cofactor, tail, q);
    }
  }

  /** Two numbers below the product with equal residues are equal. */
  lemma SameResidues(ps: Moduli, n: nat, x: nat, y: nat)
    requires n <= |ps| && GoodModuli(ps, n) && x < ProductOf(ps, n) && y < ProductOf(ps, n)
    requires forall j | 0 <= j < n :: x % ps[j] == y % ps[j]
    ensures x == y
  {
    var rs := ResiduesOf(y, ps, n);
    forall j | 0 <= j < n ensures y % ps[j] == rs[j] % ps[j] {
      ModIdempotent(y, ps[j]);
    }
    ResiduesDetermine(rs, ps, n, x, y);
  }

  lemma WorstSumAt(ps: Moduli, n: nat, k: nat, residues: seq<nat>, j: nat)
    requires 0 < k < n <= |ps| && ProductOf(ps, k) > 0 && ProductOf(ps, n) > 0 && GoodModuli(ps, n) && j < n
    requires Worst(ps, n, k) >= 0 && residues == ResiduesOf(Worst(ps, n, k), ps, n)
    ensures var product := ProductOf(ps, n);
            && SumOfTerms(residues, ps, k, product) % ps[j] == (product - product / ProductOf(ps, k)) % ps[j]
            && Term(residues[k], ps[k], product) % ps[j] == (product - product / ps[k]) % ps[j]
  {
    hide Term, SumOfTerms, Worst, ProductOf, Divides, GoodModuli;
    WorstResidues(ps, n, k, j);
    SumResidue(residues, ps, n, k, j);
    TermModAny(residues[k], ps, n, k, j);
    ModIdempotent(Worst(ps, n, k), ps[j]);
  }

  /** With the worst value's residues turn k reaches the largest sum. */
  lemma WorstSum(ps: Moduli, n: nat, k: nat, residues: seq<nat>)
    requires 0 < k < n <= |ps| && ProductOf(ps, k) > 0 && ProductOf(ps, n) > 0 && GoodModuli(ps, n)
    requires Worst(ps, n, k) >= 0 && residues == ResiduesOf(Worst(ps, n, k), ps, n)
    ensures var product := ProductOf(ps, n);
            && SumOfTerms(residues, ps, k, product) == product - product / ProductOf(ps, k)
            && Term(residues[k], ps[k], product) == product - product / ps[k]
  {
    hide Term, SumOfTerms, Worst, ProductOf, Divides, GoodModuli, ResiduesOf;
    var product := ProductOf(ps, n);
    TailOf(ps, k, n);
    MemberDividesProduct(ps, n, k);
    Cofactor(product, ps[k]);
    Cofactor(product, ProductOf(ps, k));
    var s, t := SumOfTerms(residues, ps, k, product), Term(residues[k], ps[k], product);
    var low, high := product - product / ProductOf(ps, k), product - product / ps[k];
    forall j | 0 <= j < n ensures s % ps[j] == low % ps[j] && t % ps[j] == high % ps[j] {
      WorstSumAt(ps, n, k, residues, j);
    }
    SameResidues(ps, n, s, low);
    SameResidues(ps, n, t, high);
  }

  /** Residues that are zero from turn k on leave the accumulator as it is. */
  lemma {:induction false} ZeroResidues(residues: seq<u64>, ps: WordModuli, k: nat, n: nat, product: u64)
    requires k <= n <= |ps| && n <= |residues| && product > 0
    requires forall i | k <= i < n :: residues[i] == 0
    ensures WrappedSum(residues, ps, n, product) == WrappedSum(residues, ps, k, product)
    decreases n
  {
    if k < n {
      ZeroResidues(residues, ps, k, n - 1, product);
      var s := WrappedSum(residues, ps, n - 1, product);
      ZeroTerm(ps[n - 1], product);
      hide Term, Wrap64;
      assert WrappedSum(residues, ps, n, product) == Wrap64(s + 0) % product;
      Wrap64Small(s);
      ModSmall(s, product);
    }
  }

  lemma ZeroTerm(p: nat, product: nat)
    requires p >= 2 && product > 0
    ensures Term(0, p, product) == 0
  {
    assert 0 * (product / p) == 0;
    ModSmall(0, product);
    assert 0 * CodeInverse(p, product) == 0;
  }

  /** A sum that wraps once leaves less than the value that caused it. */
  lemma WorstIsLost(ps: WordModuli, n: nat, k: nat)
    requires 0 < k < n <= |ps| && GoodModuli(ps, n) && ProductOf(ps, n) < TWO_64
    requires ProductOf(ps, k) > 0 && LargestSum(ps, n, k) >= TWO_64
    requires forall i | 0 < i < k :: ProductOf(ps, i) > 0 && LargestSum(ps, n, i) < TWO_64
    ensures !RoundTrips(ps, n)
  {
    NoWrap(ps, n);
    var product: u64 := ProductOf(ps, n);
    TailOf(ps, k, n);
    MemberDividesProduct(ps, n, k);
    Cofactor(product, ps[k]);
    var value: u64 := Worst(ps, n, k);
    var residues: seq<u64> := ResiduesOf(value, ps, n);
    WorstSum(ps, n, k, residues);
    forall i | 0 <= i < k
      ensures SumOfTerms(residues, ps, i, product) + Term(residues[i], ps[i], product) < TWO_64
    {
      PartialBound(residues, ps, n, i);
      FirstTurnFits(ps, n);
    }
    SumIsInteger(residues, ps, k, product);
    forall i | k < i < n ensures residues[i] == 0 {
      WorstResidues(ps, n, k, i);
    }
    hide Term, SumOfTerms, ProductOf;
    ZeroResidues(residues, ps, k + 1, n, product);
    WrappedTurn(residues, ps, k, product);
    assert WrappedSum(residues, ps, n, product) != value;
    assert Reconstruct(residues, ps, n) == WrappedSum(residues, ps, n, product);
  }

  /** The turn that wraps. */
  lemma WrappedTurn(residues: seq<u64>, ps: WordModuli, k: nat, product: u64)
    requires k < |ps| && k < |residues| && product > 0
    requires WrappedSum(residues, ps, k, product) + Term(residues[k], ps[k], product) >= TWO_64
    ensures WrappedSum(residues, ps, k + 1, product) ==
            WrappedSum(residues, ps, k, product) + Term(residues[k], ps[k], product) - TWO_64
  {
    var s := WrappedSum(residues, ps, k, product) + Term(residues[k], ps[k], product);
    hide Term;
    ModOfMultiple(s - TWO_64, 1, TWO_64);
    ModSmall(s - TWO_64, TWO_64);
    ModSmall(s - TWO_64, product);
  }

  /** Once the product reaches 2^64 the largest 64-bit value is lost. */
  lemma WrapLosesValues(ps: WordModuli, n: nat)
    requires n <= |ps| && ProductOf(ps, n) >= TWO_64
    ensures !RoundTrips(ps, n)
  {
    if WrappedProduct(ps, n) > 0 {
      WrappedIsModular(ps, n);
      if ProductOf(ps, n) == TWO_64 {
        ModOfMultiple(0, 1, TWO_64);
        assert false;
      }
      var value: u64 := TWO_64 - 1;
      assert Reconstruct(ResiduesOf(value, ps, n), ps, n) != value;
    }
  }

  /** The code serves a list of good moduli exactly when the product and the largest sums fit 64 bits. */
  lemma RoundTripsIff(ps: WordModuli, n: nat)
    requires n <= |ps| && GoodModuli(ps, n)
    ensures RoundTrips(ps, n) <==> SumsFit(ps, n)
  {
    if ProductOf(ps, n) >= TWO_64 {
      WrapLosesValues(ps, n);
    } else if SumsFit(ps, n) {
      hide SumsFit;
      NoWrap(ps, n);
      forall value: u64 | value < ProductOf(ps, n)
        ensures Reconstruct(ResiduesOf(value, ps, n), ps, n) == value
      {
        FitMeansNoWrap(ResiduesOf(value, ps, n), ps, n);
        ReconstructIsRebuild(ResiduesOf(value, ps, n), ps, n);
        GoodRebuild(ps, n, value);
      }
    } else {
      var k := FirstOverflow(ps, n);
      WorstIsLost(ps, n, k);
    }
  }

  /** The first turn whose largest sum does not fit. */
  lemma FirstOverflow(ps: WordModuli, n: nat) returns (k: nat)
    requires n <= |ps| && ProductOf(ps, n) < TWO_64 && !SumsFit(ps, n)
    ensures 0 < k < n && ProductOf(ps, k) > 0 && LargestSum(ps, n, k) >= TWO_64
    ensures forall i | 0 < i < k :: ProductOf(ps, i) > 0 && LargestSum(ps, n, i) < TWO_64
  {
    forall i | 0 < i < n ensures ProductOf(ps, i) > 0 {
      ProductPositive(ps, i);
    }
    var overflow :| 0 < overflow < n && LargestSum(ps, n, overflow) >= TWO_64;
    hide ProductOf, LargestSum;
    k := 1;
    while LargestSum(ps, n, k) < TWO_64
      invariant 0 < k <= overflow
      invariant forall i | 0 < i < k :: LargestSum(ps, n, i) < TWO_64
      decreases overflow - k
    {
      k := k + 1;
    }
  }

  /** A product of at most 2^63 is small enough for every sum. */
  lemma SmallSumsFit(ps: Moduli, n: nat)
    requires n <= |ps| && ProductOf(ps, n) <= TWO_63
    ensures SumsFit(ps, n)
  {
    forall k | 0 < k < n ensures ProductOf(ps, k) > 0 && LargestSum(ps, n, k) < TWO_64 {
      TailOf(ps, k, n);
      MemberDividesProduct(ps, n, k);
      Cofactor(ProductOf(ps, n), ps[k]);
    }
  }

  /** The same for distinct primes, of any number and size that 64 bits hold. */
  lemma PrimesRoundTripIff(ps: WordModuli)
    requires DistinctPrimes(ps)
    ensures RoundTrips(ps, |ps|) <==> SumsFit(ps, |ps|)
  {
    DistinctPrimesGood(ps, |ps|);
    RoundTripsIff(ps, |ps|);
  }
}
