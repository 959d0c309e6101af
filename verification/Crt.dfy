/**
 Splitting a 64-bit value into residues and rebuilding it, with the kernel's wrapping arithmetic
 (kernel/symmetrix-galois.c, table in kernel/symmetrix.h), against the integers' remainder theorem.
 */
module Crt {
  import opened MachineIntegers
  import opened NumberTheory
  import opened GaloisKernel
  import opened CrtIntegers

  const EINVAL := 22
  const NUM_CRT_PRIMES := 8
  const CRT_PRIMES: seq<u64> := [
    2147483647, 2147483629, 2147483587, 2147483579,
    2147483563, 2147483549, 2147483543, 2147483497
  ]

  // ----- what the two loops compute, over the first n moduli of a list -----

  /** A list of 64-bit moduli. */
  type WordModuli = ps: seq<u64> | forall i | 0 <= i < |ps| :: ps[i] >= 2 witness []

  /** The product as the u64 accumulator holds it. */
  function WrappedProduct(ps: seq<u64>, n: nat): u64
    requires n <= |ps|
  {
    if n == 0 then 1 else Wrap64(WrappedProduct(ps, n - 1) * ps[n - 1])
  }

  /** The accumulator after k residues. */
  function WrappedSum(residues: seq<u64>, ps: WordModuli, k: nat, product: u64): (s: u64)
    requires k <= |ps| && k <= |residues| && product > 0
    ensures s < product
  {
    if k == 0 then 0
    else Wrap64(WrappedSum(residues, ps, k - 1, product) + Term(residues[k - 1], ps[k - 1], product)) % product
  }

  /** What reconstruction answers; a product that wraps to 0 would make the source divide by 0. */
  function Reconstruct(residues: seq<u64>, ps: WordModuli, n: nat): (v: u64)
    requires n <= |ps| && n <= |residues| && WrappedProduct(ps, n) > 0
    ensures v < WrappedProduct(ps, n)
  {
    WrappedSum(residues, ps, n, WrappedProduct(ps, n))
  }

  // ----- the table in the header -----

  /** No prefix of the table wraps to a zero product. */
  lemma HeaderProducts(n: nat)
    requires n <= NUM_CRT_PRIMES
    ensures WrappedProduct(CRT_PRIMES, n) > 0
  {
    assert WrappedProduct(CRT_PRIMES, 1) == 2147483647;
    assert WrappedProduct(CRT_PRIMES, 2) == 4611685975477714963;
    assert WrappedProduct(CRT_PRIMES, 3) == 13835060716014402425;
    assert WrappedProduct(CRT_PRIMES, 4) == 18446557994251532387;
    assert WrappedProduct(CRT_PRIMES, 5) == 9239360527201224481;
    assert WrappedProduct(CRT_PRIMES, 6) == 12237599915724537405;
    assert WrappedProduct(CRT_PRIMES, 7) == 16992627976108521723;
    assert WrappedProduct(CRT_PRIMES, 8) == 7877609778735637491;
  }

  // ----- the methods -----

  /** The count is converted to the unsigned type of the table's size, so a negative one is too large. */
  predicate TooMany(numPrimes: int) {
    numPrimes < 0 || numPrimes > NUM_CRT_PRIMES
  }

  lemma SumStart(residues: seq<u64>, product: u64)
    requires product > 0
    ensures WrappedSum(residues, CRT_PRIMES, 0, product) == 0
  {
  }

  lemma SumNext(residues: seq<u64>, k: nat, product: u64)
    requires k < NUM_CRT_PRIMES && k < |residues| && product > 0
    ensures WrappedSum(residues, CRT_PRIMES, k + 1, product) ==
            Wrap64(WrappedSum(residues, CRT_PRIMES, k, product) + Term(residues[k], CRT_PRIMES[k], product)) % product
  {
  }

  lemma PowIs(b: u64, e: u64, m: u64)
    requires m > 0
    ensures PowModulo(b, e, m) == if e == 0 then 1 else Pow(b, e) % m
  {
  }

  /** A term from what the exponentiation answers. */
  lemma TermSteps(residue: u64, prime: u64, product: u64, m: u64, inverse: u64, first: nat, second: nat)
    requires prime >= 2 && product > 0 && m == product / prime
    requires inverse == PowModulo(m % prime, prime - 2, prime)
    requires first == residue * m && second == first % product * inverse
    ensures Term(residue, prime, product) == second % product
  {
    hide Pow, PowModulo;
  }

  class GaloisEngine {
    const crtPrimes: WordModuli := CRT_PRIMES

    method Decompose(value: u64, residues: array<u64>, numPrimes: int) returns (status: int)
      requires numPrimes <= NUM_CRT_PRIMES ==> numPrimes <= residues.Length
      modifies residues
      ensures status == if 0 <= numPrimes <= 8 then 0 else -22
      ensures status == 0 ==>
                residues[..] == ResiduesOf(value, CRT_PRIMES, numPrimes) + old(residues[numPrimes..])
      ensures status != 0 ==> residues[..] == old(residues[..])
    {
      if TooMany(numPrimes) {
        return -EINVAL;
      }
      var i := 0;
      while i < numPrimes
        invariant 0 <= i <= numPrimes
        invariant forall j | 0 <= j < i :: residues[j] == value % CRT_PRIMES[j]
        invariant forall j | i <= j < residues.Length :: residues[j] == old(residues[j])
      {
        residues[i] := value % crtPrimes[i];
        i := i + 1;
      }
      return 0;
    }

    method ReconstructFrom(residues: array<u64>, numPrimes: int) returns (status: int, result: u64)
      requires numPrimes <= NUM_CRT_PRIMES ==> numPrimes <= residues.Length
      ensures status == if 0 <= numPrimes <= 8 then 0 else -22
      ensures status == 0 ==>
                WrappedProduct(CRT_PRIMES, numPrimes) > 0 && result == Reconstruct(residues[..], CRT_PRIMES, numPrimes)
    {
      result := 0;
      if TooMany(numPrimes) {
        return -EINVAL, result;
      }
      var product := ProductOfPrimes(numPrimes);
      HeaderProducts(numPrimes);
      hide WrappedProduct, Term, Wrap64, WrappedSum;
      SumStart(residues[..], product);
      var sum: u64 := 0;
      var i := 0;
      while i < numPrimes
        invariant 0 <= i <= numPrimes
        invariant sum == WrappedSum(residues[..], crtPrimes, i, product)
      {
        var term := ComputeTerm(residues[i], crtPrimes[i], product);
        SumNext(residues[..], i, product);
        sum := Wrap64(sum + term) % product;
        i := i + 1;
      }
      return 0, sum;
    }

    /** The first loop. */
    method ProductOfPrimes(numPrimes: nat) returns (product: u64)
      requires numPrimes <= NUM_CRT_PRIMES
      ensures product == WrappedProduct(CRT_PRIMES, numPrimes)
    {
      hide Wrap64;
      product := 1;
      var i := 0;
      while i < numPrimes
        invariant 0 <= i <= numPrimes
        invariant product == WrappedProduct(crtPrimes, i)
      {
        product := Wrap64(product * crtPrimes[i]);
        i := i + 1;
      }
    }

    method ComputeTerm(residue: u64, prime: u64, product: u64) returns (term: u64)
      requires prime >= 2 && product > 0
      ensures term == Term(residue, prime, product)
    {
      hide *;
      QuotientAtMost(product, prime);
      var m := product / prime;
      var inverse := GaloisPow(m % prime, prime - 2, prime);
      PowIs(m % prime, prime - 2, prime);
      var first: u128 := Wide(residue, m);
      var second: u128 := Wide(first % product, inverse);
      term := second % product;
      TermSteps(residue, prime, product, m, inverse, first, second);
    }
  }

  // ----- the code against the integers -----

  lemma {:induction false} WrappedIsModular(ps: seq<u64>, n: nat)
    requires n <= |ps|
    ensures WrappedProduct(ps, n) == ProductOf(ps, n) % TWO_64
  {
    if n > 0 {
      WrappedIsModular(ps, n - 1);
      ModMul(ProductOf(ps, n - 1), ps[n - 1], TWO_64);
    }
  }

  lemma NoWrap(ps: WordModuli, n: nat)
    requires n <= |ps| && ProductOf(ps, n) < TWO_64
    ensures WrappedProduct(ps, n) == ProductOf(ps, n) > 0
  {
    ProductPositive(ps, n);
    WrappedIsModular(ps, n);
    ModSmall(ProductOf(ps, n), TWO_64);
  }

  /** No partial sum of the first k turns reaches 2^64. */
  ghost predicate NoPartialWrap(residues: seq<u64>, ps: WordModuli, k: nat, product: nat)
    requires k <= |ps| && k <= |residues| && product > 0
  {
    forall i | 0 <= i < k :: SumOfTerms(residues, ps, i, product) + Term(residues[i], ps[i], product) < TWO_64
  }

  /** A turn whose sum stays below 2^64 is the integers' turn. */
  lemma SumTurn(residues: seq<u64>, ps: WordModuli, k: nat, product: u64)
    requires 0 < k <= |ps| && k <= |residues| && product > 0
    requires WrappedSum(residues, ps, k - 1, product) == SumOfTerms(residues, ps, k - 1, product)
    requires SumOfTerms(residues, ps, k - 1, product) + Term(residues[k - 1], ps[k - 1], product) < TWO_64
    ensures WrappedSum(residues, ps, k, product) == SumOfTerms(residues, ps, k, product)
  {
    hide Term, Wrap64;
    Wrap64Small(SumOfTerms(residues, ps, k - 1, product) + Term(residues[k - 1], ps[k - 1], product));
  }

  lemma {:induction false} SumIsInteger(residues: seq<u64>, ps: WordModuli, k: nat, product: u64)
    requires k <= |ps| && k <= |residues| && product > 0 && NoPartialWrap(residues, ps, k, product)
    ensures WrappedSum(residues, ps, k, product) == SumOfTerms(residues, ps, k, product)
  {
    if k > 0 {
      SumIsInteger(residues, ps, k - 1, product);
      SumTurn(residues, ps, k, product);
    }
  }

  /** As long as neither the product nor a partial sum reaches 2^64, the code rebuilds what the integers do. */
  lemma ReconstructIsRebuild(residues: seq<u64>, ps: WordModuli, n: nat)
    requires n <= |ps| && n <= |residues| && ProductOf(ps, n) < TWO_64
    requires ProductOf(ps, n) > 0 && NoPartialWrap(residues, ps, n, ProductOf(ps, n))
    ensures WrappedProduct(ps, n) > 0 && Reconstruct(residues, ps, n) == Rebuild(residues, ps, n)
  {
    NoWrap(ps, n);
    SumIsInteger(residues, ps, n, ProductOf(ps, n));
  }

  /** With a product of at most 2^63 no partial sum reaches 2^64. */
  lemma SmallProductFits(residues: seq<u64>, ps: WordModuli, n: nat)
    requires n <= |ps| && n <= |residues| && ProductOf(ps, n) <= TWO_63
    ensures ProductOf(ps, n) > 0 && NoPartialWrap(residues, ps, n, ProductOf(ps, n))
    ensures WrappedProduct(ps, n) > 0 && Reconstruct(residues, ps, n) == Rebuild(residues, ps, n)
  {
    ProductPositive(ps, n);
    ReconstructIsRebuild(residues, ps, n);
  }

  /** Rebuilding any residues gives the one number below the product that has them. */
  lemma ReconstructIsTheOne(residues: seq<u64>, ps: WordModuli, n: nat)
    requires n <= |ps| && n <= |residues| && GoodModuli(ps, n) && ProductOf(ps, n) <= TWO_63
    ensures WrappedProduct(ps, n) == ProductOf(ps, n) > 0
    ensures HasResidues(Reconstruct(residues, ps, n), residues, ps, n)
    ensures forall x: nat | x < ProductOf(ps, n) && HasResidues(x, residues, ps, n) :: x == Reconstruct(residues, ps, n)
  {
    NoWrap(ps, n);
    SmallProductFits(residues, ps, n);
    RebuildIsTheOne(residues, ps, n);
  }

  /** Round trip, for any number of distinct primes whose product is at most 2^63. */
  lemma RoundTrip(ps: WordModuli, value: u64)
    requires DistinctPrimes(ps) && ProductOf(ps, |ps|) <= TWO_63 && value < ProductOf(ps, |ps|)
    ensures WrappedProduct(ps, |ps|) > 0 && Reconstruct(ResiduesOf(value, ps, |ps|), ps, |ps|) == value
  {
    SmallProductFits(ResiduesOf(value, ps, |ps|), ps, |ps|);
    PrimesRoundTrip(ps, value);
  }
}
