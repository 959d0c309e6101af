/**
 The Chinese remainder theorem over the integers, for the way of rebuilding that the kernel uses
 (kernel/symmetrix-galois.c): any number of moduli of any size, nothing wraps.
 */
module CrtIntegers {
  import opened NumberTheory

  /** A list of moduli; rebuilding would divide by 0 with a modulus 0. */
  type Moduli = ps: seq<nat> | forall i | 0 <= i < |ps| :: ps[i] >= 2 witness []

  /** The product of the first n moduli. */
  ghost function ProductOf(ps: seq<nat>, n: nat): nat
    requires n <= |ps|
  {
    if n == 0 then 1 else ProductOf(ps, n - 1) * ps[n - 1]
  }

  function PowModulo(b: int, e: nat, m: int): int
    requires m > 0
  {
    if e == 0 then 1 else Pow(b, e) % m
  }

  /** What the exponentiation answers for the inverse of product / p modulo p. */
  function CodeInverse(p: nat, product: nat): int
    requires p >= 2
  {
    PowModulo(product / p % p, p - 2, p)
  }

  /** The contribution of one residue. */
  function Term(residue: nat, p: nat, product: nat): (t: nat)
    requires p >= 2 && product > 0
    ensures t < product
  {
    (residue * (product / p) % product * CodeInverse(p, product)) % product
  }

  /** The sum of the first k contributions. */
  ghost function SumOfTerms(residues: seq<nat>, ps: Moduli, k: nat, product: nat): (s: nat)
    requires k <= |ps| && k <= |residues| && product > 0
    ensures s < product
  {
    if k == 0 then 0
    else (SumOfTerms(residues, ps, k - 1, product) + Term(residues[k - 1], ps[k - 1], product)) % product
  }

  /** The number rebuilt from the first n residues. */
  ghost function Rebuild(residues: seq<nat>, ps: Moduli, n: nat): (v: nat)
    requires n <= |ps| && n <= |residues|
    ensures v < ProductOf(ps, n)
  {
    ProductPositive(ps, n);
    SumOfTerms(residues, ps, n, ProductOf(ps, n))
  }

  function ResiduesOf(value: nat, ps: Moduli, n: nat): (rs: seq<nat>)
    requires n <= |ps|
    ensures |rs| == n && forall i | 0 <= i < n :: rs[i] == value % ps[i]
  {
    seq(n, i requires 0 <= i < n => value % ps[i])
  }

  ghost predicate PairwiseCoprime(ps: Moduli, n: nat)
    requires n <= |ps|
  {
    forall i, j | 0 <= i < n && 0 <= j < n && i != j :: Coprime(ps[i], ps[j])
  }

  /** The exponentiation in the code inverts product / p modulo p. */
  ghost predicate InverseComputed(p: nat, product: nat)
    requires p >= 2
  {
    (product / p * CodeInverse(p, product)) % p == 1
  }

  /** Moduli that have one answer, for which the code's inverses are inverses. */
  ghost predicate GoodModuli(ps: Moduli, n: nat)
    requires n <= |ps|
  {
    && PairwiseCoprime(ps, n)
    && forall i | 0 <= i < n :: InverseComputed(ps[i], ProductOf(ps, n))
  }

  /** x has the given residues. */
  ghost predicate HasResidues(x: int, residues: seq<nat>, ps: Moduli, n: nat)
    requires n <= |ps| && n <= |residues|
  {
    forall i | 0 <= i < n :: x % ps[i] == residues[i] % ps[i]
  }

  lemma {:induction false} ProductPositive(ps: Moduli, n: nat)
    requires n <= |ps|
    ensures ProductOf(ps, n) > 0
  {
    if n > 0 {
      ProductPositive(ps, n - 1);
      MulAtLeast(ProductOf(ps, n - 1), ps[n - 1]);
    }
  }

  lemma {:induction false} MemberDividesProduct(ps: Moduli, n: nat, i: nat)
    requires i < n <= |ps|
    ensures Divides(ps[i], ProductOf(ps, n))
  {
    if i == n - 1 {
      MultipleIsZeroMod(ProductOf(ps, n - 1), ps[i]);
    } else {
      MemberDividesProduct(ps, n - 1, i);
      DividesTimes(ps[i], ProductOf(ps, n - 1), ps[n - 1]);
    }
  }

  /** The cofactor of one modulus is a multiple of every other. */
  lemma CofactorDivisible(product: int, p: int, q: int)
    requires p > 0 && q > 0 && product > 0 && Divides(p, product) && Divides(q, product) && Coprime(p, q)
    ensures Divides(q, product / p)
  {
    DivisionIdentity(product, p);
    CoprimeDivides(q, p, product / p);
  }

  lemma TermModOther(residue: nat, p: nat, product: nat, q: nat)
    requires p >= 2 && q >= 2 && product > 0
    requires Divides(p, product) && Divides(q, product) && Coprime(p, q)
    ensures Term(residue, p, product) % q == 0
  {
    var m, inverse := product / p, CodeInverse(p, product);
    CofactorDivisible(product, p, q);
    DividesTimes(q, m, residue);
    ModOfMod(residue * m, product, q);
    var a := residue * m % product;
    DividesTimes(q, a, inverse);
    ModOfMod(a * inverse, product, q);
  }

  lemma Rotate(a: int, b: int, c: int)
    ensures (a * b) * c == (b * c) * a
  {
  }

  lemma TermModOwn(residue: nat, p: nat, product: nat)
    requires p >= 2 && product > 0 && Divides(p, product) && InverseComputed(p, product)
    ensures Term(residue, p, product) % p == residue % p
  {
    var m, inverse := product / p, CodeInverse(p, product);
    hide CodeInverse, Divides;
    var a := residue * m % product;
    ModOfMod(a * inverse, product, p);
    ModOfMod(residue * m, product, p);
    ModMulCongruent(a, residue * m, inverse, p);
    Rotate(residue, m, inverse);
    ModSmall(1, p);
    ModMulCongruent(m * inverse, 1, residue, p);
  }

  /** One turn of the accumulator, seen modulo a divisor of the product. */
  lemma AccumulateMod(s: nat, t: nat, product: nat, q: nat)
    requires product > 0 && q >= 2 && Divides(q, product)
    ensures ((s + t) % product) % q == (s % q + t % q) % q
  {
    ModOfMod(s + t, product, q);
    ModAdd(s, t, q);
    ModAdd(t, s % q, q);
  }

  /** The sum gathers one residue per turn and disturbs none. */
  lemma {:induction false} SumResidue(residues: seq<nat>, ps: Moduli, n: nat, k: nat, j: nat)
    requires k <= n <= |ps| && n <= |residues| && j < n && GoodModuli(ps, n) && ProductOf(ps, n) > 0
    ensures SumOfTerms(residues, ps, k, ProductOf(ps, n)) % ps[j] == if j < k then residues[j] % ps[j] else 0
  {
    var product, q := ProductOf(ps, n), ps[j];
    ModSmall(0, q);
    if k > 0 {
      SumResidue(residues, ps, n, k - 1, j);
      var p := ps[k - 1];
      MemberDividesProduct(ps, n, j);
      MemberDividesProduct(ps, n, k - 1);
      TermModAny(residues[k - 1], ps, n, k - 1, j);
      hide Term, ProductOf, GoodModuli, Divides;
      AccumulateMod(SumOfTerms(residues, ps, k - 1, product), Term(residues[k - 1], p, product), product, q);
      ModIdempotent(residues[j], q);
    }
  }

  /** A term has its own residue and is a multiple of every other modulus. */
  lemma TermModAny(residue: nat, ps: Moduli, n: nat, i: nat, j: nat)
    requires i < n <= |ps| && j < n && GoodModuli(ps, n) && ProductOf(ps, n) > 0
    ensures Term(residue, ps[i], ProductOf(ps, n)) % ps[j] == if i == j then residue % ps[j] else 0
  {
    hide Term, ProductOf;
    MemberDividesProduct(ps, n, j);
    MemberDividesProduct(ps, n, i);
    if i == j {
      assert InverseComputed(ps[i], ProductOf(ps, n));
      TermModOwn(residue, ps[i], ProductOf(ps, n));
    } else {
      TermModOther(residue, ps[i], ProductOf(ps, n), ps[j]);
    }
  }

  lemma DivisorTransitive(e: int, d: int, c: int)
    requires e > 0 && d > 0 && Divides(e, d) && Divides(d, c)
    ensures Divides(e, c)
  {
    DivisionIdentity(c, d);
    DividesTimes(e, d, c / d);
  }

  lemma CoprimeProduct(a: int, b: int, c: int)
    requires a >= 0 && b >= 0 && Coprime(a, c) && Coprime(b, c)
    ensures Coprime(a * b, c)
  {
    forall d | d > 0 && Divides(d, a * b) && Divides(d, c) ensures d == 1 {
      forall e | e > 0 && Divides(e, a) && Divides(e, d) ensures e == 1 {
        DivisorTransitive(e, d, c);
      }
      CoprimeDivides(d, a, b);
    }
  }

  lemma OneCoprime(q: int)
    ensures Coprime(1, q)
  {
    forall d | d > 0 && Divides(d, 1) ensures d == 1 {
      if d > 1 {
        ModSmall(1, d);
      }
    }
  }

  lemma {:induction false} ProductCoprime(ps: Moduli, n: nat, q: nat)
    requires n <= |ps| && forall i | 0 <= i < n :: Coprime(ps[i], q)
    ensures Coprime(ProductOf(ps, n), q)
  {
    if n == 0 {
      OneCoprime(q);
    } else {
      ProductCoprime(ps, n - 1, q);
      CoprimeProduct(ProductOf(ps, n - 1), ps[n - 1], q);
    }
  }

  /** Coprime divisors divide together. */
  lemma CoprimeDivisors(f: int, p: int, x: int)
    requires f > 0 && p > 0 && Coprime(f, p) && Divides(f, x) && Divides(p, x)
    ensures f * p > 0 && Divides(f * p, x)
  {
    DivisionIdentity(x, f);
    var y := x / f;
    CoprimeDivides(p, f, y);
    DivisionIdentity(y, p);
    var z := y / p;
    MulAtLeast(f, p);
    assert x == f * (p * z) == (f * p) * z;
    MultipleIsZeroMod(z, f * p);
  }

  /** Pairwise coprime moduli that divide a number one by one divide it together. */
  lemma {:induction false} ProductDivides(ps: Moduli, n: nat, x: int)
    requires n <= |ps| && PairwiseCoprime(ps, n)
    requires forall i | 0 <= i < n :: Divides(ps[i], x)
    ensures ProductOf(ps, n) > 0 && Divides(ProductOf(ps, n), x)
  {
    if n > 0 {
      ProductDivides(ps, n - 1, x);
      ProductCoprime(ps, n - 1, ps[n - 1]);
      CoprimeDivisors(ProductOf(ps, n - 1), ps[n - 1], x);
    }
  }

  /** A number below the product is determined by its residues. */
  lemma ResiduesDetermine(residues: seq<nat>, ps: Moduli, n: nat, x: nat, y: nat)
    requires n <= |ps| && n <= |residues| && PairwiseCoprime(ps, n)
    requires x < ProductOf(ps, n) && y < ProductOf(ps, n)
    requires HasResidues(x, residues, ps, n) && HasResidues(y, residues, ps, n)
    ensures x == y
  {
    forall i | 0 <= i < n ensures Divides(ps[i], x - y) {
      EqualModDivides(x, y, ps[i]);
    }
    ProductDivides(ps, n, x - y);
    EqualModDivides(x, y, ProductOf(ps, n));
    ModSmall(x, ProductOf(ps, n));
    ModSmall(y, ProductOf(ps, n));
  }

  /** Rebuilding any residues gives the one number below the product that has them. */
  lemma RebuildIsTheOne(residues: seq<nat>, ps: Moduli, n: nat)
    requires n <= |ps| && n <= |residues| && GoodModuli(ps, n)
    ensures HasResidues(Rebuild(residues, ps, n), residues, ps, n)
    ensures forall x: nat | x < ProductOf(ps, n) && HasResidues(x, residues, ps, n) :: x == Rebuild(residues, ps, n)
  {
    var r := Rebuild(residues, ps, n);
    forall i | 0 <= i < n ensures r % ps[i] == residues[i] % ps[i] {
      SumResidue(residues, ps, n, n, i);
    }
    forall x: nat | x < ProductOf(ps, n) && HasResidues(x, residues, ps, n) ensures x == r {
      ResiduesDetermine(residues, ps, n, x, r);
    }
  }

  /** Rebuilding undoes splitting, for any value below the product of good moduli. */
  lemma GoodRebuild(ps: Moduli, n: nat, value: nat)
    requires n <= |ps| && GoodModuli(ps, n) && value < ProductOf(ps, n)
    ensures Rebuild(ResiduesOf(value, ps, n), ps, n) == value
  {
    var rs := ResiduesOf(value, ps, n);
    RebuildIsTheOne(rs, ps, n);
    forall i | 0 <= i < n ensures value % ps[i] == rs[i] % ps[i] {
      ModIdempotent(value, ps[i]);
    }
    assert HasResidues(value, rs, ps, n);
  }

  // ----- distinct primes -----

  /** A cofactor that the prime divides has no inverse; the exponentiation then answers 0. */
  lemma NoInverse(p: nat, product: nat)
    requires IsPrime(p) && p > 2 && Divides(p, product / p)
    ensures CodeInverse(p, product) == 0
  {
    PowOfZero(p - 2);
    ModSmall(0, p);
  }

  lemma PowOfZero(e: nat)
    requires e > 0
    ensures Pow(0, e) == 0
  {
  }

  ghost predicate DistinctPrimes(ps: seq<nat>) {
    && (forall i | 0 <= i < |ps| :: IsPrime(ps[i]))
    && (forall i, j | 0 <= i < |ps| && 0 <= j < |ps| && i != j :: ps[i] != ps[j])
  }

  lemma DistinctPrimesCoprime(p: int, q: int)
    requires IsPrime(p) && IsPrime(q) && p != q
    ensures Coprime(p, q)
  {
  }

  lemma CofactorStep(f: int, p: int, q: int)
    requires f > 0 && p > 0 && q > 0 && Divides(q, f) && Coprime(f / q, q) && Coprime(p, q)
    ensures Coprime((f * p) / q, q)
  {
    DivisionIdentity(f, q);
    var c := f / q;
    if c < 0 {
      MulAtLeast(q, -c);
    }
    assert f * p == q * (c * p) by {
      assert (q * c) * p == q * (c * p);
    }
    MultipleIsZeroMod(c * p, q);
    CoprimeProduct(c, p, q);
  }

  /** The cofactor of a prime among distinct primes is coprime to it. */
  lemma {:induction false} CofactorCoprime(ps: Moduli, n: nat, i: nat)
    requires i < n <= |ps| && DistinctPrimes(ps)
    ensures ProductOf(ps, n) > 0 && Coprime(ProductOf(ps, n) / ps[i], ps[i])
  {
    ProductPositive(ps, n);
    var f, p := ProductOf(ps, n - 1), ps[n - 1];
    if i == n - 1 {
      MultipleIsZeroMod(f, p);
      forall j | 0 <= j < n - 1 ensures Coprime(ps[j], p) {
        DistinctPrimesCoprime(ps[j], p);
      }
      ProductCoprime(ps, n - 1, p);
    } else {
      CofactorCoprime(ps, n - 1, i);
      MemberDividesProduct(ps, n - 1, i);
      DistinctPrimesCoprime(p, ps[i]);
      CofactorStep(f, p, ps[i]);
    }
  }

  /** By Fermat's little theorem the code's exponentiation computes the inverse. */
  lemma FermatInverse(m: nat, p: int)
    requires IsPrime(p) && Coprime(m, p)
    ensures (m * PowModulo(m % p, p - 2, p)) % p == 1
  {
    MultipleIsZeroMod(1, p);
    assert Divides(p, p);
    Fermat(m, p);
    var e := p - 2;
    PowMod(m, e, p);
    ModSmall(1, p);
    assert PowModulo(m % p, e, p) == Pow(m, e) % p;
    ModMul(Pow(m, e), m, p);
    assert m * (Pow(m, e) % p) == (Pow(m, e) % p) * m && Pow(m, e) * m == Pow(m, p - 1);
  }

  /** Distinct primes are good moduli, whatever their number and size. */
  lemma DistinctPrimesGood(ps: Moduli, n: nat)
    requires n <= |ps| && DistinctPrimes(ps)
    ensures GoodModuli(ps, n)
  {
    forall i, j | 0 <= i < n && 0 <= j < n && i != j ensures Coprime(ps[i], ps[j]) {
      DistinctPrimesCoprime(ps[i], ps[j]);
    }
    forall i | 0 <= i < n ensures InverseComputed(ps[i], ProductOf(ps, n)) {
      CofactorCoprime(ps, n, i);
      QuotientAtLeast(ProductOf(ps, n), ps[i], 0);
      FermatInverse(ProductOf(ps, n) / ps[i], ps[i]);
    }
  }

  /** Any residues of any number of distinct primes belong to one number below their product: the one rebuilt. */
  lemma PrimesRebuild(residues: seq<nat>, ps: Moduli)
    requires DistinctPrimes(ps) && |residues| == |ps|
    ensures HasResidues(Rebuild(residues, ps, |ps|), residues, ps, |ps|)
    ensures forall x: nat | x < ProductOf(ps, |ps|) && HasResidues(x, residues, ps, |ps|) ::
              x == Rebuild(residues, ps, |ps|)
  {
    DistinctPrimesGood(ps, |ps|);
    RebuildIsTheOne(residues, ps, |ps|);
  }

  /** The round trip over the integers, for any number of distinct primes. */
  lemma PrimesRoundTrip(ps: Moduli, value: nat)
    requires DistinctPrimes(ps) && value < ProductOf(ps, |ps|)
    ensures Rebuild(ResiduesOf(value, ps, |ps|), ps, |ps|) == value
  {
    DistinctPrimesGood(ps, |ps|);
    GoodRebuild(ps, |ps|, value);
  }
}
