/**
 Modular arithmetic shared by the kernel's Galois-field code: division with remainder,
 Bezout coefficients, Euclid's lemma and Fermat's little theorem.
 */
module NumberTheory {

  // ----- division with remainder -----

  lemma MulAtLeast(d: int, k: int)
    requires d > 0 && k >= 1
    ensures d * k >= d
  {
    assert d * k == d * (k - 1) + d;
  }

  lemma DivisionIdentity(n: int, d: int)
    requires d > 0
    ensures n == d * (n / d) + n % d && 0 <= n % d < d
  {
  }

  lemma ModRange(n: int, d: int)
    requires d > 0
    ensures 0 <= n % d < d
  {
  }

  lemma QuotientUnique(d: int, q: int, r: int, q': int, r': int)
    requires 0 <= r < d && 0 <= r' < d && d * q + r == d * q' + r'
    ensures q == q' && r == r'
  {
    if q > q' {
      MulAtLeast(d, q - q');
    } else if q < q' {
      MulAtLeast(d, q' - q);
    }
  }

  /** A quotient and remainder in range are THE quotient and remainder. */
  lemma DivModUnique(n: int, d: int, q: int, r: int)
    requires d > 0 && n == d * q + r && 0 <= r < d
    ensures n / d == q && n % d == r
  {
    DivisionIdentity(n, d);
    QuotientUnique(d, q, r, n / d, n % d);
  }

  lemma MulOrder(x: int, y: int, b: int)
    requires x <= y && b >= 0
    ensures x * b <= y * b
  {
    assert (y - x) * b >= 0;
  }

  lemma QuotientAtLeast(a: int, b: int, q: int)
    requires b > 0 && a >= q * b
    ensures a / b >= q
  {
    var q', r' := (a - q * b) / b, (a - q * b) % b;
    DivisionIdentity(a - q * b, b);
    assert b * (q + q') == q * b + b * q';
    DivModUnique(a, b, q + q', r');
  }

  lemma QuotientBelow(a: int, b: int, q: int)
    requires b > 0 && a < q * b
    ensures a / b < q
  {
    QuotientAtLeast(q * b - a - 1, b, 0);
    var q', r' := (q * b - a - 1) / b, (q * b - a - 1) % b;
    DivisionIdentity(q * b - a - 1, b);
    assert b * (q - 1 - q') == q * b - b - b * q';
    DivModUnique(a, b, q - 1 - q', b - 1 - r');
  }

  lemma QuotientAtMost(n: nat, d: int)
    requires d > 0
    ensures 0 <= n / d <= n
  {
    QuotientAtLeast(n, d, 0);
    MulOrder(1, d, n + 1);
    QuotientBelow(n, d, n + 1);
  }

  /** Row-major positions: in range, and divided back into row and column. */
  lemma InTable(i: int, j: int, m: int, n: int)
    requires 0 <= i < m && 0 <= j < n
    ensures 0 <= i * n + j < m * n
  {
    MulOrder(0, i, n);
    MulOrder(i + 1, m, n);
    assert (i + 1) * n == i * n + n;
  }

  lemma RowDivision(q: int, r: int, b: int)
    requires 0 <= r < b
    ensures (q * b + r) / b == q && (q * b + r) % b == r
  {
    assert q * b == b * q;
    DivModUnique(q * b + r, b, q, r);
  }

  lemma ModOfMultiple(a: int, k: int, m: int)
    requires m > 0
    ensures (a + k * m) % m == a % m
  {
    var q := a / m;
    assert a + k * m == m * (q + k) + a % m;
    DivModUnique(a + k * m, m, q + k, a % m);
  }

  lemma ModSmall(a: int, m: int)
    requires 0 <= a < m
    ensures a % m == a
  {
    DivModUnique(a, m, 0, a);
  }

  lemma ModAdd(a: int, b: int, m: int)
    requires m > 0
    ensures (a % m + b) % m == (a + b) % m
  {
    var q := a / m;
    assert a % m + b == a + b + (-q) * m;
    ModOfMultiple(a + b, -q, m);
  }

  lemma ModMul(a: int, b: int, m: int)
    requires m > 0
    ensures ((a % m) * b) % m == (a * b) % m
  {
    var q := a / m;
    assert a == m * q + a % m;
    assert (a % m) * b == a * b + (-(q * b)) * m by {
      assert (a - m * q) * b == a * b - m * q * b;
    }
    ModOfMultiple(a * b, -(q * b), m);
  }

  /** Both factors of a product may be reduced first. */
  lemma ModMulBoth(a: int, b: int, m: int)
    requires m > 0
    ensures ((a % m) * (b % m)) % m == (a * b) % m
  {
    ModMul(a, b % m, m);
    ModMul(b, a, m);
    assert a * (b % m) == (b % m) * a && a * b == b * a;
  }

  lemma ModMulCongruent(a: int, a': int, b: int, m: int)
    requires m > 0 && a % m == a' % m
    ensures (a * b) % m == (a' * b) % m
  {
    ModMul(a, b, m);
    ModMul(a', b, m);
  }

  /** Equal remainders mean a difference that is a multiple of the modulus. */
  lemma EqualModDivides(a: int, b: int, m: int)
    requires m > 0
    ensures a % m == b % m <==> (a - b) % m == 0
  {
    var k := a / m - b / m;
    assert a - b == k * m + (a % m - b % m);
    if a % m == b % m {
      ModOfMultiple(0, k, m);
    }
    if (a - b) % m == 0 {
      var j := (a - b) / m;
      assert a == b + j * m;
      ModOfMultiple(b, j, m);
    }
  }

  lemma MultipleIsZeroMod(k: int, m: int)
    requires m > 0
    ensures (k * m) % m == 0 && (m * k) % m == 0 && (k * m) / m == k && (m * k) / m == k
  {
    DivModUnique(k * m, m, k, 0);
    assert m * k == k * m;
  }

  // ----- divisors, coprimality, primes -----

  ghost predicate Divides(d: int, n: int)
    requires d > 0
  {
    n % d == 0
  }

  lemma DividesTimes(d: int, n: int, k: int)
    requires d > 0 && Divides(d, n)
    ensures Divides(d, n * k) && Divides(d, k * n)
  {
    var j := n / d;
    assert n == d * j;
    assert n * k == (j * k) * d && k * n == n * k;
    MultipleIsZeroMod(j * k, d);
  }

  lemma DividesSum(d: int, a: int, b: int)
    requires d > 0 && Divides(d, a) && Divides(d, b)
    ensures Divides(d, a + b) && Divides(d, a - b)
  {
    var j, k := a / d, b / d;
    assert a == d * j && b == d * k;
    assert a + b == (j + k) * d && a - b == (j - k) * d;
    MultipleIsZeroMod(j + k, d);
    MultipleIsZeroMod(j - k, d);
  }

  /** Reducing modulo a multiple of q first does not change the residue modulo q. */
  lemma ModOfMod(a: int, n: int, q: int)
    requires n > 0 && q > 0 && Divides(q, n)
    ensures (a % n) % q == a % q
  {
    DivisionIdentity(a, n);
    DividesTimes(q, n, a / n);
    EqualModDivides(a, a % n, q);
  }

  lemma ModIdempotent(x: int, m: int)
    requires m > 0
    ensures (x % m) % m == x % m
  {
    ModSmall(x % m, m);
  }

  /** No common divisor above 1. */
  ghost predicate Coprime(a: int, b: int) {
    forall d | d > 0 && Divides(d, a) && Divides(d, b) :: d == 1
  }

  ghost predicate IsPrime(p: int) {
    p > 1 && forall d | d > 0 && Divides(d, p) :: d == 1 || d == p
  }

  lemma EuclidStepCoprime(a: int, b: int)
    requires a > 0 && Coprime(a, b)
    ensures Coprime(b % a, a)
  {
    forall d | d > 0 && Divides(d, b % a) && Divides(d, a) ensures d == 1 {
      DividesTimes(d, a, b / a);
      DividesSum(d, a * (b / a), b % a);
      DivisionIdentity(b, a);
      assert Divides(d, b);
    }
  }

  /** Bezout: coprime numbers have an integer combination equal to 1. */
  lemma Bezout(a: int, b: int) returns (x: int, y: int)
    requires a >= 0 && b > 0 && Coprime(a, b)
    ensures a * x + b * y == 1
    decreases a
  {
    if a == 0 {
      MultipleIsZeroMod(1, b);
      MultipleIsZeroMod(0, b);
      assert Divides(b, a) && Divides(b, b);
      x, y := 0, 1;
    } else {
      EuclidStepCoprime(a, b);
      var q := b / a;
      var u, v := Bezout(b % a, a);
      x, y := v - q * u, u;
      assert (b - a * q) * u + a * v == a * (v - q * u) + b * u;
    }
  }

  /** A divisor of a product that is coprime to one factor divides the other. */
  lemma CoprimeDivides(d: int, a: int, b: int)
    requires d > 0 && a >= 0 && Coprime(a, d) && Divides(d, a * b)
    ensures Divides(d, b)
  {
    var x, y := Bezout(a, d);
    hide Coprime, Divides;
    OneTimes(a, d, x, y, b);
    DividesTimes(d, a * b, x);
    MultipleDivides(d, b * y);
    DividesSum(d, (a * b) * x, d * (b * y));
  }

  lemma OneTimes(a: int, d: int, x: int, y: int, b: int)
    requires a * x + d * y == 1
    ensures b == (a * b) * x + d * (b * y)
  {
    assert (a * x + d * y) * b == (a * x) * b + (d * y) * b;
    Associate(a, b, x);
    Associate(a, x, b);
    Associate(d, y, b);
    assert b * x == x * b && b * y == y * b;
  }

  lemma MultipleDivides(d: int, k: int)
    requires d > 0
    ensures Divides(d, d * k)
  {
    MultipleIsZeroMod(k, d);
  }

  lemma PrimeCoprime(a: int, p: int)
    requires IsPrime(p) && a >= 0 && !Divides(p, a)
    ensures Coprime(a, p)
  {
  }

  /** Euclid's lemma. */
  lemma EuclidsLemma(p: int, a: int, b: int)
    requires IsPrime(p) && a >= 0 && Divides(p, a * b)
    ensures Divides(p, a) || Divides(p, b)
  {
    if !Divides(p, a) {
      PrimeCoprime(a, p);
      CoprimeDivides(p, a, b);
    }
  }

  // ----- powers and Fermat's little theorem -----

  function Pow(b: int, e: nat): int {
    if e == 0 then 1 else b * Pow(b, e - 1)
  }

  lemma {:induction false} PowAdd(b: int, e: nat, f: nat)
    ensures Pow(b, e + f) == Pow(b, e) * Pow(b, f)
  {
    if e > 0 {
      PowAdd(b, e - 1, f);
      assert Pow(b, e) == b * Pow(b, e - 1);
      assert Pow(b, e + f) == b * Pow(b, e - 1 + f);
      hide Pow;
      Associate(b, Pow(b, e - 1), Pow(b, f));
    }
  }

  lemma {:induction false} PowSquare(b: int, e: nat)
    ensures Pow(b * b, e) == Pow(b, 2 * e)
  {
    if e > 0 {
      PowSquare(b, e - 1);
      assert Pow(b, 2 * e) == b * (b * Pow(b, 2 * e - 2));
      assert b * (b * Pow(b, 2 * e - 2)) == (b * b) * Pow(b, 2 * (e - 1));
    }
  }

  lemma {:induction false} PowMod(b: int, e: nat, m: int)
    requires m > 0
    ensures Pow(b % m, e) % m == Pow(b, e) % m
  {
    if e > 0 {
      PowMod(b, e - 1, m);
      var u, v := Pow(b % m, e - 1), Pow(b, e - 1);
      ModMulCongruent(u, v, b % m, m);
      ModMul(b, v, m);
      assert (b % m) * u == u * (b % m) && v * (b % m) == (b % m) * v;
    }
  }

  lemma {:induction false} PowPositive(b: int, e: nat)
    requires b > 0
    ensures Pow(b, e) > 0
  {
    if e > 0 {
      PowPositive(b, e - 1);
      assert b * Pow(b, e - 1) > 0;
    }
  }

  /** Powers of two, as sizes. */
  function Pow2(n: nat): (p: nat)
    ensures p > 0
  {
    PowPositive(2, n);
    Pow(2, n)
  }

  lemma Pow2Next(n: nat)
    ensures Pow2(n + 1) == 2 * Pow2(n)
  {
  }

  lemma Pow2Add(m: nat, n: nat)
    ensures Pow2(m + n) == Pow2(m) * Pow2(n)
  {
    PowAdd(2, m, n);
  }

  /** The word sizes. */
  lemma Pow2Words()
    ensures Pow2(0) == 1 && Pow2(1) == 2 && Pow2(4) == 16 && Pow2(16) == 0x1_0000
    ensures Pow2(32) == 0x1_0000_0000 && Pow2(64) == 0x1_0000_0000_0000_0000
  {
    Pow2Next(0);
    Pow2Add(1, 1);
    Pow2Add(2, 2);
    Pow2Add(4, 4);
    Pow2Add(8, 8);
    Pow2Add(16, 16);
    Pow2Add(32, 32);
  }

  /** The product of the numbers in a finite set. */
  ghost function Product(s: set<nat>): int {
    if s == {} then 1 else var x :| x in s; x * Product(s - {x})
  }

  /** The product does not depend on the order in which elements are taken out. */
  lemma {:induction false} ProductRemove(s: set<nat>, x: nat)
    requires x in s
    ensures Product(s) == x * Product(s - {x})
    decreases |s|
  {
    var y :| y in s && Product(s) == y * Product(s - {y});
    if x != y {
      ProductRemove(s - {y}, x);
      ProductRemove(s - {x}, y);
      hide Product;
      assert s - {y} - {x} == s - {x} - {y};
      ExchangeFactors(y, x, Product(s - {x} - {y}));
    }
  }

  lemma Associate(a: int, b: int, c: int)
    ensures a * b * c == a * (b * c)
  {
  }

  lemma ExchangeFactors(x: int, y: int, z: int)
    ensures x * (y * z) == y * (x * z)
  {
  }

  /** Multiplication by a, reduced modulo p. */
  function Scale(a: int, p: int, x: int): nat
    requires p > 0
  {
    (a * x) % p
  }

  lemma ScaleStep(a: int, p: int, x: int, u: int, v: int, w: int)
    requires p > 0 && u % p == (v * w) % p
    ensures (Scale(a, p, x) * u) % p == ((a * v) * (x * w)) % p
  {
    var vw := v * w;
    ModMul(a * x, u, p);
    ModMulCongruent(u, vw, a * x, p);
    assert (a * x) * u == u * (a * x);
    assert (a * v) * (x * w) == vw * (a * x);
  }

  /** Multiplying every element of a set of residues by a multiplies the product by a power of a. */
  lemma {:induction false} ProductOfScaled(a: int, p: int, s: set<nat>)
    requires p > 0
    requires forall x, y | x in s && y in s && Scale(a, p, x) == Scale(a, p, y) :: x == y
    ensures Product(set x | x in s :: Scale(a, p, x)) % p == (Pow(a, |s|) * Product(s)) % p
    decreases |s|
  {
    var image := set x | x in s :: Scale(a, p, x);
    if s == {} {
      assert image == {};
    } else {
      var x :| x in s;
      var s' := s - {x};
      var image' := set y | y in s' :: Scale(a, p, y);
      var sx := Scale(a, p, x);
      assert sx in image;
      assert image - {sx} == image';
      ProductRemove(image, sx);
      ProductRemove(s, x);
      ProductOfScaled(a, p, s');
      ScaleStep(a, p, x, Product(image'), Pow(a, |s'|), Product(s'));
      assert |s| == |s'| + 1;
    }
  }

  lemma {:induction false} ProductNotDivisible(p: int, s: set<nat>)
    requires IsPrime(p) && forall x | x in s :: 0 < x < p
    ensures !Divides(p, Product(s)) && Product(s) > 0
    decreases |s|
  {
    if s == {} {
      ModSmall(1, p);
    } else {
      var x :| x in s;
      ProductRemove(s, x);
      ProductNotDivisible(p, s - {x});
      var rest := Product(s - {x});
      ModSmall(x, p);
      assert x * rest > 0;
      if Divides(p, x * rest) {
        EuclidsLemma(p, x, rest);
      }
    }
  }

  /** The residues 1 .. n. */
  ghost function Residues(n: nat): (s: set<nat>)
    ensures |s| == n
    ensures forall x: nat :: x in s <==> 0 < x <= n
  {
    if n == 0 then {} else Residues(n - 1) + {n}
  }

  lemma {:induction false} BoundedSubset(s: set<nat>, n: nat)
    requires forall x | x in s :: 0 < x <= n
    ensures |s| <= n && (|s| == n ==> s == Residues(n))
    decreases n
  {
    if n == 0 {
      assert forall x | x in s :: false;
    } else {
      BoundedSubset(s - {n}, n - 1);
    }
  }

  lemma {:induction false} ImageSize(a: int, p: int, s: set<nat>)
    requires p > 0
    requires forall x, y | x in s && y in s && Scale(a, p, x) == Scale(a, p, y) :: x == y
    ensures |set x | x in s :: Scale(a, p, x)| == |s|
    decreases |s|
  {
    var image := set x | x in s :: Scale(a, p, x);
    if s == {} {
      assert image == {};
    } else {
      var x :| x in s;
      ImageSize(a, p, s - {x});
      assert Scale(a, p, x) in image;
      assert image - {Scale(a, p, x)} == set y | y in s - {x} :: Scale(a, p, y);
    }
  }

  lemma ScaleInjective(a: int, p: int, x: int, y: int)
    requires IsPrime(p) && a >= 0 && !Divides(p, a) && 0 < x < p && 0 < y < p
    requires Scale(a, p, x) == Scale(a, p, y)
    ensures x == y
  {
    EqualModDivides(a * x, a * y, p);
    assert a * x - a * y == a * (x - y);
    EuclidsLemma(p, a, x - y);
    EqualModDivides(x, y, p);
    ModSmall(x, p);
    ModSmall(y, p);
  }

  lemma ScaleNonZero(a: int, p: int, x: int)
    requires IsPrime(p) && a >= 0 && !Divides(p, a) && 0 < x < p
    ensures 0 < Scale(a, p, x) < p
  {
    if Divides(p, a * x) {
      EuclidsLemma(p, a, x);
      ModSmall(x, p);
    }
  }

  /** Multiplication by a residue that p does not divide permutes 1 .. p-1. */
  lemma ScalePermutes(a: int, p: int)
    requires IsPrime(p) && a >= 0 && !Divides(p, a)
    ensures var s := Residues(p - 1);
            && (forall x, y | x in s && y in s && Scale(a, p, x) == Scale(a, p, y) :: x == y)
            && (set x | x in s :: Scale(a, p, x)) == s
  {
    var s := Residues(p - 1);
    forall x, y | x in s && y in s && Scale(a, p, x) == Scale(a, p, y) ensures x == y {
      ScaleInjective(a, p, x, y);
    }
    var image := set x | x in s :: Scale(a, p, x);
    forall z | z in image ensures 0 < z <= p - 1 {
      var x :| x in s && z == Scale(a, p, x);
      ScaleNonZero(a, p, x);
    }
    ImageSize(a, p, s);
    BoundedSubset(image, p - 1);
  }

  lemma CancelFactor(p: int, f: int, w: int)
    requires IsPrime(p) && f >= 0 && !Divides(p, f) && (w * f) % p == f % p
    ensures w % p == 1
  {
    EqualModDivides(w * f, f, p);
    assert w * f - f == f * (w - 1);
    EuclidsLemma(p, f, w - 1);
    EqualModDivides(w, 1, p);
    ModSmall(1, p);
  }

  /** Fermat's little theorem. */
  lemma Fermat(a: int, p: int)
    requires IsPrime(p) && a >= 0 && !Divides(p, a)
    ensures Pow(a, p - 1) % p == 1
  {
    hide Pow, Product, Scale;
    var s := Residues(p - 1);
    ScalePermutes(a, p);
    ProductOfScaled(a, p, s);
    ProductNotDivisible(p, s);
    CancelFactor(p, Product(s), Pow(a, p - 1));
  }
}
