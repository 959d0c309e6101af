/** Square matrix product modulo a prime over flat arrays (kernel/symmetrix-galois.c). */
module ModularMatrix {
  import opened MachineIntegers
  import opened NumberTheory
  import opened GaloisKernel

  /** A square matrix of integers. */
  type Matrix = (int, int) -> int

  // ----- sums -----

  ghost function Sum(f: int -> int, n: nat): int {
    if n == 0 then 0 else Sum(f, n - 1) + f(n - 1)
  }

  lemma {:induction false} SumEqual(f: int -> int, g: int -> int, n: nat)
    requires forall k | 0 <= k < n :: f(k) == g(k)
    ensures Sum(f, n) == Sum(g, n)
  {
    if n > 0 {
      SumEqual(f, g, n - 1);
    }
  }

  lemma {:induction false} SumAdd(f: int -> int, g: int -> int, h: int -> int, n: nat)
    requires forall k | 0 <= k < n :: h(k) == f(k) + g(k)
    ensures Sum(h, n) == Sum(f, n) + Sum(g, n)
  {
    if n > 0 {
      SumAdd(f, g, h, n - 1);
    }
  }

  lemma {:induction false} SumScale(f: int -> int, g: int -> int, c: int, n: nat)
    requires forall k | 0 <= k < n :: g(k) == c * f(k)
    ensures Sum(g, n) == c * Sum(f, n)
  {
    if n > 0 {
      SumScale(f, g, c, n - 1);
      assert c * (Sum(f, n - 1) + f(n - 1)) == c * Sum(f, n - 1) + c * f(n - 1);
    }
  }

  lemma {:induction false} SumZero(f: int -> int, n: nat)
    requires forall k | 0 <= k < n :: f(k) == 0
    ensures Sum(f, n) == 0
  {
    if n > 0 {
      SumZero(f, n - 1);
    }
  }

  ghost function Row(f: Matrix, i: int): int -> int {
    j => f(i, j)
  }

  ghost function Column(f: Matrix, j: int): int -> int {
    i => f(i, j)
  }

  ghost function RowSums(f: Matrix, n: nat): int -> int {
    i => Sum(Row(f, i), n)
  }

  ghost function ColumnSums(f: Matrix, m: nat): int -> int {
    j => Sum(Column(f, j), m)
  }

  /** A double sum may be taken in either order. */
  lemma {:induction false} SumSwap(f: Matrix, m: nat, n: nat)
    ensures Sum(RowSums(f, n), m) == Sum(ColumnSums(f, m), n)
  {
    if m == 0 {
      SumZero(ColumnSums(f, m), n);
    } else {
      SumSwap(f, m - 1, n);
      SumAdd(ColumnSums(f, m - 1), Row(f, m - 1), ColumnSums(f, m), n);
    }
  }

  lemma {:induction false} SumMod(f: int -> int, g: int -> int, n: nat, p: int)
    requires p > 0 && forall k | 0 <= k < n :: f(k) % p == g(k) % p
    ensures Sum(f, n) % p == Sum(g, n) % p
  {
    if n > 0 {
      SumMod(f, g, n - 1, p);
      ModAddCongruent(Sum(f, n - 1), Sum(g, n - 1), f(n - 1), g(n - 1), p);
    }
  }

  lemma ModAddCongruent(a: int, a': int, b: int, b': int, p: int)
    requires p > 0 && a % p == a' % p && b % p == b' % p
    ensures (a + b) % p == (a' + b') % p
  {
    ModAdd(a, b, p);
    ModAdd(a', b, p);
    ModAdd(b, a', p);
    ModAdd(b', a', p);
  }

  // ----- the integer product and its laws -----

  ghost function Dot(a: Matrix, b: Matrix, i: int, j: int): int -> int {
    k => a(i, k) * b(k, j)
  }

  /** The mathematical product of n by n matrices. */
  ghost function Times(a: Matrix, b: Matrix, n: nat): Matrix {
    (i, j) => Sum(Dot(a, b, i, j), n)
  }

  /** The terms of one cell of a triple product. */
  ghost function Triple(a: Matrix, b: Matrix, c: Matrix, i: int, j: int): Matrix {
    (k, l) => a(i, l) * b(l, k) * c(k, j)
  }

  lemma TimesAssociative(a: Matrix, b: Matrix, c: Matrix, n: nat, i: int, j: int)
    ensures Times(Times(a, b, n), c, n)(i, j) == Times(a, Times(b, c, n), n)(i, j)
  {
    var f := Triple(a, b, c, i, j);
    forall k ensures Dot(Times(a, b, n), c, i, j)(k) == RowSums(f, n)(k) {
      SumScale(Dot(a, b, i, k), Row(f, k), c(k, j), n);
    }
    SumEqual(Dot(Times(a, b, n), c, i, j), RowSums(f, n), n);
    SumSwap(f, n, n);
    forall l ensures Dot(a, Times(b, c, n), i, j)(l) == ColumnSums(f, n)(l) {
      forall k ensures Column(f, l)(k) == a(i, l) * Dot(b, c, l, j)(k) {
        assert a(i, l) * b(l, k) * c(k, j) == a(i, l) * (b(l, k) * c(k, j));
      }
      SumScale(Dot(b, c, l, j), Column(f, l), a(i, l), n);
    }
    SumEqual(Dot(a, Times(b, c, n), i, j), ColumnSums(f, n), n);
  }

  /** The product reduced modulo p, which is what the kernel computes. */
  ghost function TimesMod(a: Matrix, b: Matrix, n: nat, p: int): Matrix
    requires p > 0
  {
    (i, j) => Times(a, b, n)(i, j) % p
  }

  /** Reducing the factors first makes no difference. */
  lemma TimesModReduced(a: Matrix, a': Matrix, b: Matrix, b': Matrix, n: nat, p: int, i: int, j: int)
    requires p > 0
    requires forall k | 0 <= k < n :: a(i, k) % p == a'(i, k) % p && b(k, j) % p == b'(k, j) % p
    ensures TimesMod(a, b, n, p)(i, j) == TimesMod(a', b', n, p)(i, j)
  {
    forall k | 0 <= k < n ensures Dot(a, b, i, j)(k) % p == Dot(a', b', i, j)(k) % p {
      ModMulBoth(a(i, k), b(k, j), p);
      ModMulBoth(a'(i, k), b'(k, j), p);
    }
    SumMod(Dot(a, b, i, j), Dot(a', b', i, j), n, p);
    assert Times(a, b, n)(i, j) == Sum(Dot(a, b, i, j), n);
    assert Times(a', b', n)(i, j) == Sum(Dot(a', b', i, j), n);
  }

  /** The modular product is associative. */
  lemma TimesModAssociative(a: Matrix, b: Matrix, c: Matrix, n: nat, p: int, i: int, j: int)
    requires p > 0
    ensures TimesMod(TimesMod(a, b, n, p), c, n, p)(i, j) == TimesMod(a, TimesMod(b, c, n, p), n, p)(i, j)
  {
    forall k
      ensures TimesMod(a, b, n, p)(i, k) % p == Times(a, b, n)(i, k) % p
      ensures TimesMod(b, c, n, p)(k, j) % p == Times(b, c, n)(k, j) % p
    {
      ModIdempotent(Times(a, b, n)(i, k), p);
      ModIdempotent(Times(b, c, n)(k, j), p);
    }
    TimesModReduced(TimesMod(a, b, n, p), Times(a, b, n), c, c, n, p, i, j);
    TimesModReduced(a, a, TimesMod(b, c, n, p), Times(b, c, n), n, p, i, j);
    TimesAssociative(a, b, c, n, i, j);
  }

  /** A row with a single element picks one row of the other factor. */
  lemma SingleElement(a: Matrix, b: Matrix, n: nat, p: int, i: int, j: int, q: nat)
    requires p > 0 && q < n && forall k | 0 <= k < n && k != q :: a(i, k) == 0
    ensures TimesMod(a, b, n, p)(i, j) == a(i, q) * b(q, j) % p
  {
    SingleTerm(Dot(a, b, i, j), n, q);
    assert Times(a, b, n)(i, j) == Sum(Dot(a, b, i, j), n);
  }

  lemma {:induction false} SingleTerm(f: int -> int, n: nat, q: nat)
    requires q < n && forall k | 0 <= k < n && k != q :: f(k) == 0
    ensures Sum(f, n) == f(q)
  {
    if q == n - 1 {
      SumZero(f, n - 1);
    } else {
      SingleTerm(f, n - 1, q);
    }
  }

  /** The product adds up over sums of rows. */
  lemma TimesAdds(a: Matrix, a': Matrix, c: Matrix, b: Matrix, n: nat, i: int, j: int)
    requires forall k | 0 <= k < n :: c(i, k) == a(i, k) + a'(i, k)
    ensures Times(c, b, n)(i, j) == Times(a, b, n)(i, j) + Times(a', b, n)(i, j)
  {
    forall k | 0 <= k < n ensures Dot(c, b, i, j)(k) == Dot(a, b, i, j)(k) + Dot(a', b, i, j)(k) {
      assert (a(i, k) + a'(i, k)) * b(k, j) == a(i, k) * b(k, j) + a'(i, k) * b(k, j);
    }
    SumAdd(Dot(a, b, i, j), Dot(a', b, i, j), Dot(c, b, i, j), n);
  }

  // ----- flat arrays -----

  /** Row-major positions are in range, and different cells have different positions. */
  lemma FlatIndex(i: int, j: int, n: nat)
    requires 0 <= i < n && 0 <= j < n
    ensures 0 <= i * n + j < n * n && (i * n + j) / n == i && (i * n + j) % n == j
  {
    InTable(i, j, n, n);
    RowDivision(i, j, n);
  }

  /** The matrix that a flat sequence holds in row-major order. */
  ghost function AsMatrix(s: seq<u64>, n: nat): Matrix {
    (i, j) => if 0 <= i * n + j < |s| then s[i * n + j] else 0
  }

  /** Cell i, j of the matrix is at position i * n + j of the flat form. */
  lemma CellPosition(s: seq<u64>, n: nat, i: int, j: int)
    requires |s| >= n * n && 0 <= i < n && 0 <= j < n
    ensures 0 <= i * n + j < |s| && AsMatrix(s, n)(i, j) == s[i * n + j]
  {
    FlatIndex(i, j, n);
  }

  // ----- what the kernel's loops compute -----

  /** A cell after k turns, with the wrapping 64-bit sum. */
  ghost function CodeSum(a: Matrix, b: Matrix, i: int, j: int, k: nat, p: int): int
    requires p > 0
  {
    if k == 0 then 0
    else Wrap64(CodeSum(a, b, i, j, k - 1, p) + Dot(a, b, i, j)(k - 1) % p) % p
  }

  /** The whole result. */
  ghost function CodeTimes(a: Matrix, b: Matrix, n: nat, p: int): Matrix
    requires p > 0
  {
    (i, j) => CodeSum(a, b, i, j, n, p)
  }

  /** Up to a modulus of 2^63 no sum wraps. */
  lemma {:induction false} CodeSumIsDot(a: Matrix, b: Matrix, i: int, j: int, k: nat, p: int)
    requires 0 < p <= TWO_63
    ensures CodeSum(a, b, i, j, k, p) == Sum(Dot(a, b, i, j), k) % p
  {
    if k == 0 {
      ModSmall(0, p);
    } else {
      CodeSumIsDot(a, b, i, j, k - 1, p);
      AddReduced(Sum(Dot(a, b, i, j), k - 1), Dot(a, b, i, j)(k - 1), p);
    }
  }

  lemma AddReduced(s: int, t: int, p: int)
    requires 0 < p <= TWO_63
    ensures Wrap64(s % p + t % p) % p == (s + t) % p
  {
    var r, u := s % p, t % p;
    ModRange(s, p);
    ModRange(t, p);
    ModAdd(s, u, p);
    ModAdd(t, s, p);
    hide Wrap64;
    Wrap64Small(r + u);
    assert r + u == u + r && s + u == u + s;
  }

  /** Whether the kernel's loops give the product modulo p of all matrices of 64-bit numbers. */
  ghost predicate Serves(n: nat, p: int)
    requires p > 0
  {
    forall s: seq<u64>, t: seq<u64>, i, j | |s| == n * n && |t| == n * n && 0 <= i < n && 0 <= j < n ::
      CodeTimes(AsMatrix(s, n), AsMatrix(t, n), n, p)(i, j) == TimesMod(AsMatrix(s, n), AsMatrix(t, n), n, p)(i, j)
  }

  lemma ProductsAt(a: Matrix, b: Matrix, n: nat, p: int, i: int, j: int)
    requires p > 0
    ensures CodeTimes(a, b, n, p)(i, j) == CodeSum(a, b, i, j, n, p)
    ensures TimesMod(a, b, n, p)(i, j) == Sum(Dot(a, b, i, j), n) % p
  {
    assert Times(a, b, n)(i, j) == Sum(Dot(a, b, i, j), n);
  }

  /** One cell up to a modulus of 2^63. */
  lemma CellModulo(a: Matrix, b: Matrix, n: nat, p: int, i: int, j: int)
    requires 0 < p <= TWO_63
    ensures CodeTimes(a, b, n, p)(i, j) == TimesMod(a, b, n, p)(i, j)
  {
    ProductsAt(a, b, n, p, i, j);
    hide CodeTimes, TimesMod, CodeSum, Sum, Dot;
    CodeSumIsDot(a, b, i, j, n, p);
  }

  lemma CellAlone(a: Matrix, b: Matrix, p: u64, i: int, j: int)
    requires p > 0
    ensures CodeTimes(a, b, 1, p)(i, j) == TimesMod(a, b, 1, p)(i, j)
  {
    ProductsAt(a, b, 1, p, i, j);
    hide CodeTimes, TimesMod, CodeSum, Sum, Dot;
    SingleCell(a, b, i, j, p);
  }

  lemma LargeCellLost(n: nat, p: u64)
    requires n >= 2 && p > TWO_63
    ensures CodeTimes(AsMatrix(LargeRow(n), n), AsMatrix(LargeColumn(n, p), n), n, p)(0, 0) !=
            TimesMod(AsMatrix(LargeRow(n), n), AsMatrix(LargeColumn(n, p), n), n, p)(0, 0)
  {
    ProductsAt(AsMatrix(LargeRow(n), n), AsMatrix(LargeColumn(n, p), n), n, p, 0, 0);
    hide CodeTimes, TimesMod, CodeSum, Sum, Dot, AsMatrix, LargeRow, LargeColumn;
    LargeCell(n, p, n);
    TrueCell(n, p, n);
  }

  /** They do exactly up to a modulus of 2^63, or for single cells. */
  lemma ServesIff(n: nat, p: u64)
    requires p > 0
    ensures Serves(n, p) <==> p <= TWO_63 || n <= 1
  {
    hide CodeTimes, TimesMod, AsMatrix;
    if p <= TWO_63 || n <= 1 {
      forall s: seq<u64>, t: seq<u64>, i, j | |s| == n * n && |t| == n * n && 0 <= i < n && 0 <= j < n
        ensures CodeTimes(AsMatrix(s, n), AsMatrix(t, n), n, p)(i, j) ==
                TimesMod(AsMatrix(s, n), AsMatrix(t, n), n, p)(i, j)
      {
        if p <= TWO_63 {
          CellModulo(AsMatrix(s, n), AsMatrix(t, n), n, p, i, j);
        } else {
          CellAlone(AsMatrix(s, n), AsMatrix(t, n), p, i, j);
        }
      }
    } else {
      LargeCellLost(n, p);
      var s, t := LargeRow(n), LargeColumn(n, p);
      assert |s| == n * n && |t| == n * n;
    }
  }

  lemma SingleCell(a: Matrix, b: Matrix, i: int, j: int, p: u64)
    requires p > 0
    ensures CodeSum(a, b, i, j, 1, p) == Sum(Dot(a, b, i, j), 1) % p
  {
    var t := Dot(a, b, i, j)(0);
    DivisionIdentity(t, p);
    Wrap64Small(t % p);
    ModIdempotent(t, p);
    assert CodeSum(a, b, i, j, 0, p) == 0;
    assert Sum(Dot(a, b, i, j), 1) == Sum(Dot(a, b, i, j), 0) + t == t;
  }

  /** A row that begins with two ones. */
  ghost function LargeRow(n: nat): (s: seq<u64>)
    ensures |s| == n * n
  {
    seq(n * n, f => if f < 2 then 1 else 0)
  }

  /** A column that begins with two values of p - 1. */
  ghost function LargeColumn(n: nat, p: u64): (s: seq<u64>)
    requires p > 0
    ensures |s| == n * n
  {
    seq(n * n, f => if f == 0 || f == n then p - 1 else 0)
  }

  lemma LargeTerm(n: nat, p: u64, k: nat)
    requires n >= 2 && p > 0 && k < n
    ensures Dot(AsMatrix(LargeRow(n), n), AsMatrix(LargeColumn(n, p), n), 0, 0)(k) == if k < 2 then p - 1 else 0
  {
    FlatIndex(0, k, n);
    FlatIndex(k, 0, n);
    assert 0 * n + k == k;
    if k == 1 {
      assert 1 * n + 0 == n;
    }
  }

  /** The two terms wrap. */
  lemma {:induction false} LargeCell(n: nat, p: u64, k: nat)
    requires n >= 2 && p > TWO_63 && 2 <= k <= n
    ensures CodeSum(AsMatrix(LargeRow(n), n), AsMatrix(LargeColumn(n, p), n), 0, 0, k, p) == 2 * p - 2 - TWO_64
  {
    var a, b := AsMatrix(LargeRow(n), n), AsMatrix(LargeColumn(n, p), n);
    LargeTerm(n, p, k - 1);
    hide Dot, AsMatrix, LargeRow, LargeColumn, Wrap64;
    ModSmall(p - 1, p);
    ModSmall(0, p);
    if k == 2 {
      LargeTerm(n, p, 0);
      Wrap64Small(p - 1);
      assert CodeSum(a, b, 0, 0, 0, p) == 0;
      assert CodeSum(a, b, 0, 0, 1, p) == p - 1;
      Wrap64Once(2 * p - 2);
      ModSmall(2 * p - 2 - TWO_64, p);
    } else {
      LargeCell(n, p, k - 1);
      Wrap64Small(2 * p - 2 - TWO_64);
      ModSmall(2 * p - 2 - TWO_64, p);
    }
  }

  lemma Wrap64Once(x: int)
    requires TWO_64 <= x < 2 * TWO_64
    ensures Wrap64(x) == x - TWO_64
  {
    ModOfMultiple(x - TWO_64, 1, TWO_64);
    ModSmall(x - TWO_64, TWO_64);
  }

  lemma {:induction false} LargeDot(n: nat, p: u64, k: nat)
    requires n >= 2 && p > 0 && 2 <= k <= n
    ensures Sum(Dot(AsMatrix(LargeRow(n), n), AsMatrix(LargeColumn(n, p), n), 0, 0), k) == 2 * p - 2
  {
    LargeTerm(n, p, k - 1);
    if k == 2 {
      LargeTerm(n, p, 0);
      var f := Dot(AsMatrix(LargeRow(n), n), AsMatrix(LargeColumn(n, p), n), 0, 0);
      assert Sum(f, 1) == Sum(f, 0) + f(0);
    } else {
      LargeDot(n, p, k - 1);
    }
  }

  lemma TrueCell(n: nat, p: u64, k: nat)
    requires n >= 2 && p > TWO_63 && 2 <= k <= n
    ensures Sum(Dot(AsMatrix(LargeRow(n), n), AsMatrix(LargeColumn(n, p), n), 0, 0), k) % p == p - 2
  {
    LargeDot(n, p, k);
    ModOfMultiple(p - 2, 1, p);
    ModSmall(p - 2, p);
  }

  // ----- the loops -----

  /** A cell's value after k turns. */
  ghost predicate CellDone(v: int, a: Matrix, b: Matrix, n: nat, p: int, f: int, k: nat)
    requires n > 0 && p > 0
  {
    v == CodeSum(a, b, f / n, f % n, k, p)
  }

  lemma RowBounds(i: nat, n: nat)
    requires i < n
    ensures 0 <= i * n && (i + 1) * n == i * n + n <= n * n
  {
    FlatIndex(i, n - 1, n);
  }

  lemma DoneIsProduct(s: seq<u64>, a: Matrix, b: Matrix, n: nat, p: int)
    requires n > 0 && p > 0 && |s| >= n * n
    requires forall f | 0 <= f < n * n :: CellDone(s[f], a, b, n, p, f, n)
    ensures forall i, j | 0 <= i < n && 0 <= j < n :: AsMatrix(s, n)(i, j) == CodeTimes(a, b, n, p)(i, j)
  {
    forall i, j | 0 <= i < n && 0 <= j < n ensures AsMatrix(s, n)(i, j) == CodeTimes(a, b, n, p)(i, j) {
      FlatIndex(i, j, n);
      assert CellDone(s[i * n + j], a, b, n, p, i * n + j, n);
    }
  }

  /** The first n * n cells are zero. */
  ghost predicate Cleared(s: seq<u64>, n: nat) {
    |s| >= n * n && forall f | 0 <= f < n * n :: s[f] == 0
  }

  /** A result that is one of the inputs is cleared first, so that the product is zero. */
  method MatrixMul(a: array<u64>, b: array<u64>, result: array<u64>, n: nat, mod: u64)
    requires mod > 0
    requires a.Length >= n * n && b.Length >= n * n && result.Length >= n * n
    modifies result
    ensures result != a && result != b ==> forall i, j | 0 <= i < n && 0 <= j < n ::
              AsMatrix(result[..], n)(i, j) == CodeTimes(AsMatrix(a[..], n), AsMatrix(b[..], n), n, mod)(i, j)
    ensures result != a && result != b && mod <= TWO_63 ==> forall i, j | 0 <= i < n && 0 <= j < n ::
              AsMatrix(result[..], n)(i, j) == TimesMod(AsMatrix(a[..], n), AsMatrix(b[..], n), n, mod)(i, j)
    ensures result == a || result == b ==> forall f | 0 <= f < n * n :: result[f] == 0
    ensures forall f | n * n <= f < result.Length :: result[f] == old(result[f])
  {
    for f := 0 to n * n
      invariant forall g | 0 <= g < f :: result[g] == 0
      invariant forall g | n * n <= g < result.Length :: result[g] == old(result[g])
    {
      result[f] := 0;
    }
    ghost var as0, bs0 := a[..], b[..];
    ghost var x, y := AsMatrix(as0, n), AsMatrix(bs0, n);
    for i := 0 to n
      invariant 0 <= i * n <= n * n && a[..] == as0 && b[..] == bs0
      invariant forall f | 0 <= f < i * n :: CellDone(result[f], x, y, n, mod, f, n)
      invariant forall f | i * n <= f < n * n :: result[f] == 0
      invariant forall f | n * n <= f < result.Length :: result[f] == old(result[f])
    {
      RowBounds(i, n);
      MatrixRow(a, b, result, n, mod, i);
    }
    if n > 0 {
      DoneIsProduct(result[..], x, y, n, mod);
    }
    if mod <= TWO_63 {
      forall i, j | 0 <= i < n && 0 <= j < n ensures CodeTimes(x, y, n, mod)(i, j) == TimesMod(x, y, n, mod)(i, j) {
        CellModulo(x, y, n, mod, i, j);
      }
    }
  }

  /** The middle loop: one row. */
  method MatrixRow(a: array<u64>, b: array<u64>, result: array<u64>, n: nat, mod: u64, i: nat)
    requires mod > 0 && i < n
    requires a.Length >= n * n && b.Length >= n * n && result.Length >= n * n
    requires result == a || result == b ==> Cleared(result[..], n)
    requires 0 <= i * n && i * n + n <= n * n
    requires forall f | i * n <= f < n * n :: result[f] == 0
    modifies result
    ensures a[..] == old(a[..]) && b[..] == old(b[..])
    ensures forall f | i * n <= f < i * n + n ::
              CellDone(result[f], AsMatrix(a[..], n), AsMatrix(b[..], n), n, mod, f, n)
    ensures forall f | 0 <= f < i * n || i * n + n <= f < result.Length :: result[f] == old(result[f])
  {
    ghost var as0, bs0 := a[..], b[..];
    ghost var x, y, start := AsMatrix(as0, n), AsMatrix(bs0, n), i * n;
    for j := 0 to n
      invariant a[..] == as0 && b[..] == bs0
      invariant forall f | start <= f < start + j :: CellDone(result[f], x, y, n, mod, f, n)
      invariant forall f | start + j <= f < n * n :: result[f] == 0
      invariant forall f | 0 <= f < start || start + n <= f < result.Length :: result[f] == old(result[f])
    {
      MatrixCell(a, b, result, n, mod, i, j);
    }
  }

  /** The innermost loop: one cell. */
  method MatrixCell(a: array<u64>, b: array<u64>, result: array<u64>, n: nat, mod: u64, i: nat, j: nat)
    requires mod > 0 && i < n && j < n
    requires a.Length >= n * n && b.Length >= n * n && result.Length >= n * n
    requires result == a || result == b ==> Cleared(result[..], n)
    requires i * n + j < n * n && result[i * n + j] == 0
    modifies result
    ensures a[..] == old(a[..]) && b[..] == old(b[..])
    ensures CellDone(result[i * n + j], AsMatrix(a[..], n), AsMatrix(b[..], n), n, mod, i * n + j, n)
    ensures forall f | 0 <= f < result.Length && f != i * n + j :: result[f] == old(result[f])
  {
    var cell := i * n + j;
    ghost var as0, bs0 := a[..], b[..];
    ghost var x, y := AsMatrix(as0, n), AsMatrix(bs0, n);
    FlatIndex(i, j, n);
    NoTurns(x, y, n, mod, cell);
    hide CellDone, AsMatrix, Wrap64;
    for k := 0 to n
      invariant a[..] == as0 && b[..] == bs0
      invariant CellDone(result[cell], x, y, n, mod, cell, k)
      invariant forall f | 0 <= f < result.Length && f != cell :: result[f] == old(result[f])
    {
      MatrixTurn(a, b, result, n, mod, i, j, k, cell);
    }
  }

  lemma NoTurns(a: Matrix, b: Matrix, n: nat, p: int, f: int)
    requires n > 0 && p > 0
    ensures CellDone(0, a, b, n, p, f, 0)
  {
  }

  lemma OneTurn(v: u64, a: Matrix, b: Matrix, n: nat, p: int, i: int, j: int, k: nat, cell: int, term: int)
    requires 0 <= i < n && 0 <= j < n && p > 0 && cell == i * n + j && CellDone(v, a, b, n, p, cell, k)
    requires term == Dot(a, b, i, j)(k) % p
    ensures CellDone(Wrap64(v + term) % p, a, b, n, p, cell, k + 1)
  {
    FlatIndex(i, j, n);
    hide Dot, Wrap64;
  }

  /** One turn: the 128-bit product, reduced, is added to the cell. */
  method MatrixTurn(a: array<u64>, b: array<u64>, result: array<u64>, n: nat, mod: u64, i: nat, j: nat, k: nat,
                    cell: nat)
    requires mod > 0 && i < n && j < n && k < n
    requires a.Length >= n * n && b.Length >= n * n && result.Length >= n * n
    requires result == a || result == b ==> Cleared(result[..], n)
    requires cell == i * n + j < n * n
    requires CellDone(result[cell], AsMatrix(a[..], n), AsMatrix(b[..], n), n, mod, cell, k)
    modifies result
    ensures a[..] == old(a[..]) && b[..] == old(b[..])
    ensures CellDone(result[cell], AsMatrix(a[..], n), AsMatrix(b[..], n), n, mod, cell, k + 1)
    ensures forall f | 0 <= f < result.Length && f != cell :: result[f] == old(result[f])
  {
    var term := CellTerm(a, b, n, mod, i, j, k);
    OneTurn(result[cell], AsMatrix(a[..], n), AsMatrix(b[..], n), n, mod, i, j, k, cell, term);
    if result == a || result == b {
      assert result[cell] == 0;
    }
    hide *;
    AddTerm(a, b, result, mod, cell, term);
  }

  /** The addition and its reduction, in place. */
  method AddTerm(a: array<u64>, b: array<u64>, result: array<u64>, mod: u64, cell: nat, term: u64)
    requires mod > 0 && cell < result.Length
    requires result == a || result == b ==> result[cell] == 0 && term == 0
    modifies result
    ensures a[..] == old(a[..]) && b[..] == old(b[..])
    ensures result[cell] == Wrap64(old(result[cell]) + term) % mod
    ensures forall f | 0 <= f < result.Length && f != cell :: result[f] == old(result[f])
  {
    Wrap64Small(0);
    ModSmall(0, mod);
    hide Wrap64;
    ModRange(Wrap64(result[cell] + term), mod);
    result[cell] := Wrap64(result[cell] + term) % mod;
  }

  lemma ZeroFactor(u: u64, v: u64, p: u64)
    requires p > 0 && (u == 0 || v == 0)
    ensures (u * v) % p == 0
  {
    assert u * v == 0;
    ModSmall(0, p);
  }

  /** The 128-bit product of one turn, reduced. */
  method CellTerm(a: array<u64>, b: array<u64>, n: nat, mod: u64, i: nat, j: nat, k: nat) returns (term: u64)
    requires mod > 0 && i < n && j < n && k < n && a.Length >= n * n && b.Length >= n * n
    ensures term == Dot(AsMatrix(a[..], n), AsMatrix(b[..], n), i, j)(k) % mod
    ensures Cleared(a[..], n) || Cleared(b[..], n) ==> term == 0
  {
    InTable(i, k, n, n);
    InTable(k, j, n, n);
    var left, right := a[i * n + k], b[k * n + j];
    DotAt(a[..], b[..], n, i, j, k);
    ghost var zero := Cleared(a[..], n) || Cleared(b[..], n);
    assert zero ==> left == 0 || right == 0;
    hide *;
    term := ReducedProduct(left, right, mod);
  }

  lemma DotAt(s: seq<u64>, t: seq<u64>, n: nat, i: nat, j: nat, k: nat)
    requires |s| >= n * n && |t| >= n * n && 0 <= i * n + k < n * n && 0 <= k * n + j < n * n
    ensures Dot(AsMatrix(s, n), AsMatrix(t, n), i, j)(k) == (s[i * n + k] as int) * (t[k * n + j] as int)
  {
  }

  method ReducedProduct(left: u64, right: u64, mod: u64) returns (term: u64)
    requires mod > 0
    ensures term == ((left as int) * (right as int)) % mod
    ensures left == 0 || right == 0 ==> term == 0
  {
    var wide: u128 := Wide(left, right);
    ModRange(wide, mod);
    term := wide % mod;
    if left == 0 || right == 0 {
      ZeroFactor(left, right, mod);
    }
  }
}
