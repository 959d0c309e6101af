/**
 Cache-blocked matrix multiplication against the naive triple loop (src/bin/benchmark.rs), over exact
 numbers. Every loop of both forms adds a box of products to the result; the boxes of either form
 tile the same cube.
 */
module BlockedMatrix {
  import opened ModularMatrix
  import opened NumberTheory

  type Flat = seq<real>

  predicate InGrid(i: int, j: int, n: nat) {
    0 <= i < n && 0 <= j < n
  }

  ghost predicate Square(s: Flat, n: nat) {
    |s| == n * n
  }

  /** The cell of a row-major matrix. */
  ghost function Cell(s: Flat, n: nat, i: int, j: int): real
    requires Square(s, n) && InGrid(i, j, n)
  {
    FlatIndex(i, j, n);
    s[i * n + j]
  }

  /** The terms lo..hi of the inner product for a cell. */
  ghost function Segment(a: Flat, b: Flat, n: nat, i: int, j: int, lo: int, hi: int): real
    requires Square(a, n) && Square(b, n) && InGrid(i, j, n) && 0 <= lo <= hi <= n
    decreases hi - lo
  {
    if lo == hi then 0.0 else Segment(a, b, n, i, j, lo, hi - 1) + Cell(a, n, i, hi - 1) * Cell(b, n, hi - 1, j)
  }

  lemma {:induction false} SegmentJoin(a: Flat, b: Flat, n: nat, i: int, j: int, lo: int, mid: int, hi: int)
    requires Square(a, n) && Square(b, n) && InGrid(i, j, n) && 0 <= lo <= mid <= hi <= n
    ensures Segment(a, b, n, i, j, lo, hi) == Segment(a, b, n, i, j, lo, mid) + Segment(a, b, n, i, j, mid, hi)
    decreases hi - mid
  {
    if mid < hi {
      SegmentJoin(a, b, n, i, j, lo, mid, hi - 1);
    }
  }

  lemma {:induction false} SingleCell(a: Flat, b: Flat, n: nat, i: int, j: int, hi: int, q: nat, x: real, y: real)
    requires Square(a, n) && Square(b, n) && InGrid(i, j, n) && q < n && 0 <= hi <= n
    requires forall k | 0 <= k < n && k != q :: Cell(a, n, i, k) == 0.0
    requires x == Cell(a, n, i, q) && y == Cell(b, n, q, j)
    ensures Segment(a, b, n, i, j, 0, hi) == if q < hi then x * y else 0.0
  {
    hide Cell;
    if hi > 0 {
      SingleCell(a, b, n, i, j, hi - 1, q, x, y);
    }
  }

  predicate RowMajor(n: nat, i: int, j: int, p: int) {
    p == i * n + j
  }

  lemma CellIs(s: Flat, n: nat, i: int, j: int, p: int)
    requires Square(s, n) && InGrid(i, j, n) && RowMajor(n, i, j, p)
    ensures 0 <= p < |s| && Cell(s, n, i, j) == s[p]
  {
    FlatIndex(i, j, n);
  }

  /** A row of a with a single element, at position p, picks one row of b. */
  lemma SingleElement(a: Flat, b: Flat, n: nat, i: int, j: int, q: nat, p: int, r: int)
    requires Square(a, n) && Square(b, n) && InGrid(i, j, n) && q < n && RowMajor(n, i, q, p) && RowMajor(n, q, j, r)
    requires forall k | 0 <= k < n && k != q :: Cell(a, n, i, k) == 0.0
    ensures 0 <= p < |a| && 0 <= r < |b| && Segment(a, b, n, i, j, 0, n) == a[p] * b[r]
  {
    hide Cell, Segment, Square, RowMajor;
    CellIs(a, n, i, q, p);
    CellIs(b, n, q, j, r);
    SingleCell(a, b, n, i, j, n, q, a[p], b[r]);
  }

  /** Inner products add up over sums of rows. */
  lemma {:induction false} SegmentAdds(a: Flat, a': Flat, c: Flat, b: Flat, n: nat, i: int, j: int, hi: int)
    requires Square(a, n) && Square(a', n) && Square(c, n) && Square(b, n) && InGrid(i, j, n) && 0 <= hi <= n
    requires forall k | 0 <= k < n :: Cell(c, n, i, k) == Cell(a, n, i, k) + Cell(a', n, i, k)
    ensures Segment(c, b, n, i, j, 0, hi) == Segment(a, b, n, i, j, 0, hi) + Segment(a', b, n, i, j, 0, hi)
  {
    hide Cell;
    if hi > 0 {
      SegmentAdds(a, a', c, b, n, i, j, hi - 1);
      var x, x', y := Cell(a, n, i, hi - 1), Cell(a', n, i, hi - 1), Cell(b, n, hi - 1, j);
      assert (x + x') * y == x * y + x' * y;
    }
  }

  /** A box of rows, columns and terms. */
  datatype Box = Box(i0: int, i1: int, j0: int, j1: int, k0: int, k1: int) {
    predicate Within(n: nat) {
      0 <= i0 <= i1 <= n && 0 <= j0 <= j1 <= n && 0 <= k0 <= k1 <= n
    }

    predicate Covers(i: int, j: int) {
      i0 <= i < i1 && j0 <= j < j1
    }
  }

  /** What a cell holds after the products of a box were added to it. */
  ghost predicate CellAdded(a: Flat, b: Flat, n: nat, before: Flat, after: Flat, box: Box, i: int, j: int)
    requires Square(a, n) && Square(b, n) && Square(before, n) && Square(after, n) && box.Within(n) && InGrid(i, j, n)
  {
    Cell(after, n, i, j) == Cell(before, n, i, j) +
    if box.Covers(i, j) then Segment(a, b, n, i, j, box.k0, box.k1) else 0.0
  }

  /** The box was added to the result and nothing else changed. */
  ghost predicate Added(a: Flat, b: Flat, n: nat, before: Flat, after: Flat, box: Box)
    requires Square(a, n) && Square(b, n)
  {
    && Square(before, n) && Square(after, n) && box.Within(n)
    && forall i, j | InGrid(i, j, n) :: CellAdded(a, b, n, before, after, box, i, j)
  }

  // ----- putting boxes together -----

  lemma AddedNothing(a: Flat, b: Flat, n: nat, s: Flat, box: Box)
    requires Square(a, n) && Square(b, n) && Square(s, n) && box.Within(n)
    requires box.i0 == box.i1 || box.j0 == box.j1 || box.k0 == box.k1
    ensures Added(a, b, n, s, s, box)
  {
    hide Cell;
  }

  lemma AddedRows(a: Flat, b: Flat, n: nat, s: Flat, t: Flat, u: Flat, box: Box, next: Box)
    requires Square(a, n) && Square(b, n)
    requires Added(a, b, n, s, t, box) && Added(a, b, n, t, u, next)
    requires next == box.(i0 := box.i1, i1 := next.i1)
    ensures Added(a, b, n, s, u, box.(i1 := next.i1))
  {
    hide Cell, Segment;
    forall i, j | InGrid(i, j, n) ensures CellAdded(a, b, n, s, u, box.(i1 := next.i1), i, j) {
      assert CellAdded(a, b, n, s, t, box, i, j) && CellAdded(a, b, n, t, u, next, i, j);
    }
  }

  lemma AddedColumns(a: Flat, b: Flat, n: nat, s: Flat, t: Flat, u: Flat, box: Box, next: Box)
    requires Square(a, n) && Square(b, n)
    requires Added(a, b, n, s, t, box) && Added(a, b, n, t, u, next)
    requires next == box.(j0 := box.j1, j1 := next.j1)
    ensures Added(a, b, n, s, u, box.(j1 := next.j1))
  {
    hide Cell, Segment;
    forall i, j | InGrid(i, j, n) ensures CellAdded(a, b, n, s, u, box.(j1 := next.j1), i, j) {
      assert CellAdded(a, b, n, s, t, box, i, j) && CellAdded(a, b, n, t, u, next, i, j);
    }
  }

  lemma AddedTerms(a: Flat, b: Flat, n: nat, s: Flat, t: Flat, u: Flat, box: Box, next: Box)
    requires Square(a, n) && Square(b, n)
    requires Added(a, b, n, s, t, box) && Added(a, b, n, t, u, next)
    requires next == box.(k0 := box.k1, k1 := next.k1)
    ensures Added(a, b, n, s, u, box.(k1 := next.k1))
  {
    hide Cell, Segment;
    forall i, j | InGrid(i, j, n) ensures CellAdded(a, b, n, s, u, box.(k1 := next.k1), i, j) {
      assert CellAdded(a, b, n, s, t, box, i, j) && CellAdded(a, b, n, t, u, next, i, j);
      SegmentJoin(a, b, n, i, j, box.k0, box.k1, next.k1);
    }
  }

  /** Writing one cell leaves every other cell alone. */
  lemma CellWritten(s: Flat, n: nat, i: int, j: int, v: real, i': int, j': int)
    requires Square(s, n) && InGrid(i, j, n) && InGrid(i', j', n)
    ensures 0 <= i * n + j < n * n
    ensures Cell(s[i * n + j := v], n, i', j') == if i == i' && j == j' then v else Cell(s, n, i', j')
  {
    FlatIndex(i, j, n);
    FlatIndex(i', j', n);
  }

  /** One multiply-add adds a box of a single product. */
  lemma AddedProduct(a: Flat, b: Flat, n: nat, s: Flat, i: int, j: int, k: int, cell: int, value: real)
    requires Square(a, n) && Square(b, n) && Square(s, n) && InGrid(i, j, n) && 0 <= k < n
    requires cell == i * n + j && value == Cell(s, n, i, j) + Cell(a, n, i, k) * Cell(b, n, k, j)
    ensures 0 <= cell < n * n && Added(a, b, n, s, s[cell := value], Box(i, i + 1, j, j + 1, k, k + 1))
  {
    hide Cell, Segment;
    var box := Box(i, i + 1, j, j + 1, k, k + 1);
    CellWritten(s, n, i, j, value, i, j);
    SingleTerm(a, b, n, i, j, k);
    forall i', j' | InGrid(i', j', n) ensures CellAdded(a, b, n, s, s[cell := value], box, i', j') {
      CellWritten(s, n, i, j, value, i', j');
    }
  }

  lemma SingleTerm(a: Flat, b: Flat, n: nat, i: int, j: int, k: int)
    requires Square(a, n) && Square(b, n) && InGrid(i, j, n) && 0 <= k < n
    ensures Segment(a, b, n, i, j, k, k + 1) == Cell(a, n, i, k) * Cell(b, n, k, j)
  {
    hide Cell;
    assert Segment(a, b, n, i, j, k, k) == 0.0;
  }

  /** The statement both forms repeat, for the element aik of a. */
  method MultiplyAdd(aik: real, b: array<real>, result: array<real>, n: nat, i: int, j: int, k: int, ghost a: Flat)
    requires Square(a, n) && b.Length == n * n && result.Length == n * n && result != b
    requires InGrid(i, j, n) && 0 <= k < n && 0 <= i * n + k < n * n && aik == a[i * n + k]
    modifies result
    ensures Added(a, b[..], n, old(result[..]), result[..], Box(i, i + 1, j, j + 1, k, k + 1))
  {
    InTable(i, j, n, n);
    InTable(k, j, n, n);
    ghost var y, t := b[..], result[..];
    var cell, factor := i * n + j, b[k * n + j];
    assert aik == Cell(a, n, i, k) && factor == Cell(y, n, k, j) && result[cell] == Cell(t, n, i, j);
    hide *;
    var value := result[cell] + aik * factor;
    AddedProduct(a, y, n, t, i, j, k, cell, value);
    result[cell] := value;
    assert result[..] == t[cell := value];
  }

  // ----- the blocked form -----

  function Min(x: nat, y: nat): nat {
    if x < y then x else y
  }

  method BlockedMultiply(a: array<real>, b: array<real>, result: array<real>, n: nat, blockSize: nat)
    requires a.Length == n * n && b.Length == n * n && result.Length == n * n && blockSize > 0
    requires result != a && result != b
    modifies result
    ensures Added(a[..], b[..], n, old(result[..]), result[..], Box(0, n, 0, n, 0, n))
  {
    hide Added;
    ghost var x, y, s := a[..], b[..], result[..];
    var iBlock := 0;
    AddedNothing(x, y, n, s, Box(0, 0, 0, n, 0, n));
    while iBlock < n
      invariant Added(x, y, n, s, result[..], Box(0, Min(iBlock, n), 0, n, 0, n))
    {
      var iEnd := Min(iBlock + blockSize, n);
      ghost var t := result[..];
      BlockRow(a, b, result, n, blockSize, iBlock, iEnd);
      AddedRows(x, y, n, s, t, result[..], Box(0, iBlock, 0, n, 0, n), Box(iBlock, iEnd, 0, n, 0, n));
      iBlock := iBlock + blockSize;
    }
  }

  /** The second loop: the blocks of one row of blocks. */
  method BlockRow(a: array<real>, b: array<real>, result: array<real>, n: nat, blockSize: nat, i0: nat, i1: nat)
    requires a.Length == n * n && b.Length == n * n && result.Length == n * n && blockSize > 0
    requires result != a && result != b && i0 <= i1 <= n
    modifies result
    ensures Added(a[..], b[..], n, old(result[..]), result[..], Box(i0, i1, 0, n, 0, n))
  {
    hide Added;
    ghost var x, y, s := a[..], b[..], result[..];
    var jBlock := 0;
    AddedNothing(x, y, n, s, Box(i0, i1, 0, 0, 0, n));
    while jBlock < n
      invariant Added(x, y, n, s, result[..], Box(i0, i1, 0, Min(jBlock, n), 0, n))
    {
      var jEnd := Min(jBlock + blockSize, n);
      ghost var t := result[..];
      Block(a, b, result, n, blockSize, i0, i1, jBlock, jEnd);
      AddedColumns(x, y, n, s, t, result[..], Box(i0, i1, 0, jBlock, 0, n), Box(i0, i1, jBlock, jEnd, 0, n));
      jBlock := jBlock + blockSize;
    }
  }

  /** The third loop: all tiles of terms for one block of the result. */
  method Block(a: array<real>, b: array<real>, result: array<real>, n: nat, blockSize: nat,
               i0: nat, i1: nat, j0: nat, j1: nat)
    requires a.Length == n * n && b.Length == n * n && result.Length == n * n && blockSize > 0
    requires result != a && result != b && i0 <= i1 <= n && j0 <= j1 <= n
    modifies result
    ensures Added(a[..], b[..], n, old(result[..]), result[..], Box(i0, i1, j0, j1, 0, n))
  {
    hide Added;
    ghost var x, y, s := a[..], b[..], result[..];
    var kBlock := 0;
    AddedNothing(x, y, n, s, Box(i0, i1, j0, j1, 0, 0));
    while kBlock < n
      invariant Added(x, y, n, s, result[..], Box(i0, i1, j0, j1, 0, Min(kBlock, n)))
    {
      var kEnd := Min(kBlock + blockSize, n);
      ghost var t := result[..];
      Tile(a, b, result, n, Box(i0, i1, j0, j1, kBlock, kEnd));
      AddedTerms(x, y, n, s, t, result[..], Box(i0, i1, j0, j1, 0, kBlock), Box(i0, i1, j0, j1, kBlock, kEnd));
      kBlock := kBlock + blockSize;
    }
  }

  /** The fourth loop: the rows of one tile. */
  method Tile(a: array<real>, b: array<real>, result: array<real>, n: nat, box: Box)
    requires a.Length == n * n && b.Length == n * n && result.Length == n * n
    requires result != a && result != b && box.Within(n)
    modifies result
    ensures Added(a[..], b[..], n, old(result[..]), result[..], box)
  {
    hide Added;
    ghost var x, y, s := a[..], b[..], result[..];
    AddedNothing(x, y, n, s, box.(i1 := box.i0));
    for i := box.i0 to box.i1
      invariant Added(x, y, n, s, result[..], box.(i1 := i))
    {
      ghost var t := result[..];
      TileRow(a, b, result, n, box, i);
      AddedRows(x, y, n, s, t, result[..], box.(i1 := i), box.(i0 := i, i1 := i + 1));
    }
  }

  /** The fifth loop: the terms of one row of a tile. */
  method TileRow(a: array<real>, b: array<real>, result: array<real>, n: nat, box: Box, i: int)
    requires a.Length == n * n && b.Length == n * n && result.Length == n * n
    requires result != a && result != b && box.Within(n) && 0 <= i < n
    modifies result
    ensures Added(a[..], b[..], n, old(result[..]), result[..], box.(i0 := i, i1 := i + 1))
  {
    hide Added;
    ghost var x, y, s, row := a[..], b[..], result[..], box.(i0 := i, i1 := i + 1);
    AddedNothing(x, y, n, s, row.(k1 := row.k0));
    for k := box.k0 to box.k1
      invariant Added(x, y, n, s, result[..], row.(k1 := k))
    {
      ghost var t := result[..];
      Scaled(a, b, result, n, box, i, k);
      AddedTerms(x, y, n, s, t, result[..], row.(k1 := k), row.(k0 := k, k1 := k + 1));
    }
  }

  /** The innermost loop: one element of a times a stretch of a row of b. */
  method Scaled(a: array<real>, b: array<real>, result: array<real>, n: nat, box: Box, i: int, k: int)
    requires a.Length == n * n && b.Length == n * n && result.Length == n * n
    requires result != a && result != b && box.Within(n) && 0 <= i < n && 0 <= k < n
    modifies result
    ensures Added(a[..], b[..], n, old(result[..]), result[..], box.(i0 := i, i1 := i + 1, k0 := k, k1 := k + 1))
  {
    hide Added;
    ghost var x, y, s := a[..], b[..], result[..];
    ghost var line := box.(i0 := i, i1 := i + 1, k0 := k, k1 := k + 1);
    AddedNothing(x, y, n, s, line.(j1 := line.j0));
    InTable(i, k, n, n);
    var aik := a[i * n + k];
    for j := box.j0 to box.j1
      invariant Added(x, y, n, s, result[..], line.(j1 := j))
    {
      ghost var t := result[..];
      MultiplyAdd(aik, b, result, n, i, j, k, x);
      AddedColumns(x, y, n, s, t, result[..], line.(j1 := j), line.(j0 := j, j1 := j + 1));
    }
  }

  // ----- the naive form -----

  method NaiveMultiply(a: array<real>, b: array<real>, result: array<real>, n: nat)
    requires a.Length == n * n && b.Length == n * n && result.Length == n * n
    requires result != a && result != b
    modifies result
    ensures Added(a[..], b[..], n, old(result[..]), result[..], Box(0, n, 0, n, 0, n))
  {
    hide Added;
    ghost var x, y, s := a[..], b[..], result[..];
    AddedNothing(x, y, n, s, Box(0, 0, 0, n, 0, n));
    for i := 0 to n
      invariant Added(x, y, n, s, result[..], Box(0, i, 0, n, 0, n))
    {
      ghost var t := result[..];
      NaiveRow(a, b, result, n, i);
      AddedRows(x, y, n, s, t, result[..], Box(0, i, 0, n, 0, n), Box(i, i + 1, 0, n, 0, n));
    }
  }

  method NaiveRow(a: array<real>, b: array<real>, result: array<real>, n: nat, i: nat)
    requires a.Length == n * n && b.Length == n * n && result.Length == n * n
    requires result != a && result != b && i < n
    modifies result
    ensures Added(a[..], b[..], n, old(result[..]), result[..], Box(i, i + 1, 0, n, 0, n))
  {
    hide Added;
    ghost var x, y, s := a[..], b[..], result[..];
    AddedNothing(x, y, n, s, Box(i, i + 1, 0, 0, 0, n));
    for j := 0 to n
      invariant Added(x, y, n, s, result[..], Box(i, i + 1, 0, j, 0, n))
    {
      ghost var t := result[..];
      NaiveCell(a, b, result, n, i, j);
      AddedColumns(x, y, n, s, t, result[..], Box(i, i + 1, 0, j, 0, n), Box(i, i + 1, j, j + 1, 0, n));
    }
  }

  method NaiveCell(a: array<real>, b: array<real>, result: array<real>, n: nat, i: nat, j: nat)
    requires a.Length == n * n && b.Length == n * n && result.Length == n * n
    requires result != a && result != b && i < n && j < n
    modifies result
    ensures Added(a[..], b[..], n, old(result[..]), result[..], Box(i, i + 1, j, j + 1, 0, n))
  {
    hide Added;
    ghost var x, y, s, cell := a[..], b[..], result[..], Box(i, i + 1, j, j + 1, 0, n);
    AddedNothing(x, y, n, s, cell.(k1 := 0));
    for k := 0 to n
      invariant Added(x, y, n, s, result[..], cell.(k1 := k))
    {
      ghost var t := result[..];
      InTable(i, k, n, n);
      MultiplyAdd(a[i * n + k], b, result, n, i, j, k, x);
      AddedTerms(x, y, n, s, t, result[..], cell.(k1 := k), cell.(k0 := k, k1 := k + 1));
    }
  }

  // ----- the two agree -----

  /** Adding the same box to the same matrix gives one matrix. */
  lemma AddedUnique(a: Flat, b: Flat, n: nat, s: Flat, t: Flat, u: Flat, box: Box)
    requires Square(a, n) && Square(b, n)
    requires Added(a, b, n, s, t, box) && Added(a, b, n, s, u, box)
    ensures t == u
  {
    forall f | 0 <= f < n * n ensures t[f] == u[f] {
      var i, j := f / n, f % n;
      Unflatten(f, n);
      assert CellAdded(a, b, n, s, t, box, i, j) && CellAdded(a, b, n, s, u, box, i, j);
    }
  }

  lemma Unflatten(f: int, n: nat)
    requires 0 <= f < n * n
    ensures n > 0 && InGrid(f / n, f % n, n) && f == f / n * n + f % n
  {
    assert n > 0;
  }

  /** The benchmark: both forms from zero give the same matrix, the product of a and b. */
  method BenchmarkMatrixMultiply(a: array<real>, b: array<real>, n: nat, blockSize: nat)
    returns (result: array<real>, naiveResult: array<real>)
    requires a.Length == n * n && b.Length == n * n && blockSize > 0
    ensures result[..] == naiveResult[..] && |result[..]| == n * n
    ensures forall i, j | InGrid(i, j, n) ::
              0 <= i * n + j < result.Length && result[i * n + j] == Segment(a[..], b[..], n, i, j, 0, n)
  {
    hide Added, Segment;
    ghost var zero := seq(n * n, _ => 0.0);
    result := new real[n * n](_ => 0.0);
    assert result[..] == zero;
    BlockedMultiply(a, b, result, n, blockSize);
    naiveResult := new real[n * n](_ => 0.0);
    assert naiveResult[..] == zero;
    NaiveMultiply(a, b, naiveResult, n);
    FromZero(a[..], b[..], n, zero, result[..]);
    forall i, j | InGrid(i, j, n)
      ensures 0 <= i * n + j < result.Length && result[i * n + j] == Segment(a[..], b[..], n, i, j, 0, n)
    {
      FlatIndex(i, j, n);
      assert Cell(result[..], n, i, j) == Segment(a[..], b[..], n, i, j, 0, n);
    }
    AddedUnique(a[..], b[..], n, zero, result[..], naiveResult[..], Box(0, n, 0, n, 0, n));
  }

  lemma FromZero(a: Flat, b: Flat, n: nat, zero: Flat, s: Flat)
    requires Square(a, n) && Square(b, n) && Square(zero, n) && forall f | 0 <= f < n * n :: zero[f] == 0.0
    requires Added(a, b, n, zero, s, Box(0, n, 0, n, 0, n))
    ensures forall i, j | InGrid(i, j, n) :: Cell(s, n, i, j) == Segment(a, b, n, i, j, 0, n)
  {
    forall i, j | InGrid(i, j, n) ensures Cell(s, n, i, j) == Segment(a, b, n, i, j, 0, n) {
      assert CellAdded(a, b, n, zero, s, Box(0, n, 0, n, 0, n), i, j);
      FlatIndex(i, j, n);
    }
  }
}
