/** Row-major positions in a three-dimensional tensor (qanban/src/qanban_tensor_decomposition.rs). */
module TensorLayout {
  import opened NumberTheory

  datatype Dims = Dims(d0: nat, d1: nat, d2: nat) {
    function Total(): nat {
      d0 * d1 * d2
    }

    predicate InRange(i: int, j: int, k: int) {
      0 <= i < d0 && 0 <= j < d1 && 0 <= k < d2
    }

    /** Where flattening puts a cell. */
    ghost function Position(i: int, j: int, k: int): int {
      (i * d1 + j) * d2 + k
    }
  }

  /** Reshaping's indices undo the position: each position belongs to one cell. */
  lemma PositionUnique(d: Dims, i: int, j: int, k: int)
    requires d.InRange(i, j, k)
    ensures var p := d.Position(i, j, k);
            && 0 <= p < d.Total() && d.d1 * d.d2 > 0
            && p / (d.d1 * d.d2) == i && p / d.d2 % d.d1 == j && p % d.d2 == k
  {
    var q := i * d.d1 + j;
    InTable(i, j, d.d0, d.d1);
    InTable(q, k, d.d0 * d.d1, d.d2);
    RowDivision(q, k, d.d2);
    RowDivision(i, j, d.d1);
    OuterDivision(i, j, k, d.d1, d.d2);
  }

  lemma OuterDivision(i: int, j: int, k: int, d1: int, d2: int)
    requires 0 <= i && 0 <= j < d1 && 0 <= k < d2
    ensures d1 * d2 > 0 && ((i * d1 + j) * d2 + k) / (d1 * d2) == i
  {
    InTable(j, k, d1, d2);
    var m := d1 * d2;
    assert (i * d1 + j) * d2 == i * (d1 * d2) + j * d2;
    RowDivision(i, j * d2 + k, m);
  }

  /** Every position belongs to a cell, the one reshaping computes. */
  lemma PositionReached(d: Dims, p: int)
    requires 0 <= p < d.Total()
    ensures d.d1 > 0 && d.d2 > 0 && d.d1 * d.d2 > 0
    ensures var i, j, k := p / (d.d1 * d.d2), p / d.d2 % d.d1, p % d.d2;
            d.InRange(i, j, k) && d.Position(i, j, k) == p
  {
    PositiveFactors(d.d0 * d.d1, d.d2);
    PositiveFactors(d.d0, d.d1);
    TwoDivisions(p, d.d0 * d.d1, d.d2);
    var q := p / d.d2;
    TwoDivisions(q, d.d0, d.d1);
    assert p == d.Position(q / d.d1, q % d.d1, p % d.d2);
    PositionUnique(d, q / d.d1, q % d.d1, p % d.d2);
  }

  lemma TwoDivisions(p: int, m: int, b: int)
    requires b > 0 && 0 <= p < m * b
    ensures 0 <= p / b < m && p == p / b * b + p % b
  {
    DivisionIdentity(p, b);
    QuotientAtLeast(p, b, 0);
    QuotientBelow(p, b, m);
  }

  lemma PositiveFactors(a: nat, b: nat)
    requires a * b > 0
    ensures a > 0 && b > 0
  {
  }
}
