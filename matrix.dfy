/** The container: a fixed-size grid of `rows` x `cols` cells (Rust's
    `Matrix<T, R, C>`, whose dimensions are type-level constants). */
module Matrices {

  datatype Matrix<T> = Matrix(rows: nat, cols: nat, data: seq<seq<T>>) {

    /** Exactly `rows` rows of exactly `cols` cells each. */
    predicate Valid() {
      |data| == rows && forall r | 0 <= r < |data| :: |data[r]| == cols
    }

    /** `get(i, j)`: the cell in row i, column j. */
    function Get(i: nat, j: nat): T
      requires Valid() && i < rows && j < cols
    {
      data[i][j]
    }
  }

  /** `Matrix::new()`: every cell holds the element type's default value. */
  function New<T>(rows: nat, cols: nat, default: T): (m: Matrix<T>)
    ensures m.Valid() && m.rows == rows && m.cols == cols
    ensures forall i, j | 0 <= i < rows && 0 <= j < cols :: m.Get(i, j) == default
  {
    Matrix(rows, cols, seq(rows, _ => seq(cols, _ => default)))
  }
}
