/**
  Hypothesis vectors, the table of examples and the boundary state that the
  candidate-elimination pass threads from row to row.

  A table row and a hypothesis are both vectors of cells, aligned by column
  position. Every column takes part, the target column included.
 */
module Hypotheses {

  /** A table cell. Cells are opaque and compared only for equality. */
  type Value = string

  /** One table row, or one hypothesis: position j is column j. */
  type Vector = seq<Value>

  /** The cell that accepts any value at its position. A table cell holding
      this very text compares equal to it. */
  const Wildcard: Value := "?"

  /** The only target value that makes a row a positive example. */
  const PositiveLabel: Value := "Yes"

  datatype Option<T> = None | Some(value: T)

  /** The specific hypothesis and the general hypothesis matrix. */
  datatype State = State(specific: Vector, general: seq<Vector>)

  /** A row is positive exactly when its target cell is the positive label. */
  predicate IsPositive(row: Vector, t: nat)
    requires t < |row|
  {
    row[t] == PositiveLabel
  }

  /** `h` accepts `x` at every position. Read on two hypotheses, it says that
      `h` is at least as general as `x`. */
  predicate Covers(h: Vector, x: Vector)
    requires |h| == |x|
  {
    forall j :: 0 <= j < |h| ==> h[j] == Wildcard || h[j] == x[j]
  }

  /** An m-by-m matrix of cells. */
  predicate IsMatrix(g: seq<Vector>, m: nat)
  {
    |g| == m && forall i :: 0 <= i < m ==> |g[i]| == m
  }

  /** Every cell off the diagonal is the wildcard. */
  predicate OffDiagonalWildcard(g: seq<Vector>)
    requires IsMatrix(g, |g|)
  {
    forall i, j :: 0 <= i < |g| && 0 <= j < |g| && i != j ==> g[i][j] == Wildcard
  }

  /** The general matrix is square, one row and one column per position of
      the specific vector. */
  predicate Shaped(st: State)
  {
    IsMatrix(st.general, |st.specific|)
  }

  /** Every row has width m. */
  predicate IsTable(rows: seq<Vector>, m: nat)
  {
    forall i :: 0 <= i < |rows| ==> |rows[i]| == m
  }

  /** What the pass relies on without checking: a first row to seed from,
      rows of one width, and a target column inside that width. */
  predicate IsInput(rows: seq<Vector>, t: nat)
  {
    |rows| > 0 && IsTable(rows, |rows[0]|) && t < |rows[0]|
  }

  /** The m-by-m matrix of wildcards. */
  function AllWildcard(m: nat): (g: seq<Vector>)
    ensures IsMatrix(g, m)
    ensures forall i, j :: 0 <= i < m && 0 <= j < m ==> g[i][j] == Wildcard
  {
    seq(m, _ => seq(m, _ => Wildcard))
  }

  /** Being at least as general is transitive. */
  lemma CoversTransitive(a: Vector, b: Vector, c: Vector)
    requires |a| == |b| == |c|
    requires Covers(a, b) && Covers(b, c)
    ensures Covers(a, c)
  {
  }
}
