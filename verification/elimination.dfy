/**
  The candidate-elimination pass of main.py: seed the specific hypothesis
  from the first row and the general matrix with wildcards, then visit every
  row in table order, generalizing the specific hypothesis on a positive row
  and rewriting the diagonal of the general matrix on a negative one.
 */
module Elimination {
  import opened Hypotheses

  /** The state before any row is visited: the specific hypothesis is the
      first row, whatever its label, and the general matrix is all wildcards,
      one row and column per column of the table. */
  function Initial(first: Vector): (st: State)
    ensures Shaped(st) && OffDiagonalWildcard(st.general)
    ensures st.specific == first
    ensures forall j :: 0 <= j < |first| ==> st.general[j][j] == Wildcard
  {
    State(first, AllWildcard(|first|))
  }

  /** Positive row: each position where the row disagrees with the specific
      hypothesis becomes the wildcard. The result accepts both the old
      hypothesis and the row, and keeps every position where they agree. */
  function Generalize(s: Vector, x: Vector): (r: Vector)
    requires |x| == |s|
    ensures |r| == |s|
    ensures Covers(r, s) && Covers(r, x)
    ensures forall j :: 0 <= j < |s| && x[j] == s[j] ==> r[j] == s[j]
    ensures forall j :: 0 <= j < |s| ==> (r[j] == Wildcard <==> x[j] != s[j] || s[j] == Wildcard)
  {
    seq(|s|, j requires 0 <= j < |s| => if x[j] != s[j] then Wildcard else s[j])
  }

  /** Negative row: diagonal cell j of the general matrix takes the specific
      value s[j] when the row disagrees with it at j, and the wildcard
      otherwise. No cell off the diagonal changes. */
  function Specialize(g: seq<Vector>, s: Vector, x: Vector): (r: seq<Vector>)
    requires IsMatrix(g, |s|) && |x| == |s|
    ensures IsMatrix(r, |s|)
    ensures forall i, j :: 0 <= i < |s| && 0 <= j < |s| && i != j ==> r[i][j] == g[i][j]
    ensures forall j :: 0 <= j < |s| ==> (r[j][j] != Wildcard <==> x[j] != s[j] && s[j] != Wildcard)
    ensures forall j :: 0 <= j < |s| && r[j][j] != Wildcard ==> r[j][j] == s[j]
  {
    seq(|s|, i requires 0 <= i < |s| =>
      seq(|s|, j requires 0 <= j < |s| =>
        if i != j then g[i][j] else if x[j] != s[j] then s[j] else Wildcard))
  }

  /** One iteration of the row loop: a positive row touches only the specific
      hypothesis, a negative row only the general matrix. */
  function Step(st: State, x: Vector, t: nat): (r: State)
    requires Shaped(st) && |x| == |st.specific| && t < |x|
    ensures Shaped(r) && |r.specific| == |st.specific|
    ensures IsPositive(x, t) ==>
      r.general == st.general && Covers(r.specific, st.specific) && Covers(r.specific, x)
    ensures !IsPositive(x, t) ==> r.specific == st.specific
    ensures OffDiagonalWildcard(st.general) ==> OffDiagonalWildcard(r.general)
  {
    if IsPositive(x, t) then State(Generalize(st.specific, x), st.general)
    else State(st.specific, Specialize(st.general, st.specific, x))
  }

  /** The row loop from state `st` over `rows`, in order. */
  function Run(st: State, rows: seq<Vector>, t: nat): (r: State)
    requires Shaped(st) && IsTable(rows, |st.specific|) && t < |st.specific|
    ensures Shaped(r) && |r.specific| == |st.specific|
    ensures OffDiagonalWildcard(st.general) ==> OffDiagonalWildcard(r.general)
    ensures Covers(r.specific, st.specific)
    decreases |rows|
  {
    if |rows| == 0 then st
    else
      var before := Run(st, rows[..|rows| - 1], t);
      var r := Step(before, rows[|rows| - 1], t);
      CoversTransitive(r.specific, before.specific, st.specific);
      r
  }

  /** `candidate_elimination`: the whole pass over the table, the first row
      included. The specific vector and the general matrix span every column,
      the target column too, and only the diagonal of the matrix is ever
      anything but the wildcard. */
  function CandidateElimination(rows: seq<Vector>, t: nat): (r: State)
    requires IsInput(rows, t)
    ensures |r.specific| == |rows[0]| && IsMatrix(r.general, |rows[0]|)
    ensures OffDiagonalWildcard(r.general)
    ensures Covers(r.specific, rows[0])
  {
    Run(Initial(rows[0]), rows, t)
  }

  /** The index of the last negative row, if there is one. */
  function LastNegative(rows: seq<Vector>, t: nat): (k: Option<nat>)
    requires forall i :: 0 <= i < |rows| ==> t < |rows[i]|
    ensures k.Some? ==>
      k.value < |rows| && !IsPositive(rows[k.value], t) &&
      forall i :: k.value < i < |rows| ==> IsPositive(rows[i], t)
    ensures k.None? ==> forall i :: 0 <= i < |rows| ==> IsPositive(rows[i], t)
    decreases |rows|
  {
    if |rows| == 0 then None
    else if !IsPositive(rows[|rows| - 1], t) then Some(|rows| - 1)
    else LastNegative(rows[..|rows| - 1], t)
  }
}
