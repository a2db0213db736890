/**
  The pass written the way main.py writes it: one loop over the rows and,
  inside it, one loop over the columns that updates a single cell at a time.
 */
module Loops {
  import opened Hypotheses
  import opened Elimination

  /** The column loop for a positive row: each cell of `specific` where the
      row differs becomes the wildcard, one cell at a time. */
  method GeneralizeLoop(s: Vector, row: Vector) returns (specific: Vector)
    requires |row| == |s|
    ensures specific == Generalize(s, row)
  {
    specific := s;
    var j := 0;
    while j < |s|
      invariant 0 <= j <= |s| && |specific| == |s|
      invariant forall k :: 0 <= k < j ==> specific[k] == Generalize(s, row)[k]
      invariant forall k :: j <= k < |s| ==> specific[k] == s[k]
    {
      if row[j] != specific[j] {
        specific := specific[j := Wildcard];
      }
      j := j + 1;
    }
  }

  /** The column loop for a negative row: diagonal cell j is written with
      `specific[j]` or the wildcard, one cell at a time. */
  method SpecializeLoop(g: seq<Vector>, specific: Vector, row: Vector) returns (general: seq<Vector>)
    requires IsMatrix(g, |specific|) && |row| == |specific|
    ensures general == Specialize(g, specific, row)
  {
    var m := |specific|;
    general := g;
    var j := 0;
    while j < m
      invariant 0 <= j <= m && IsMatrix(general, m)
      invariant forall a, b :: 0 <= a < m && 0 <= b < m && (a != b || j <= a) ==>
        general[a][b] == g[a][b]
      invariant forall a :: 0 <= a < j ==>
        general[a][a] == (if row[a] != specific[a] then specific[a] else Wildcard)
    {
      if row[j] != specific[j] {
        general := general[j := general[j][j := specific[j]]];
      } else {
        general := general[j := general[j][j := Wildcard]];
      }
      j := j + 1;
    }
    var expected := Specialize(g, specific, row);
    forall a | 0 <= a < m
      ensures general[a] == expected[a]
    {
      assert forall b :: 0 <= b < m ==> general[a][b] == expected[a][b];
    }
  }

  /** `candidate_elimination` with explicit cell-by-cell updates. It returns
      exactly what the functional fold returns. */
  method CandidateEliminationLoops(rows: seq<Vector>, t: nat) returns (specific: Vector, general: seq<Vector>)
    requires IsInput(rows, t)
    ensures State(specific, general) == CandidateElimination(rows, t)
  {
    specific := rows[0];
    general := AllWildcard(|specific|);
    var i := 0;
    while i < |rows|
      invariant 0 <= i <= |rows|
      invariant State(specific, general) == Run(Initial(rows[0]), rows[..i], t)
    {
      var row := rows[i];
      if row[t] == PositiveLabel {
        specific := GeneralizeLoop(specific, row);
      } else {
        general := SpecializeLoop(general, specific, row);
      }
      assert rows[..i + 1][..i] == rows[..i];
      i := i + 1;
    }
    assert rows[..|rows|] == rows;
  }
}
