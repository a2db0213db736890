/**
  What the candidate-elimination pass computes, stated without the row loop:
  a closed form for the specific hypothesis, a "last negative row wins" form
  for the general matrix, and the guarantees that follow from them.
 */
module Properties {
  import opened Hypotheses
  import opened Elimination

  // ---------------------------------------------------------------------
  // Reference definitions

  /** Every positive row of `rows` holds `v` at position j. */
  predicate PositivesAgree(rows: seq<Vector>, t: nat, j: nat, v: Value)
    requires forall i :: 0 <= i < |rows| ==> t < |rows[i]| && j < |rows[i]|
  {
    forall i :: 0 <= i < |rows| && IsPositive(rows[i], t) ==> rows[i][j] == v
  }

  /** The specific hypothesis after visiting `rows` from `seed`, without a
      loop: a position keeps its seed value while every positive row agrees
      with it there, and is the wildcard otherwise. */
  function SpecificReference(seed: Vector, rows: seq<Vector>, t: nat): (r: Vector)
    requires IsTable(rows, |seed|) && t < |seed|
    ensures |r| == |seed|
  {
    seq(|seed|, j requires 0 <= j < |seed| =>
      if PositivesAgree(rows, t, j, seed[j]) then seed[j] else Wildcard)
  }

  /** The general matrix after the whole table, without a loop: all
      wildcards when no row is negative, otherwise the diagonal written by
      the last negative row against the specific hypothesis of that moment. */
  function GeneralReference(rows: seq<Vector>, t: nat): (g: seq<Vector>)
    requires IsInput(rows, t)
    ensures IsMatrix(g, |rows[0]|)
  {
    var m := |rows[0]|;
    match LastNegative(rows, t)
    case None => AllWildcard(m)
    case Some(k) => Specialize(AllWildcard(m), SpecificReference(rows[0], rows[..k], t), rows[k])
  }

  /** The outcome of the pass, without a loop. */
  function Reference(rows: seq<Vector>, t: nat): (r: State)
    requires IsInput(rows, t)
    ensures Shaped(r) && |r.specific| == |rows[0]|
  {
    State(SpecificReference(rows[0], rows, t), GeneralReference(rows, t))
  }

  /** The specific hypothesis after the first k rows. */
  function SpecificAfter(rows: seq<Vector>, t: nat, k: nat): (s: Vector)
    requires IsInput(rows, t) && k <= |rows|
    ensures |s| == |rows[0]|
  {
    Run(Initial(rows[0]), rows[..k], t).specific
  }

  // ---------------------------------------------------------------------
  // One step

  /** The positive step is the least generalization of the specific
      hypothesis that accepts the row: every hypothesis at least as general
      as the old one that accepts the row is at least as general as the
      result. */
  lemma GeneralizeIsLeast(s: Vector, x: Vector, h: Vector)
    requires |x| == |s| && |h| == |s|
    requires Covers(h, s) && Covers(h, x)
    ensures Covers(h, Generalize(s, x))
  {
    var r := Generalize(s, x);
    forall j | 0 <= j < |s|
      ensures h[j] == Wildcard || h[j] == r[j]
    {
      if x[j] != s[j] {
        assert h[j] == Wildcard;
      }
    }
  }

  /** A wildcard position of the specific hypothesis stays a wildcard
      through a positive step. */
  lemma GeneralizeKeepsWildcards(s: Vector, x: Vector, j: nat)
    requires |x| == |s| && j < |s| && s[j] == Wildcard
    ensures Generalize(s, x)[j] == Wildcard
  {
  }

  /** After a negative step, general row j still accepts the negative row
      exactly when its diagonal cell is the wildcard: a constrained row is a
      discriminator that excludes that example through column j alone. */
  lemma SpecializedRowsRejectNegative(g: seq<Vector>, s: Vector, x: Vector, j: nat)
    requires IsMatrix(g, |s|) && |x| == |s| && OffDiagonalWildcard(g) && j < |s|
    ensures Covers(Specialize(g, s, x)[j], x) <==> Specialize(g, s, x)[j][j] == Wildcard
  {
    var r := Specialize(g, s, x);
    if r[j][j] != Wildcard {
      assert r[j][j] != x[j];
    } else {
      forall i | 0 <= i < |s|
        ensures r[j][i] == Wildcard
      {
        if i != j {
          assert r[j][i] == g[j][i];
        }
      }
    }
  }

  /** A negative step overwrites the whole diagonal, so what the matrix held
      before matters only off the diagonal. */
  lemma SpecializeForgetsDiagonal(g: seq<Vector>, s: Vector, x: Vector)
    requires IsMatrix(g, |s|) && |x| == |s| && OffDiagonalWildcard(g)
    ensures Specialize(g, s, x) == Specialize(AllWildcard(|s|), s, x)
  {
    var a := Specialize(g, s, x);
    var b := Specialize(AllWildcard(|s|), s, x);
    forall i | 0 <= i < |s|
      ensures a[i] == b[i]
    {
      forall j | 0 <= j < |s|
        ensures a[i][j] == b[i][j]
      {
      }
    }
  }

  /** The row loop also visits the first row; since the specific hypothesis
      is a copy of it, that visit changes nothing, whatever its label. */
  lemma FirstRowNoOp(first: Vector, t: nat)
    requires t < |first|
    ensures Step(Initial(first), first, t) == Initial(first)
  {
    var st := Initial(first);
    if IsPositive(first, t) {
      assert Generalize(first, first) == first;
    } else {
      var g := Specialize(st.general, first, first);
      forall i | 0 <= i < |first|
        ensures g[i] == st.general[i]
      {
      }
    }
  }

  // ---------------------------------------------------------------------
  // Folding

  /** Visiting `xs` and then `ys` is visiting `xs + ys`. */
  lemma {:induction false} RunAppend(st: State, xs: seq<Vector>, ys: seq<Vector>, t: nat)
    requires Shaped(st) && t < |st.specific|
    requires IsTable(xs, |st.specific|) && IsTable(ys, |st.specific|)
    ensures IsTable(xs + ys, |st.specific|)
    ensures Run(st, xs + ys, t) == Run(Run(st, xs, t), ys, t)
    decreases |ys|
  {
    if |ys| == 0 {
      assert xs + ys == xs;
    } else {
      var n := |ys| - 1;
      assert (xs + ys)[..|xs + ys| - 1] == xs + ys[..n];
      RunAppend(st, xs, ys[..n], t);
    }
  }

  /** Positive rows never touch the general matrix. */
  lemma {:induction false} GeneralStableUnderPositives(st: State, rows: seq<Vector>, t: nat)
    requires Shaped(st) && IsTable(rows, |st.specific|) && t < |st.specific|
    requires forall i :: 0 <= i < |rows| ==> IsPositive(rows[i], t)
    ensures Run(st, rows, t).general == st.general
    decreases |rows|
  {
    if |rows| > 0 {
      GeneralStableUnderPositives(st, rows[..|rows| - 1], t);
    }
  }

  /** Agreement over a table splits into agreement over all rows but the
      last, and the last row's own agreement. */
  lemma PositivesAgreeLast(rows: seq<Vector>, t: nat, j: nat, v: Value)
    requires |rows| > 0
    requires forall i :: 0 <= i < |rows| ==> t < |rows[i]| && j < |rows[i]|
    ensures PositivesAgree(rows, t, j, v) <==>
      PositivesAgree(rows[..|rows| - 1], t, j, v) &&
      (IsPositive(rows[|rows| - 1], t) ==> rows[|rows| - 1][j] == v)
  {
    var p := rows[..|rows| - 1];
    assert forall i :: 0 <= i < |p| ==> p[i] == rows[i];
  }

  /** The specific hypothesis produced by the loop is the closed form. */
  lemma {:induction false} RunSpecific(st: State, rows: seq<Vector>, t: nat)
    requires Shaped(st) && IsTable(rows, |st.specific|) && t < |st.specific|
    ensures Run(st, rows, t).specific == SpecificReference(st.specific, rows, t)
    decreases |rows|
  {
    if |rows| > 0 {
      var n := |rows| - 1;
      var p := rows[..n];
      var s := st.specific;
      RunSpecific(st, p, t);
      var after := Run(st, rows, t).specific;
      var expected := SpecificReference(s, rows, t);
      forall j | 0 <= j < |s|
        ensures after[j] == expected[j]
      {
        PositivesAgreeLast(rows, t, j, s[j]);
      }
    }
  }

  /** The general matrix produced by the loop is the one the last negative
      row wrote; rows before it matter only through the specific hypothesis
      they left behind. */
  lemma {:induction false} RunGeneral(st: State, rows: seq<Vector>, t: nat)
    requires Shaped(st) && IsTable(rows, |st.specific|) && t < |st.specific|
    requires OffDiagonalWildcard(st.general)
    ensures Run(st, rows, t).general ==
      match LastNegative(rows, t)
      case None => st.general
      case Some(k) =>
        Specialize(AllWildcard(|st.specific|), Run(st, rows[..k], t).specific, rows[k])
    decreases |rows|
  {
    if |rows| > 0 {
      var n := |rows| - 1;
      var p := rows[..n];
      var x := rows[n];
      RunGeneral(st, p, t);
      var before := Run(st, p, t);
      if IsPositive(x, t) {
        match LastNegative(p, t)
        case None =>
        case Some(k) =>
          assert p[..k] == rows[..k];
      } else {
        assert rows[..n] == p;
        SpecializeForgetsDiagonal(before.general, before.specific, x);
      }
    }
  }

  // ---------------------------------------------------------------------
  // The whole pass

  /** The pass computes the loop-free reference. */
  lemma CandidateEliminationIsReference(rows: seq<Vector>, t: nat)
    requires IsInput(rows, t)
    ensures CandidateElimination(rows, t) == Reference(rows, t)
  {
    var st := Initial(rows[0]);
    RunSpecific(st, rows, t);
    RunGeneral(st, rows, t);
    match LastNegative(rows, t)
    case None =>
    case Some(k) =>
      RunSpecific(st, rows[..k], t);
  }

  /** Seed provenance: each final specific cell is the first row's value or
      the wildcard; a concrete cell is shared by every positive row; and a
      cell is concrete whenever every positive row shares the first row's
      value there. */
  lemma SpecificSeedProvenance(rows: seq<Vector>, t: nat)
    requires IsInput(rows, t)
    ensures var s := CandidateElimination(rows, t).specific;
      && (forall j :: 0 <= j < |s| ==> s[j] == rows[0][j] || s[j] == Wildcard)
      && (forall i, j :: 0 <= i < |rows| && 0 <= j < |s| && IsPositive(rows[i], t) && s[j] != Wildcard
            ==> rows[i][j] == s[j])
      && (forall j :: 0 <= j < |s| && PositivesAgree(rows, t, j, rows[0][j]) ==> s[j] == rows[0][j])
  {
    CandidateEliminationIsReference(rows, t);
  }

  /** The final specific hypothesis accepts the first row and every positive
      row. */
  lemma SpecificCoversPositives(rows: seq<Vector>, t: nat, i: nat)
    requires IsInput(rows, t) && i < |rows|
    requires i == 0 || IsPositive(rows[i], t)
    ensures Covers(CandidateElimination(rows, t).specific, rows[i])
  {
    CandidateEliminationIsReference(rows, t);
  }

  /** ... and it is the least such hypothesis: any hypothesis accepting the
      first row and every positive row is at least as general. */
  lemma SpecificIsLeast(rows: seq<Vector>, t: nat, h: Vector)
    requires IsInput(rows, t) && |h| == |rows[0]|
    requires Covers(h, rows[0])
    requires forall i :: 0 <= i < |rows| && IsPositive(rows[i], t) ==> Covers(h, rows[i])
    ensures Covers(h, CandidateElimination(rows, t).specific)
  {
    CandidateEliminationIsReference(rows, t);
    var s := CandidateElimination(rows, t).specific;
    forall j | 0 <= j < |h|
      ensures h[j] == Wildcard || h[j] == s[j]
    {
      if !PositivesAgree(rows, t, j, rows[0][j]) {
        var i :| 0 <= i < |rows| && IsPositive(rows[i], t) && rows[i][j] != rows[0][j];
        assert Covers(h, rows[i]);
      }
    }
  }

  /** If no positive row differs from the first
      row, the specific hypothesis is the first row exactly. */
  lemma SeedKept(rows: seq<Vector>, t: nat)
    requires IsInput(rows, t)
    requires forall i :: 0 <= i < |rows| && IsPositive(rows[i], t) ==> rows[i] == rows[0]
    ensures CandidateElimination(rows, t).specific == rows[0]
  {
    CandidateEliminationIsReference(rows, t);
  }

  /** Once a position of the specific hypothesis is the wildcard it stays
      the wildcard: later hypotheses are at least as general as earlier ones. */
  lemma SpecificMonotone(rows: seq<Vector>, t: nat, k1: nat, k2: nat)
    requires IsInput(rows, t) && k1 <= k2 <= |rows|
    ensures Covers(SpecificAfter(rows, t, k2), SpecificAfter(rows, t, k1))
    ensures forall j :: 0 <= j < |rows[0]| && SpecificAfter(rows, t, k1)[j] == Wildcard ==>
      SpecificAfter(rows, t, k2)[j] == Wildcard
  {
    var st := Initial(rows[0]);
    assert rows[..k2] == rows[..k1] + rows[k1..k2];
    RunAppend(st, rows[..k1], rows[k1..k2], t);
  }

  /** Only the diagonal is ever written: after any number of rows every cell
      off the diagonal is the wildcard. */
  lemma OffDiagonalAfterAnyPrefix(rows: seq<Vector>, t: nat, k: nat)
    requires IsInput(rows, t) && k <= |rows|
    ensures var g := Run(Initial(rows[0]), rows[..k], t).general;
      forall i, j :: 0 <= i < |rows[0]| && 0 <= j < |rows[0]| && i != j ==> g[i][j] == Wildcard
  {
  }

  /** Diagonal provenance: a diagonal cell is the wildcard or the first row's
      value, since it is only ever copied from the specific hypothesis; and a
      concrete diagonal cell differs from the last negative row there. */
  lemma DiagonalProvenance(rows: seq<Vector>, t: nat)
    requires IsInput(rows, t)
    ensures var g := CandidateElimination(rows, t).general;
      && (forall j :: 0 <= j < |rows[0]| ==> g[j][j] == Wildcard || g[j][j] == rows[0][j])
      && (forall j :: 0 <= j < |rows[0]| && g[j][j] != Wildcard ==>
            LastNegative(rows, t).Some? && rows[LastNegative(rows, t).value][j] != g[j][j])
  {
    CandidateEliminationIsReference(rows, t);
  }

  /** Without a negative row the general matrix stays all wildcards. */
  lemma NoNegatives(rows: seq<Vector>, t: nat)
    requires IsInput(rows, t)
    requires forall i :: 0 <= i < |rows| ==> IsPositive(rows[i], t)
    ensures CandidateElimination(rows, t).general == AllWildcard(|rows[0]|)
    ensures var s := CandidateElimination(rows, t).specific;
      forall j :: 0 <= j < |rows[0]| ==>
        s[j] == (if forall i :: 0 <= i < |rows| ==> rows[i][j] == rows[0][j] then rows[0][j] else Wildcard)
  {
    GeneralStableUnderPositives(Initial(rows[0]), rows, t);
    CandidateEliminationIsReference(rows, t);
  }

  /** Last write wins: with k the last negative row, the final general
      matrix is what row k wrote against the specific hypothesis left by the
      rows before it; the rows after k change only the specific hypothesis. */
  lemma LastWriteWins(rows: seq<Vector>, t: nat, k: nat)
    requires IsInput(rows, t) && k < |rows|
    requires !IsPositive(rows[k], t)
    requires forall i :: k < i < |rows| ==> IsPositive(rows[i], t)
    ensures CandidateElimination(rows, t).general == Run(Initial(rows[0]), rows[..k + 1], t).general
    ensures CandidateElimination(rows, t).general ==
      Specialize(AllWildcard(|rows[0]|), SpecificAfter(rows, t, k), rows[k])
  {
    var st := Initial(rows[0]);
    var front := rows[..k + 1];
    var back := rows[k + 1..];
    assert rows == front + back;
    RunAppend(st, front, back, t);
    var mid := Run(st, front, t);
    assert forall i :: 0 <= i < |back| ==> back[i] == rows[k + 1 + i];
    GeneralStableUnderPositives(mid, back, t);
    assert front[..k] == rows[..k];
    var before := Run(st, rows[..k], t);
    assert mid == Step(before, rows[k], t);
    SpecializeForgetsDiagonal(before.general, before.specific, rows[k]);
  }

  /** The target column takes part like any other. When the first row is
      positive, the specific hypothesis keeps the positive label there and
      any negative row makes the target's diagonal cell the positive label.
      When the first row is negative, any positive row wildcards it. */
  lemma TargetColumnParticipates(rows: seq<Vector>, t: nat)
    requires IsInput(rows, t)
    ensures var r := CandidateElimination(rows, t);
      && (IsPositive(rows[0], t) ==> r.specific[t] == PositiveLabel)
      && (IsPositive(rows[0], t) && LastNegative(rows, t).Some? ==> r.general[t][t] == PositiveLabel)
      && (!IsPositive(rows[0], t) && (exists i :: 0 <= i < |rows| && IsPositive(rows[i], t)) ==>
            r.specific[t] == Wildcard)
  {
    CandidateEliminationIsReference(rows, t);
    match LastNegative(rows, t)
    case None =>
    case Some(k) =>
      if IsPositive(rows[0], t) {
        assert PositivesAgree(rows[..k], t, t, rows[0][t]);
        assert SpecificReference(rows[0], rows[..k], t)[t] == PositiveLabel;
      }
  }

  /** On (Sunny, Hot, Yes), (Sunny, Cold, No) with target column 2, the
      matrix is 3-by-3 and its target diagonal cell holds the positive
      label. */
  lemma ConcreteScenario()
    ensures CandidateElimination([["Sunny", "Hot", "Yes"], ["Sunny", "Cold", "No"]], 2)
      == State(["Sunny", "Hot", "Yes"], [["?", "?", "?"], ["?", "Hot", "?"], ["?", "?", "Yes"]])
  {
    var rows := [["Sunny", "Hot", "Yes"], ["Sunny", "Cold", "No"]];
    CandidateEliminationIsReference(rows, 2);
    assert LastNegative(rows, 2) == Some(1);
    assert rows[..1] == [rows[0]];
    assert PositivesAgree(rows, 2, 1, "Hot");
    assert SpecificReference(rows[0], rows[..1], 2) == rows[0];
    assert SpecificReference(rows[0], rows, 2) == rows[0];
    var g := Specialize(AllWildcard(3), rows[0], rows[1]);
    assert g[0] == ["?", "?", "?"];
    assert g[1] == ["?", "Hot", "?"];
    assert g[2] == ["?", "?", "Yes"];
  }
}
