# Candidate elimination, modelled in Dafny

This project models `candidate_elimination` from `main.py`. The function takes a
table of categorical examples and the name of a target column. It returns two
things:

- a *specific hypothesis*: one cell per column;
- a *general hypothesis* matrix: m rows of m cells, where m is the number of columns.

The specific hypothesis is seeded with the first row, whatever that row's label.
The general matrix starts as all wildcards `"?"`. Every row is then visited in
table order, the first row included:

- On a **positive** row (its target cell is exactly `"Yes"`), each position
  where the row differs from the specific hypothesis becomes `"?"`.
- On a **negative** row, diagonal cell `general[j][j]` becomes the current
  `specific[j]` where the row differs from it at `j`, and `"?"` where it does
  not. No other cell is written.

The code iterates over *every* column of the table. The target column is
therefore part of both hypotheses, and the matrix is m-by-m with m counting the
target; on two rows of three columns `Properties.ConcreteScenario` proves a
3-by-3 matrix. The source has no error handling of its own. What it relies on
(a first row, rows of one width, a target column inside that width) is a
precondition here (`IsInput`).

Modules:

- `Hypotheses` (`hypotheses.dfy`): cells, vectors, the wildcard and the positive
  label, the `State` of the pass, and `Covers`. `Covers(h, x)` says that `h`
  accepts `x` at every position; on two hypotheses it means "at least as general".
- `Elimination` (`elimination.dfy`): the positive step `Generalize`, the
  negative step `Specialize`, one loop iteration `Step`, the fold `Run`, and
  `CandidateElimination` itself.
- `Properties` (`properties.dfy`): a loop-free reference for the outcome
  (`Reference`), the proof that the pass computes it, and the guarantees that
  follow.
- `Loops` (`loops.dfy`): the nested loops as written in `main.py`, updating one
  cell at a time, proved equal to the fold.

## Model

| member | source | states |
|---|---|---|
| `Elimination.Initial` | main.py:17-18 | The starting specific hypothesis is the first row. The starting general matrix is square, one row and column per column of the table, with every cell the wildcard. |
| `Elimination.Generalize` | main.py:22-25 | The positive step's result accepts both the old hypothesis and the row. It keeps every position where they agree. It is the wildcard exactly where they disagree or where the old hypothesis already was the wildcard. |
| `Elimination.Specialize` | main.py:27-32 | The negative step leaves every off-diagonal cell unchanged. A diagonal cell ends up concrete exactly when the row differs from a concrete specific value there, and then it holds that specific value. |
| `Elimination.Step` | main.py:20-32 | A positive row leaves the general matrix untouched and makes the specific hypothesis accept the row. A negative row leaves the specific hypothesis untouched. Shape and off-diagonal wildcards are preserved. |
| `Elimination.Run` | main.py:20-32 | After any number of rows the shapes are intact. Off-diagonal cells are still wildcards. The specific hypothesis is at least as general as where it started. |
| `Elimination.CandidateElimination` | main.py:4-34 | Over a whole table, the specific vector has one cell per column, target included. The general value is an m-by-m matrix whose off-diagonal cells are all wildcards. The specific hypothesis accepts the first row. |
| `Properties.GeneralizeIsLeast` | main.py:22-25 | The positive step is the least generalization accepting the row. Any hypothesis at least as general as the old one that accepts the row is at least as general as the result. |
| `Properties.GeneralizeKeepsWildcards` | main.py:23-25 | A wildcard position of the specific hypothesis stays a wildcard through a positive row. |
| `Properties.SpecializedRowsRejectNegative` | main.py:27-32 | After a negative row, general row j still accepts that row if and only if its diagonal cell is the wildcard. |
| `Properties.SpecializeForgetsDiagonal` | main.py:28-32 | A negative row overwrites the whole diagonal. Given wildcards off the diagonal, the matrix that was there before makes no difference. |
| `Properties.FirstRowNoOp` | main.py:17-32 | The loop's visit to the first row changes nothing, whether that row is positive or negative. |
| `Properties.RunAppend` | main.py:20 | Visiting rows `xs` and then rows `ys` gives the same state as visiting `xs + ys`. |
| `Properties.GeneralStableUnderPositives` | main.py:20-25 | A run of positive rows never changes the general matrix. |
| `Properties.RunSpecific` | main.py:17-25 | From any start, the loop's specific hypothesis has a closed form. Position j keeps its starting value if every positive row agrees with it there, and is the wildcard otherwise. |
| `Properties.RunGeneral` | main.py:20-32 | From any start with wildcards off the diagonal, the loop's general matrix has a closed form. With no negative row it is unchanged. Otherwise it is what the last negative row k wrote against the specific hypothesis left by rows before k. |
| `Properties.CandidateEliminationIsReference` | main.py:4-34 | The pass's result equals the loop-free `Reference`: the specific closed form over the table, and the general matrix from the last negative row. |
| `Properties.SpecificSeedProvenance` | main.py:17-25 | Each final specific cell is the first row's value or the wildcard. A concrete cell equals the value of every positive row there. A cell keeps the first row's value whenever all positive rows share that value. |
| `Properties.SpecificCoversPositives` | main.py:17-25 | The final specific hypothesis accepts the first row and every positive row. |
| `Properties.SpecificIsLeast` | main.py:17-25 | Any hypothesis that accepts the first row and every positive row is at least as general as the final specific hypothesis. |
| `Properties.SeedKept` | main.py:17-25 | If no positive row differs from the first row, the final specific hypothesis is the first row exactly. |
| `Properties.SpecificMonotone` | main.py:22-25 | After more rows the specific hypothesis is at least as general as after fewer. In particular a wildcard position never turns concrete again. |
| `Properties.OffDiagonalAfterAnyPrefix` | main.py:18-32 | After any prefix of the table, every off-diagonal cell of the general matrix is the wildcard. |
| `Properties.DiagonalProvenance` | main.py:17-32 | Each final diagonal cell is the wildcard or the first row's value. A concrete one differs from the last negative row at that position. |
| `Properties.NoNegatives` | main.py:18-27 | If every row is positive, the general matrix stays all wildcards. Specific position j is the first row's value if all rows share it, and the wildcard otherwise. |
| `Properties.LastWriteWins` | main.py:20-32 | Let row k be the last negative row. The final general matrix is the one after row k. It is row k's diagonal write against the specific hypothesis of the first k rows. Rows after k change only the specific hypothesis. |
| `Properties.TargetColumnParticipates` | main.py:17-32 | The target column is treated like any other. If the first row is positive, specific keeps `"Yes"` at the target, and any negative row makes the target's diagonal cell `"Yes"`. If the first row is negative and some row is positive, specific is the wildcard there. |
| `Properties.ConcreteScenario` | main.py:4-34 | On rows (Sunny, Hot, Yes) and (Sunny, Cold, No) with the third column as target, specific is (Sunny, Hot, Yes). The general matrix is 3-by-3 with `Hot` and `Yes` on the last two diagonal cells and wildcards elsewhere. |
| `Loops.GeneralizeLoop` | main.py:23-25 | The positive row's column loop updates one cell at a time and ends with exactly the positive step's result. |
| `Loops.SpecializeLoop` | main.py:28-32 | The negative row's column loop writes one diagonal cell at a time and ends with exactly the negative step's matrix. |
| `Loops.CandidateEliminationLoops` | main.py:17-34 | The nested loops of `main.py` update one cell at a time. They return exactly the specific vector and general matrix of the functional pass. |

## Left out

- `main()` (`main.py:36-64`): the Streamlit page, file upload, column select box, button and result display. This is user interface and I/O.
- CSV parsing and the defensive copy of the table (`main.py:47`, `main.py:54`). These are calls into the table library. The model takes the table as already-parsed rows of text cells of one width.
- The target column is given by its position `t` rather than its name. Turning a column name into a position is done by the table library.
- Cell equality is plain string equality. The table library's own comparisons are not modelled: missing values that compare unequal to themselves, numeric cells, and mixed types.
- Empty table and unknown target column: the source does not check for these and fails inside the table library. They are preconditions here, not error results.
- Uniform row width is a precondition here; it always holds for the source's input, since a data frame is rectangular by construction.
- Determinism is not stated as a lemma: every member is a mathematical function, so equal inputs give equal outputs by construction.
