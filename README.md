# Gomory cutting-plane solver, modelled in Dafny

This project models the `Gomory` class of `Gomory.hpp`. It is an integer linear
programming solver over exact rationals. It works on one simplex tableau.
Its constructor does all the work:

1. It builds the tableau from the objective coefficients, the constraint rows and
   their signs. Each row gets one slack column, and every `GREATER_OR_EQUAL` row
   is negated.
2. It runs a dual-simplex-like phase that removes negative right-hand sides (RHS).
   This phase reports "no solution" when a row with a negative RHS has no negative
   entry.
3. It runs the primal simplex loop on the reduced costs (deltas).
4. It appends a Gomory-style cut row built from the row with the largest
   fractional RHS, then jumps back to step 2.
5. When no RHS is a cut candidate, it reads the solution off the basis. A negative
   fractional RHS is never a candidate, so one may remain at that point.

`Transform` is the Gauss–Jordan pivot. `GetCost` gives the objective coefficient
at an index below the number of coefficients, and 0 at every other index, which
covers every slack column. A cut's basis entry `GRID_ROWS + 1` may still be below
that number, and then it is priced at that structural column's coefficient.

The model has four modules:

- `Rational` (rational.dfy): exact arithmetic. A `boost::rational<int64_t>` is a
  Dafny `real`. It defines truncation toward zero (`rational_cast<int64_t>`), the
  fractional parts, inner products and row residuals.
- `Tableau` (tableau.dfy): the tableau as a value, with the rules the solver
  follows:
  - the initial layout and basis;
  - the pivot and reduced costs;
  - each phase's selection rules, with ties going to the first candidate;
  - the cut row and the solution read off the basis.
  
  The lemmas prove what these rules guarantee, for example:
  - a pivot keeps the solution set and canonical form;
  - the ratio test keeps every RHS non-negative;
  - an infeasible row rules out every non-negative solution;
  - in canonical form with no negative reduced cost, no non-negative solution has
    a larger objective than the values read off the basis;
  - the values read off a final tableau are non-negative integers that meet every
    constraint.
- `Scans` (scans.dfy): the solver's loops that build the tableau or only read it.
  Each loop is a method proved against the Tableau rule it implements.
- `Solver` (gomory.dfy): class `Gomory`. Its fields are the source's fields, less the unused
  `theta_column`, plus a `status` field. The source has no such field. `status`
  stands for how the source stops: the `return` on an infeasible row
  (`Gomory.hpp:124`), or falling past the `goto` when no cut is added
  (`Gomory.hpp:199-213`). Its
  constructor and its step methods update the tableau in place. The jump back from
  the cut step becomes the outer loop of `Solve`. The object invariant `Valid`
  holds throughout:
  - every solution of the current tableau solves the initial one;
  - until a cut is added, the converse also holds, and the tableau is canonical
    for its basis.

Where the code and the informal description of the algorithm differ, the model
follows the code:

- Cut candidates: a RHS qualifies when it is neither 0 nor 1 and its fractional
  part under truncation toward zero is positive. So a negative fractional RHS
  never triggers a cut (`Gomory.hpp:190-192`).
- Ratio test with no positive entry: the source does not report "unbounded". It
  pivots on row 0, which the row index starts at. The model does the same. If
  that entry is 0, the source divides by zero and boost throws; the model stops
  with status `ZeroPivot` (`Gomory.hpp:160-174`).
- Cut basis entry: a new cut row's basis entry is `GRID_ROWS + 1`, computed after
  the row count is incremented. No slack column is added for the cut variable
  (`Gomory.hpp:202-208`).

The cut row is listed under Findings. Each entry is minus the entry's part left
over after truncation toward zero (`Gomory.hpp:207`), so a negative entry gets a
positive cut coefficient. The solver appends that row, `Tableau.CutRow`, as the
code does, and a lemma shows an integer point it excludes. The floor-based
fractional cut, `Tableau.FloorCutRow`, is defined beside it, and its validity is
proved. The solver does not use it.

## Model

| member | source | states |
|---|---|---|
| Tableau.Cost | Gomory.hpp:262-272 | `GetCost` as a function; its partner `Tableau.CostSumIsObjective` proves that pricing every column with it gives the objective on the structural values |
| Tableau.CostSumIsObjective | Gomory.hpp:262-272 | pricing every column with `GetCost` gives the objective on the structural values: the columns past the coefficients add nothing |
| Tableau.InitialBasis | Gomory.hpp:26-30 | one basis entry per constraint row, and row i's basic variable is its own slack column n + i |
| Scans.BuildBasis | Gomory.hpp:26-30 | the basis-building loop yields exactly the initial basis |
| Scans.BuildGrid | Gomory.hpp:43-80 | the four build passes yield an m × (n + m + 1) tableau: oriented coefficients, +1 in the row's own slack column, 0 in the other slack columns, and the oriented RHS; a `GREATER_OR_EQUAL` row is negated as a whole |
| Tableau.InitialTableauIsCanonical | Gomory.hpp:49-80 | the built tableau is in canonical form for the slack basis: each row's slack column is a unit column for that row |
| Tableau.InitialSolutionMeetsConstraints | Gomory.hpp:49-80 | any non-negative solution of the initial tableau meets every input constraint with its structural values: `>=` for `GREATER_OR_EQUAL`, `<=` for every other sign |
| Tableau.ConstraintsGiveInitialSolution | Gomory.hpp:49-80 | conversely, non-negative values meeting every constraint, extended with their slacks, form a non-negative solution of the initial tableau |
| Tableau.Pivot | Gomory.hpp:274-296 | after the pivot, entry (r, c) is 1 and every other entry of column c is 0; the old pivot row is the pivot times the new one; every other row loses its column-c entry over the pivot, times the pivot row |
| Solver.Gomory.Transform | Gomory.hpp:274-296 | the entry-by-entry transform replaces the grid with exactly the pivoted tableau, keeping its shape |
| Tableau.PivotPreservesSolutions | Gomory.hpp:274-296 | a vector solves the row equations before a pivot if and only if it solves them after |
| Tableau.PivotKeepsCanonical | Gomory.hpp:173-174 | pivoting on a nonzero non-RHS entry and making its column basic in the pivot row keeps the tableau canonical |
| Solver.Gomory.PivotAndEnter | Gomory.hpp:116-117 | the grid becomes the pivoted tableau, the row's basis entry becomes the pivot column, and the object invariant is kept |
| Scans.FirstMinimum | Gomory.hpp:93-102 | the scan returns the first position of the least RHS |
| Scans.FirstNegativeColumn | Gomory.hpp:110-119 | the scan finds the first negative non-RHS entry of the row, or reports that every such entry is non-negative |
| Solver.Gomory.RemoveNegativeBStep | Gomory.hpp:93-125 | one removal iteration does one of three things: it reports every RHS non-negative and changes nothing; it reports the first least RHS row as infeasible (negative RHS, no negative entry) and changes nothing; or it pivots on that row's first negative entry, which leaves that RHS positive |
| Solver.Gomory.RemoveNegativeB | Gomory.hpp:85-130 | the removal loop ends with every RHS non-negative, or with status Infeasible backed by an infeasible row, or out of fuel; it keeps the object invariant |
| Tableau.InfeasibleRowHasNoSolution | Gomory.hpp:121-125 | a tableau holding a row with a negative RHS and no negative coefficient has no non-negative solution |
| Tableau.InfeasibleRowRulesOutConstraints | Gomory.hpp:121-125 | if the tableau keeps every solution of the initial one and holds such a row, then no non-negative values meet all input constraints |
| Scans.EnteringColumn | Gomory.hpp:137-154 | the delta scan returns the first column with the least reduced cost, and that reduced cost |
| Tableau.ReducedCost | Gomory.hpp:141-146 | `delta_j` as a function: the basis costs times column j, less column j's cost. Its partners: `Tableau.BasicColumnHasZeroReducedCost` (0 on every basic column) and `Tableau.ObjectiveThroughReducedCosts` (the objective identity) |
| Tableau.BasicColumnHasZeroReducedCost | Gomory.hpp:137-154 | in canonical form every basic column has reduced cost 0 |
| Tableau.ObjectiveThroughReducedCosts | Gomory.hpp:137-154 | for every solution of the tableau, the priced objective equals the basis costs times the RHS, less the reduced costs weighted by the solution |
| Tableau.CanonicalOptimality | Gomory.hpp:158-181 | in canonical form with no negative reduced cost, the stopping test of the simplex loop, no non-negative solution has a larger priced objective than the values read off the basis |
| Tableau.OptimumMaximizesObjective | Gomory.hpp:213-229 | if such a tableau keeps every solution of the initial one, no non-negative values meeting every input constraint have a larger objective than the values read off the basis |
| Scans.MinRatioRow | Gomory.hpp:160-171 | the ratio test finds the first row with the least RHS-to-entry ratio among rows with a positive entry; when no row has one, it keeps row 0 |
| Tableau.RatioTestKeepsRhsNonNegative | Gomory.hpp:160-174 | pivoting on the row the ratio test picks keeps every RHS non-negative |
| Solver.Gomory.PivotOnRatioRow | Gomory.hpp:173-174 | the pivot on the selected row leaves exactly the pivoted tableau and basis, keeps every RHS non-negative when the row passed the ratio test, and leaves the entering column's reduced cost 0 while canonical |
| Solver.Gomory.RatioTestAndPivot | Gomory.hpp:160-174 | either it pivots on the ratio-test row, or on the row-0 fallback when no entry is positive, after which the entering column's reduced cost is 0 while canonical; or it reports that no pivot row exists and changes nothing |
| Solver.Gomory.SimplexStep | Gomory.hpp:137-183 | one simplex iteration either reports every reduced cost non-negative and changes nothing, or picks the first column with the least, negative reduced cost and pivots on it (or reports that no pivot row exists) |
| Solver.Gomory.RunSimplex | Gomory.hpp:132-183 | the simplex loop ends with every reduced cost non-negative, or with status ZeroPivot, or out of fuel; it keeps the object invariant |
| Rational.Trunc | Gomory.hpp:192 | `rational_cast<int64_t>` truncates toward zero: the result is the integer between 0 and x that lies within 1 of x, and it equals x exactly when x is an integer |
| Rational.FracPart | Gomory.hpp:192 | x minus its truncation has the sign of x, lies strictly within 1 of 0, is 0 exactly when x is an integer, and leaves an integer when subtracted from x |
| Tableau.NonCandidateIsIntegerOrNegative | Gomory.hpp:190-192 | a RHS that the cut scan skips is an integer or negative |
| Scans.CutSourceRow | Gomory.hpp:185-197 | the scan returns the first row with the largest fractional RHS among the candidates, or reports that no RHS is a candidate |
| Tableau.CutRow | Gomory.hpp:205-208 | the cut as written: each entry lies strictly between -1 and 1, makes the source entry an integer when added to it, is 0 exactly for integer entries, is not positive for non-negative entries and not negative for negative ones, and is strictly negative for a candidate RHS |
| Solver.Gomory.AppendCutRow | Gomory.hpp:202-208 | the grid gains exactly the truncation-based cut of the source row, the row count grows by one, and the basis gains old row count + 2 |
| Solver.Gomory.AddCut | Gomory.hpp:185-211 | either the first row with the largest fractional RHS yields its truncation-based cut, whose RHS is strictly between -1 and 0; or nothing changes and no RHS is a candidate. The object invariant is kept either way |
| Solver.Gomory.AppendCutOf | Gomory.hpp:199-208 | the cut row of the chosen source row is appended with basis entry old row count + 2, its RHS is strictly between -1 and 0, and the object invariant is kept |
| Tableau.AppendedRowNarrowsSolutions | Gomory.hpp:202-208 | every solution of the tableau with the cut row appended solves the tableau without it |
| Tableau.TruncatedCutExcludesIntegerPoint | Gomory.hpp:207 | the row x_B - 1/2 x_1 = 1/2 has the integer point x_B = 1, x_1 = 1, which violates the cut built with truncation toward zero |
| Tableau.FloorCutRow | Gomory.hpp:207 | the floor-based cut entries lie in (-1, 0], leave integers when added to the row, and agree with the truncation cut on non-negative entries |
| Tableau.FloorCutIsValid | Gomory.hpp:207 | every non-negative integer point solving a tableau row satisfies the floor-based cut derived from it |
| Tableau.CutRowIsValidForNonNegativeRow | Gomory.hpp:207 | on a row with no negative entry, the cut as written keeps every non-negative integer point of the row |
| Rational.FloorFracPart | Gomory.hpp:207 | the floor-based fractional part lies in [0, 1), leaves an integer when subtracted, and agrees with the truncation one on non-negative values |
| Tableau.FirstIndexOf | Gomory.hpp:218-219 | `std::find` on the basis returns the first position holding the column, or the end when no position does |
| Tableau.Solution | Gomory.hpp:214-229 | the extraction rule: one value per non-RHS column, the RHS of the first row whose basis entry is that column, else 0. Its partners: `Tableau.SolutionSolvesCanonicalTableau` and `Tableau.FinalSolutionIsIntegral` |
| Tableau.SolutionSolvesCanonicalTableau | Gomory.hpp:213-229 | in canonical form, the values read off the basis solve every row equation |
| Tableau.FinalSolutionIsIntegral | Gomory.hpp:213-229 | when no RHS is a cut candidate and every RHS is non-negative, every value read off the basis is a non-negative integer |
| Tableau.IntegralOptimum | Gomory.hpp:213-229 | in canonical form with non-negative, non-candidate RHS, the values read off the basis are a non-negative integer solution of the tableau |
| Tableau.OptimumMeetsConstraints | Gomory.hpp:213-229 | if such a final tableau's solutions all solve the initial tableau, its values meet every input constraint and are non-negative integers |
| Solver.Gomory.Solve | Gomory.hpp:85-211 | the loop of rounds, which the cut's jump back forms, only appends rows and keeps the object invariant. It leaves InProgress only on a terminal status: Optimal with no negative reduced cost and no candidate RHS, Infeasible with an infeasible row, or ZeroPivot with no pivot row. It stops InProgress only with all fuel spent |
| Solver.Gomory.Round | Gomory.hpp:85-211 | one pass of removal, simplex and cut step keeps the object invariant and the status facts. If it ends InProgress, either its fuel ran out or exactly one row was appended. When one row was appended, it is the cut row of a cut-source row of the tableau before it |
| Solver.Gomory.OptimizeAndCut | Gomory.hpp:132-211 | the simplex loop followed by the cut step keeps the object invariant and the status facts. If it ends InProgress, either its fuel ran out or exactly one row was appended. When one row was appended, it is the cut row of a cut-source row of the tableau before it |
| Solver.Gomory.CutOrStop | Gomory.hpp:185-211 | after the simplex loop, either the status becomes Optimal on a final tableau (no negative reduced cost, no candidate RHS) with the tableau and basis unchanged; or the status stays InProgress and the tableau gains exactly the cut row of a cut-source row, the basis gains old row count + 2, and the row count grows by one |
| Solver.Gomory.Outcome | Gomory.hpp:213-229 | an Optimal stop with non-negative RHS gives non-negative integer values, whether or not cuts were added. On a canonical tableau those values also meet every input constraint. An Optimal stop before any cut gives values whose objective no non-negative values meeting the constraints exceed. An Infeasible stop before any cut means no non-negative values meet the constraints |
| Solver.Gomory.constructor | Gomory.hpp:23-230 | the fields take the inputs, the first tableau is exactly the built one, and the object invariant and the status facts hold. Every outcome fact above holds of the input constraints, and the status is InProgress only when the fuel is spent (`fuelLeft` is 0) |

## Left out

- `Print`, the `std::cout` progress output and the printed solution are left out, because they are output only. The solution is the function `Tableau.Solution`, read off the final grid.
- `theta_column` is never used by the source, so the model does not include it.
- Overflow of the 64-bit numerators and denominators is not modelled: entries are exact unbounded rationals.
- The `numeric_limits<int64_t>::max()` sentinels of the three minimum scans are modelled as "take the first candidate". The two differ only when every candidate is at least 2^63 - 1.
- Solver.Gomory.constructor: it takes an extra `fuel` argument. Each pass from the removal phase consumes one unit up front, the last pass included, and each pivot one more; adding a cut consumes nothing. The status stays InProgress when the fuel runs out. The source loops without bound, and has no anti-cycling rule. So termination, and the number of pivots or cuts, are not modelled.
- Solver.Gomory.constructor: it accepts only rows of width n + 1 (n coefficients and the RHS) with exactly one sign per row. The source takes the width w of row 0 for every row (`Gomory.hpp:51`, `:69`). With equal widths and 1 <= w <= n + m + 2 it stays in bounds. A narrower w leaves the missing coefficients 0, and reads entry w - 1 as the RHS. A wider w runs the coefficients into the slack columns, and the slack and RHS writes overwrite only some of them. A later row narrower than row 0, an empty row 0 (the `size() - 1` wraps) or w > n + m + 2 index out of bounds. Signs past the m-th are never read. These other widths and sign counts are not modelled.
- Solver.Gomory.RatioTestAndPivot: when row 0's entry in the entering column is 0, the source divides by zero and boost throws `bad_rational`. When there are no rows, `Transform(0, e)` reads `grid[0][e]` of an empty vector and `basis[0]` is written (`Gomory.hpp:174`, `:276`), which is undefined behaviour. Nothing is divided then, because Transform's loops run zero times. The model stops instead, with status ZeroPivot.
- Solver.Gomory.Outcome: integrality of an Optimal stop's values needs only a non-negative RHS. That they meet the input constraints needs the final tableau to be canonical as well. The infeasible and objective facts hold only before any cut is added. The object invariant `Valid` does not track canonical form past a cut. A cut row's basis entry `GRID_ROWS + 1` is not a unit column for it until the removal phase pivots on that row. And a cut only narrows the solution set, so only "every solution still solves the initial tableau" is kept, not the converse.
- Solver.Gomory.Solve: it proves no optimality after a cut, only the stopping conditions. `Valid` does not track canonical form past a cut. Also, a cut only narrows the solution set, so an optimum of the tableau after a cut says nothing about the optimum under the input constraints. Before any cut, `Solver.Gomory.Outcome` bounds the objective. It does not claim the values read off are feasible, because the row-0 fallback pivot can leave a RHS negative.
- Solver.Gomory.AddCut: it states which cut is appended, not that the cut keeps every integer point. The truncation-based cut it appends does not (see Findings). `Tableau.CutRowIsValidForNonNegativeRow` proves validity when the source row has no negative entry. `Tableau.FloorCutIsValid` proves it for the floor-based cut with a non-negative surplus. The row as appended, without a surplus column, states the cut as an equation.
- `Main.cpp` is not part of this model. It reads no input: it hard-codes one instance (`Main.cpp:11-25`) and calls the constructor on it (`Main.cpp:27`).

## Findings

| source | as written | input that shows it | evidently intended | confidence | as-written member | corrected member |
|---|---|---|---|---|---|---|
| Gomory.hpp:207 | each cut entry is -(a - trunc(a)), so a negative entry gets a positive cut coefficient | the row x_B - 1/2 x_1 = 1/2 is solved by the integer point x_B = 1, x_1 = 1. Its cut is 1/2 x_1 <= -1/2, which that point violates even with a non-negative surplus | Gomory's fractional cut -(a - floor(a)), which keeps every non-negative integer point of the row | not executed | Tableau.TruncatedCutExcludesIntegerPoint | Tableau.FloorCutIsValid |
