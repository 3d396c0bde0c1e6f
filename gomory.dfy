// The Gomory solver object. Its constructor builds the tableau and runs the
// whole method in place: negative-RHS removal, the simplex loop, and a cut
// followed by a return to the removal phase, until no RHS is fractional.
// The back-edge from the cut to the removal phase is the outer loop of the
// constructor; since nothing bounds the number of pivots (there is no
// anti-cycling rule), the constructor takes a fuel budget: each pass through
// the removal phase consumes one unit up front and each pivot one more, adding
// a cut consumes nothing, and the status stays InProgress when it runs out.
module Solver {
  import opened Rational
  import opened Tableau
  import opened Scans

  datatype Status = InProgress | Infeasible | Optimal | ZeroPivot

  /** What one iteration of the negative-RHS removal loop did. */
  datatype RemovalStep = AllNonNegative | NoNegativeEntry(row: nat) | RemovalPivot(row: nat, col: nat)

  /** What one iteration of the simplex loop did. `ratioFound` is false
      when no row had a positive entry in the entering column and the pivot
      fell back to row 0. */
  datatype SimplexStep = DeltasNonNegative | SimplexPivot(row: nat, col: nat, ratioFound: bool) | NoPivotRow(col: nat)

  class Gomory {
    var basis: seq<nat>
    const zFunctionCoefficients: seq<real>
    var grid: Grid
    var gridRows: nat
    const gridCols: nat
    const bColumn: nat
    var status: Status

    /** The tableau as first built, and its number of rows. */
    ghost var initialGrid: Grid
    ghost var initialRows: nat

    /** The fuel the constructor's run left unspent. */
    ghost var fuelLeft: nat

    /** The dimensions agree: one basis entry per row, every row as wide as
        the tableau, the RHS last. */
    ghost predicate Shaped()
      reads this`grid, this`basis, this`gridRows
    {
      gridRows == |grid| == |basis| && 1 <= gridCols && bColumn == gridCols - 1 &&
      IsRect(grid, gridCols)
    }

    /** The object invariant: rows are only ever appended; every solution of
        the current tableau solves the initial one, and the converse holds
        as long as no cut has been added; and until then the tableau stays
        canonical for its basis. */
    ghost predicate Valid()
      reads this`grid, this`basis, this`gridRows
      reads this`initialGrid, this`initialRows
    {
      Shaped() && IsRect(initialGrid, gridCols) && |initialGrid| == initialRows <= gridRows &&
      (forall x: seq<real> | |x| == bColumn :: Solves(grid, x) ==> Solves(initialGrid, x)) &&
      (gridRows == initialRows ==>
         IsCanonical(grid, basis, bColumn) &&
         forall x: seq<real> | |x| == bColumn :: Solves(initialGrid, x) ==> Solves(grid, x))
    }

    /** What each terminal status says about the tableau it leaves. */
    ghost predicate StatusHolds()
      reads this`grid, this`basis, this`gridRows, this`status
      requires Shaped()
    {
      (status == Infeasible ==> exists r :: 0 <= r < gridRows && IsInfeasibleRow(grid[r], bColumn)) &&
      (status == Optimal ==> IsFinalTableau(zFunctionCoefficients, grid, basis, bColumn)) &&
      (status == ZeroPivot ==> exists e :: NoPivotRowFor(e))
    }

    constructor (zFunctionCoefficients: seq<real>, initialTableCoefficients: seq<seq<real>>,
                 initialTableSigns: seq<Sign>, fuel: nat)
      requires WellShaped(|zFunctionCoefficients|, initialTableCoefficients, initialTableSigns)
      ensures Valid() && StatusHolds()
      ensures this.zFunctionCoefficients == zFunctionCoefficients
      ensures gridCols == |zFunctionCoefficients| + |initialTableCoefficients| + 1
      ensures initialRows == |initialTableCoefficients|
      ensures IsInitialGrid(initialGrid, |zFunctionCoefficients|, initialTableCoefficients, initialTableSigns)
      ensures status == Optimal && RhsNonNegative(grid, bColumn) ==>
                var x := Solution(grid, basis, bColumn);
                forall j :: 0 <= j < bColumn ==> 0.0 <= x[j] && IsInteger(x[j])
      ensures status == Optimal && IsCanonical(grid, basis, bColumn) && RhsNonNegative(grid, bColumn) ==>
                var x := Solution(grid, basis, bColumn);
                MeetsConstraints(|zFunctionCoefficients|, initialTableCoefficients, initialTableSigns, x[..|zFunctionCoefficients|])
      ensures status == Infeasible && gridRows == initialRows ==>
                forall y: seq<real> | |y| == |zFunctionCoefficients| && NonNegative(y) ::
                  !MeetsConstraints(|zFunctionCoefficients|, initialTableCoefficients, initialTableSigns, y)
      ensures status == Optimal && gridRows == initialRows ==>
                var x := Solution(grid, basis, bColumn);
                forall y: seq<real> | |y| == |zFunctionCoefficients| && NonNegative(y) &&
                                      MeetsConstraints(|zFunctionCoefficients|, initialTableCoefficients, initialTableSigns, y) ::
                  Dot(zFunctionCoefficients, y) <= Dot(zFunctionCoefficients, x[..|zFunctionCoefficients|])
      ensures fuelLeft <= fuel && (status == InProgress ==> fuelLeft == 0)
    {
      var n := |zFunctionCoefficients|;
      var m := |initialTableCoefficients|;

      var initialBasis := BuildBasis(n, m);
      basis := initialBasis;
      this.zFunctionCoefficients := zFunctionCoefficients;

      gridRows := m;
      gridCols := m + n + 1;
      bColumn := m + n;
      var g := BuildGrid(n, initialTableCoefficients, initialTableSigns);
      InitialTableauIsCanonical(g, n, initialTableCoefficients, initialTableSigns);
      grid := g;
      initialGrid := g;
      initialRows := m;
      status := InProgress;
      fuelLeft := fuel;
      new;

      fuelLeft := Solve(fuel);
      Outcome(n, initialTableCoefficients, initialTableSigns);
    }

    /** What the final status says about the constraints the tableau was
        built from, as long as no cut has been added or the final tableau is
        canonical. */
    lemma Outcome(n: nat, table: seq<seq<real>>, signs: seq<Sign>)
      requires Valid() && StatusHolds() && WellShaped(n, table, signs) && n == |zFunctionCoefficients|
      requires IsInitialGrid(initialGrid, n, table, signs) && bColumn == n + |table|
      ensures status == Optimal && RhsNonNegative(grid, bColumn) ==>
                var x := Solution(grid, basis, bColumn);
                forall j :: 0 <= j < bColumn ==> 0.0 <= x[j] && IsInteger(x[j])
      ensures status == Optimal && IsCanonical(grid, basis, bColumn) && RhsNonNegative(grid, bColumn) ==>
                var x := Solution(grid, basis, bColumn);
                MeetsConstraints(n, table, signs, x[..n])
      ensures status == Infeasible && gridRows == initialRows ==>
                forall y: seq<real> | |y| == n && NonNegative(y) :: !MeetsConstraints(n, table, signs, y)
      ensures status == Optimal && gridRows == initialRows ==>
                var x := Solution(grid, basis, bColumn);
                forall y: seq<real> | |y| == n && NonNegative(y) && MeetsConstraints(n, table, signs, y) ::
                  Dot(zFunctionCoefficients, y) <= Dot(zFunctionCoefficients, x[..n])
    {
      if status == Optimal && gridRows == initialRows {
        OptimumMaximizesObjective(zFunctionCoefficients, grid, basis, bColumn, initialGrid, table, signs);
      }
      if status == Optimal && RhsNonNegative(grid, bColumn) {
        FinalSolutionIsIntegral(grid, basis, bColumn);
      }
      if status == Optimal && IsCanonical(grid, basis, bColumn) && RhsNonNegative(grid, bColumn) {
        OptimumMeetsConstraints(grid, basis, bColumn, initialGrid, n, table, signs);
      }
      if status == Infeasible && gridRows == initialRows {
        var r :| 0 <= r < gridRows && IsInfeasibleRow(grid[r], bColumn);
        InfeasibleRowRulesOutConstraints(grid, r, bColumn, initialGrid, n, table, signs);
      }
    }

    /** The outer loop that the cut's jump back to the removal phase forms:
        removal, simplex, then a cut; it stops once no cut is added, on
        infeasibility or a missing pivot row, or when the fuel runs out. */
    method Solve(fuel: nat) returns (fuelLeft: nat)
      requires Valid() && StatusHolds() && status == InProgress
      modifies this`grid, this`basis, this`gridRows, this`status
      ensures Valid() && StatusHolds() && fuelLeft <= fuel
      ensures status == InProgress ==> fuelLeft == 0
      ensures old(gridRows) <= gridRows
    {
      fuelLeft := fuel;
      while status == InProgress && fuelLeft > 0
        invariant Valid() && StatusHolds() && fuelLeft <= fuel
        invariant old(gridRows) <= gridRows
        decreases fuelLeft
      {
        fuelLeft := Round(fuelLeft - 1);
      }
    }

    /** One pass from the removal phase through the cut step. When a cut is
        added the status stays InProgress and the next pass starts over at
        the removal phase; when none is needed the status becomes Optimal. */
    method Round(fuel: nat) returns (fuelLeft: nat)
      requires Valid() && StatusHolds() && status == InProgress
      modifies this`grid, this`basis, this`gridRows, this`status
      ensures Valid() && StatusHolds() && fuelLeft <= fuel
      ensures status == InProgress ==> fuelLeft == 0 || gridRows == old(gridRows) + 1
      ensures status == InProgress && gridRows == old(gridRows) + 1 ==>
                exists s: nat :: IsCutSourceRow(Rhs(grid[..gridRows - 1], bColumn), s) &&
                                 grid == grid[..gridRows - 1] + [CutRow(grid[s])]
      ensures old(gridRows) <= gridRows
    {
      var feasible;
      feasible, fuelLeft := RemoveNegativeB(fuel);
      if feasible {
        fuelLeft := OptimizeAndCut(fuelLeft);
      }
    }

    /** The simplex loop followed, when it ends with no negative reduced
        cost, by the cut step. */
    method OptimizeAndCut(fuel: nat) returns (fuelLeft: nat)
      requires Valid() && StatusHolds() && status == InProgress
      modifies this`grid, this`basis, this`gridRows, this`status
      ensures Valid() && StatusHolds() && fuelLeft <= fuel
      ensures status == InProgress ==> fuelLeft == 0 || gridRows == old(gridRows) + 1
      ensures status == InProgress && gridRows == old(gridRows) + 1 ==>
                exists s: nat :: IsCutSourceRow(Rhs(grid[..gridRows - 1], bColumn), s) &&
                                 grid == grid[..gridRows - 1] + [CutRow(grid[s])]
      ensures old(gridRows) <= gridRows
    {
      var planIsOptimal;
      planIsOptimal, fuelLeft := RunSimplex(fuel);
      if planIsOptimal {
        ghost var before := grid;
        CutOrStop();
        if status == InProgress {
          assert grid[..gridRows - 1] == before;
        }
      }
    }

    /** After the simplex loop: add a cut, or stop with status Optimal when
        no RHS is a cut candidate. */
    method CutOrStop()
      requires Valid() && status == InProgress
      requires forall j :: 0 <= j < bColumn ==> 0.0 <= ReducedCost(zFunctionCoefficients, grid, basis, j)
      modifies this`grid, this`basis, this`gridRows, this`status
      ensures Valid() && StatusHolds()
      ensures status == Optimal || status == InProgress
      ensures status == Optimal ==> grid == old(grid) && basis == old(basis) && gridRows == old(gridRows)
      ensures status == InProgress ==>
                gridRows == old(gridRows) + 1 && basis == old(basis) + [old(gridRows) + 2] &&
                exists s: nat :: IsCutSourceRow(Rhs(old(grid), bColumn), s) && grid == old(grid) + [CutRow(old(grid)[s])]
    {
      var added, _ := AddCut();
      if !added {
        assert IsFinalTableau(zFunctionCoefficients, grid, basis, bColumn);
        status := Optimal;
      }
    }

    /** The negative-RHS removal loop: repeats the removal step until every
        RHS is non-negative, a row proves the tableau infeasible, or the fuel
        runs out (one unit per pivot). */
    method RemoveNegativeB(fuel: nat) returns (feasible: bool, fuelLeft: nat)
      requires Valid() && StatusHolds() && status == InProgress
      modifies this`grid, this`basis, this`status
      ensures Valid() && StatusHolds() && fuelLeft <= fuel
      ensures feasible ==> status == InProgress && RhsNonNegative(grid, bColumn)
      ensures !feasible ==> (status == InProgress && fuelLeft == 0) || status == Infeasible
    {
      fuelLeft := fuel;
      var hasNegativeB := true;
      while hasNegativeB && fuelLeft > 0
        invariant Valid() && status == InProgress && fuelLeft <= fuel
        invariant !hasNegativeB ==> RhsNonNegative(grid, bColumn)
        decreases fuelLeft, if hasNegativeB then 1 else 0
      {
        var step := RemoveNegativeBStep();
        match step
        case AllNonNegative =>
          hasNegativeB := false;
        case NoNegativeEntry(r) =>
          status := Infeasible;
          return false, fuelLeft;
        case RemovalPivot(_, _) =>
          fuelLeft := fuelLeft - 1;
      }
      feasible := !hasNegativeB;
    }

    /** The simplex loop: repeats the simplex step until no reduced cost is
        negative, no pivot row exists, or the fuel runs out (one unit per
        pivot). */
    method RunSimplex(fuel: nat) returns (planIsOptimal: bool, fuelLeft: nat)
      requires Valid() && StatusHolds() && status == InProgress
      modifies this`grid, this`basis, this`status
      ensures Valid() && StatusHolds() && fuelLeft <= fuel
      ensures planIsOptimal ==>
                status == InProgress &&
                forall j :: 0 <= j < bColumn ==> 0.0 <= ReducedCost(zFunctionCoefficients, grid, basis, j)
      ensures !planIsOptimal ==> (status == InProgress && fuelLeft == 0) || status == ZeroPivot
    {
      fuelLeft := fuel;
      planIsOptimal := false;
      while !planIsOptimal && fuelLeft > 0
        invariant Valid() && status == InProgress && fuelLeft <= fuel
        invariant planIsOptimal ==>
                    forall j :: 0 <= j < bColumn ==> 0.0 <= ReducedCost(zFunctionCoefficients, grid, basis, j)
        decreases fuelLeft, if planIsOptimal then 0 else 1
      {
        var step := SimplexStep();
        match step
        case DeltasNonNegative =>
          planIsOptimal := true;
        case SimplexPivot(_, _, _) =>
          fuelLeft := fuelLeft - 1;
        case NoPivotRow(e) =>
          status := ZeroPivot;
          assert NoPivotRowFor(e);
          return;
      }
    }

    /** The Gauss-Jordan transform on pivot (pivotRow, pivotCol): fills a
        fresh grid entry by entry, then replaces the old one. */
    method Transform(pivotRow: nat, pivotCol: nat)
      requires Shaped() && pivotRow < gridRows && pivotCol < gridCols
      requires grid[pivotRow][pivotCol] != 0.0
      modifies this`grid
      ensures Shaped()
      ensures grid == Pivot(old(grid), pivotRow, pivotCol)
    {
      var oldPivot := grid[pivotRow][pivotCol];
      var rows, cols := gridRows, gridCols;
      var newGrid: Grid := seq(rows, _ => seq(cols, _ => 0.0));
      ghost var target := Pivot(grid, pivotRow, pivotCol);
      var row := 0;
      while row < gridRows
        invariant row <= gridRows && |newGrid| == gridRows && IsRect(newGrid, gridCols)
        invariant forall i :: 0 <= i < row ==> newGrid[i] == target[i]
      {
        var col := 0;
        while col < gridCols
          invariant col <= gridCols && |newGrid| == gridRows && IsRect(newGrid, gridCols)
          invariant forall i :: 0 <= i < row ==> newGrid[i] == target[i]
          invariant forall j :: 0 <= j < col ==> newGrid[row][j] == target[row][j]
        {
          if row == pivotRow {
            newGrid := newGrid[row := newGrid[row][col := grid[row][col] / oldPivot]];
          } else {
            newGrid := newGrid[row := newGrid[row][col := grid[row][col] - (grid[pivotRow][col] * grid[row][pivotCol]) / oldPivot]];
          }
          col := col + 1;
        }
        assert newGrid[row] == target[row];
        row := row + 1;
      }
      grid := newGrid;
    }

    /** Pivots on (r, c) and makes column `c` the basic variable of row `r`,
        keeping the object invariant. */
    method PivotAndEnter(r: nat, c: nat)
      requires Valid() && r < gridRows && c < bColumn && grid[r][c] != 0.0
      modifies this`grid, this`basis
      ensures Valid()
      ensures grid == Pivot(old(grid), r, c) && basis == old(basis)[r := c]
    {
      ghost var before := grid;
      Transform(r, c);
      basis := basis[r := c];
      forall x: seq<real> | |x| == bColumn
        ensures Solves(before, x) <==> Solves(grid, x)
      {
        PivotPreservesSolutions(before, r, c, x);
      }
      if gridRows == initialRows {
        PivotKeepsCanonical(before, old(basis), bColumn, r, c);
      }
    }

    /** One iteration of the negative-RHS removal: find the first row with
        the least RHS; if that RHS is negative, pivot on the first negative
        entry of the row, or report that the row has none. */
    method RemoveNegativeBStep() returns (step: RemovalStep)
      requires Valid()
      modifies this`grid, this`basis
      ensures Valid()
      ensures step == AllNonNegative ==>
                grid == old(grid) && basis == old(basis) && RhsNonNegative(grid, bColumn)
      ensures step.NoNegativeEntry? ==>
                grid == old(grid) && basis == old(basis) &&
                IsFirstMin(Rhs(grid, bColumn), step.row) && IsInfeasibleRow(grid[step.row], bColumn)
      ensures step.RemovalPivot? ==>
                IsFirstMin(Rhs(old(grid), bColumn), step.row) && old(grid)[step.row][bColumn] < 0.0 &&
                IsFirstNegative(old(grid)[step.row], bColumn, step.col) &&
                grid == Pivot(old(grid), step.row, step.col) && basis == old(basis)[step.row := step.col] &&
                0.0 < grid[step.row][bColumn]
    {
      if gridRows == 0 {
        return AllNonNegative;
      }
      var rhs := Rhs(grid, bColumn);
      var minBIdx := FirstMinimum(rhs);
      if grid[minBIdx][bColumn] >= 0.0 {
        assert forall i :: 0 <= i < gridRows ==> rhs[i] == grid[i][bColumn];
        return AllNonNegative;
      }
      var foundNegativeA, col := FirstNegativeColumn(grid[minBIdx], bColumn);
      if !foundNegativeA {
        return NoNegativeEntry(minBIdx);
      }
      PivotAndEnter(minBIdx, col);
      step := RemovalPivot(minBIdx, col);
    }

    /** One iteration of the simplex loop: find the entering column with the
        first least reduced cost; if it is negative, run the minimum-ratio
        test on it and pivot. */
    method SimplexStep() returns (step: SimplexStep)
      requires Valid()
      modifies this`grid, this`basis
      ensures Valid()
      ensures step == DeltasNonNegative ==>
                grid == old(grid) && basis == old(basis) &&
                forall j :: 0 <= j < bColumn ==> 0.0 <= ReducedCost(zFunctionCoefficients, grid, basis, j)
      ensures !step.DeltasNonNegative? ==>
                step.col < bColumn &&
                IsFirstMin(ReducedCosts(zFunctionCoefficients, old(grid), old(basis), bColumn), step.col) &&
                ReducedCost(zFunctionCoefficients, old(grid), old(basis), step.col) < 0.0
      ensures step.SimplexPivot? ==> SimplexPivotDone(old(grid), old(basis), step)
      ensures step.NoPivotRow? ==>
                grid == old(grid) && basis == old(basis) && NoPivotRowFor(step.col)
    {
      if bColumn == 0 {
        return DeltasNonNegative;
      }
      var deltaMinIdx, deltaMin := EnteringColumn(zFunctionCoefficients, grid, basis, bColumn);
      if deltaMin < 0.0 {
        step := RatioTestAndPivot(deltaMinIdx);
      } else {
        ghost var deltas := ReducedCosts(zFunctionCoefficients, grid, basis, bColumn);
        assert forall j :: 0 <= j < bColumn ==> deltas[j] == ReducedCost(zFunctionCoefficients, grid, basis, j);
        step := DeltasNonNegative;
      }
    }

    /** Column `e` should enter the basis, as its reduced cost is negative,
        but no row has a positive entry in it and the fallback row 0 is
        missing or holds a zero there. With a zero the pivot would divide by
        zero; with no rows it would index an empty tableau. */
    ghost predicate NoPivotRowFor(e: nat)
      reads this`grid, this`basis, this`gridRows
      requires Shaped()
    {
      e < bColumn && ReducedCost(zFunctionCoefficients, grid, basis, e) < 0.0 &&
      (forall i :: 0 <= i < gridRows ==> grid[i][e] <= 0.0) &&
      (gridRows == 0 || grid[0][e] == 0.0)
    }

    /** The tableau and basis after a simplex pivot on `step`, given those
        before it: the pivot row passed the ratio test, or else no row has a
        positive entry and the pivot fell back to row 0. */
    ghost predicate SimplexPivotDone(before: Grid, basisBefore: seq<nat>, step: SimplexStep)
      reads this`grid, this`basis, this`gridRows
      requires Shaped() && step.SimplexPivot?
    {
      step.col < bColumn && step.row < gridRows && |before| == |basisBefore| == gridRows && IsRect(before, gridCols) &&
      (step.ratioFound ==> IsMinRatioRow(before, step.col, bColumn, step.row)) &&
      (!step.ratioFound ==> step.row == 0 && forall i :: 0 <= i < gridRows ==> before[i][step.col] <= 0.0) &&
      before[step.row][step.col] != 0.0 &&
      grid == Pivot(before, step.row, step.col) && basis == basisBefore[step.row := step.col] &&
      (step.ratioFound && RhsNonNegative(before, bColumn) ==> RhsNonNegative(grid, bColumn)) &&
      (IsCanonical(grid, basis, bColumn) ==> ReducedCost(zFunctionCoefficients, grid, basis, step.col) == 0.0)
    }

    /** The minimum-ratio test on entering column `e` and the pivot it
        selects. With no positive entry in the column the scan keeps row 0. */
    method RatioTestAndPivot(e: nat) returns (step: SimplexStep)
      requires Valid() && e < bColumn && ReducedCost(zFunctionCoefficients, grid, basis, e) < 0.0
      modifies this`grid, this`basis
      ensures Valid() && !step.DeltasNonNegative? && step.col == e
      ensures step.SimplexPivot? ==> SimplexPivotDone(old(grid), old(basis), step)
      ensures step.NoPivotRow? ==> grid == old(grid) && basis == old(basis) && NoPivotRowFor(e)
    {
      var found, thetaMinIdx := MinRatioRow(grid, e, bColumn);
      if gridRows == 0 || grid[thetaMinIdx][e] == 0.0 {
        return NoPivotRow(e);
      }
      step := SimplexPivot(thetaMinIdx, e, found);
      PivotOnRatioRow(step);
    }

    /** The pivot the ratio test selected, and what it keeps: a non-negative
        RHS when the row passed the test, and a zero reduced cost for the
        entering column. */
    method PivotOnRatioRow(step: SimplexStep)
      requires Valid() && step.SimplexPivot? && step.col < bColumn && step.row < gridRows
      requires step.ratioFound ==> IsMinRatioRow(grid, step.col, bColumn, step.row)
      requires !step.ratioFound ==> step.row == 0 && forall i :: 0 <= i < gridRows ==> grid[i][step.col] <= 0.0
      requires grid[step.row][step.col] != 0.0
      modifies this`grid, this`basis
      ensures Valid() && SimplexPivotDone(old(grid), old(basis), step)
    {
      ghost var before := grid;
      PivotAndEnter(step.row, step.col);
      if step.ratioFound && RhsNonNegative(before, bColumn) {
        RatioTestKeepsRhsNonNegative(before, step.col, bColumn, step.row);
      }
      if IsCanonical(grid, basis, bColumn) {
        BasicColumnHasZeroReducedCost(zFunctionCoefficients, grid, basis, bColumn, step.row);
      }
    }

    /** The cut step: when some RHS is a cut candidate, append the cut row
        of the first row with the largest fractional RHS, and the basis
        entry GRID_ROWS + 1 computed after the row count is incremented. */
    method AddCut() returns (added: bool, source: nat)
      requires Valid()
      modifies this`grid, this`basis, this`gridRows
      ensures Valid()
      ensures added ==>
                IsCutSourceRow(Rhs(old(grid), bColumn), source) &&
                grid == old(grid) + [CutRow(old(grid)[source])] &&
                basis == old(basis) + [old(gridRows) + 2] && gridRows == old(gridRows) + 1 &&
                -1.0 < grid[gridRows - 1][bColumn] < 0.0
      ensures !added ==>
                grid == old(grid) && basis == old(basis) && gridRows == old(gridRows) &&
                forall i :: 0 <= i < gridRows ==> !IsCutCandidate(grid[i][bColumn])
    {
      var rhs := Rhs(grid, bColumn);
      added, source := CutSourceRow(rhs);
      if !added {
        assert forall i :: 0 <= i < gridRows ==> rhs[i] == grid[i][bColumn];
        return;
      }
      AppendCutOf(source);
    }

    /** Appends the cut row of row `source`, which keeps the object
        invariant: the cut only removes solutions. */
    method AppendCutOf(source: nat)
      requires Valid() && IsCutSourceRow(Rhs(grid, bColumn), source)
      modifies this`grid, this`basis, this`gridRows
      ensures Valid()
      ensures grid == old(grid) + [CutRow(old(grid)[source])]
      ensures basis == old(basis) + [old(gridRows) + 2] && gridRows == old(gridRows) + 1
      ensures -1.0 < grid[gridRows - 1][bColumn] < 0.0
    {
      ghost var before := grid;
      var sourceRow := grid[source];
      AppendCutRow(sourceRow);
      forall x: seq<real> | |x| == bColumn
        ensures Solves(grid, x) ==> Solves(initialGrid, x)
      {
        AppendedRowNarrowsSolutions(before, CutRow(sourceRow), x);
      }
      assert grid[gridRows - 1] == CutRow(sourceRow);
      assert Shaped();
    }

    /** Appends the cut row of `sourceRow` to the tableau, entry by entry,
        and names its basic variable GRID_ROWS + 1, computed after the row
        count is incremented. */
    method AppendCutRow(sourceRow: seq<real>)
      requires |grid| == gridRows == |basis|
      modifies this`grid, this`basis, this`gridRows
      ensures grid == old(grid) + [CutRow(sourceRow)]
      ensures gridRows == old(gridRows) + 1 && basis == old(basis) + [old(gridRows) + 2]
    {
      grid := grid + [[]];
      gridRows := gridRows + 1;
      basis := basis + [gridRows + 1];
      var col := 0;
      while col < |sourceRow|
        invariant col <= |sourceRow| && |grid| == gridRows == old(gridRows) + 1
        invariant basis == old(basis) + [old(gridRows) + 2]
        invariant grid[..gridRows - 1] == old(grid)
        invariant grid[gridRows - 1] == CutRow(sourceRow)[..col]
      {
        grid := grid[gridRows - 1 := grid[gridRows - 1] + [-(sourceRow[col] - Trunc(sourceRow[col]) as real)]];
        col := col + 1;
      }
      assert CutRow(sourceRow)[..col] == CutRow(sourceRow);
      assert grid == grid[..gridRows - 1] + [grid[gridRows - 1]];
    }
  }
}
