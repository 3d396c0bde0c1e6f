// The loops of the solver that only read the tableau, or build it: the four
// passes that lay out the initial tableau, the scan for the most negative
// RHS, the scan for a negative entry in a row, the reduced-cost scan, the
// minimum-ratio test and the scan for the most fractional RHS. Each is proved
// against the selection rule of the Tableau module that it implements.
module Scans {
  import opened Rational
  import opened Tableau

  /** The entry (i, j) after the first `pass` passes of the builder:
      1 copies the coefficients, 2 writes the slack, 3 writes the RHS and
      4 negates the GreaterOrEqual rows. */
  ghost function BuildStage(pass: nat, n: nat, table: seq<seq<real>>, signs: seq<Sign>, i: nat, j: nat): real
    requires WellShaped(n, table, signs)
    requires i < |table| && j < n + |table| + 1
    decreases pass
  {
    var m := |table|;
    if pass == 0 then 0.0
    else if pass == 1 then (if j < n then table[i][j] else 0.0)
    else if pass == 2 then
      (if j == n + i then (if signs[i] == GreaterOrEqual then -1.0 else 1.0)
       else BuildStage(1, n, table, signs, i, j))
    else if pass == 3 then
      (if j == n + m then table[i][n] else BuildStage(2, n, table, signs, i, j))
    else
      (if signs[i] == GreaterOrEqual then -BuildStage(3, n, table, signs, i, j)
       else BuildStage(3, n, table, signs, i, j))
  }

  /** The cells before (row, col) in row-major order are at stage `pass`,
      the others at stage pass - 1. */
  ghost predicate Staged(grid: Grid, pass: nat, n: nat, table: seq<seq<real>>, signs: seq<Sign>, row: nat, col: nat)
    requires WellShaped(n, table, signs) && 1 <= pass
  {
    var m := |table|;
    |grid| == m && IsRect(grid, n + m + 1) &&
    forall i, j :: 0 <= i < m && 0 <= j < n + m + 1 ==>
      grid[i][j] == BuildStage(if i < row || (i == row && j < col) then pass else pass - 1, n, table, signs, i, j)
  }

  /** Builds the initial tableau: m rows of n coefficients, m slack columns
      and the RHS, with the GreaterOrEqual rows negated. */
  method BuildGrid(n: nat, table: seq<seq<real>>, signs: seq<Sign>) returns (grid: Grid)
    requires WellShaped(n, table, signs)
    ensures IsInitialGrid(grid, n, table, signs)
  {
    var m := |table|;
    var cols := m + n + 1;
    var bColumn := cols - 1;
    grid := seq(m, _ => seq(cols, _ => 0.0));

    // Coefficients.
    var row := 0;
    while row < m
      invariant row <= m
      invariant Staged(grid, 1, n, table, signs, row, 0)
    {
      var col := 0;
      while col < |table[0]| - 1
        invariant col <= n
        invariant Staged(grid, 1, n, table, signs, row, col)
      {
        grid := grid[row := grid[row][col := table[row][col]]];
        col := col + 1;
      }
      row := row + 1;
    }

    // Slack variables.
    row := 0;
    while row < m
      invariant row <= m
      invariant Staged(grid, 2, n, table, signs, row, 0)
    {
      if signs[row] == GreaterOrEqual {
        grid := grid[row := grid[row][n + row := -1.0]];
      } else {
        grid := grid[row := grid[row][n + row := 1.0]];
      }
      row := row + 1;
    }

    // Right-hand sides.
    row := 0;
    while row < m
      invariant row <= m
      invariant Staged(grid, 3, n, table, signs, row, 0)
    {
      grid := grid[row := grid[row][bColumn := table[row][|table[0]| - 1]]];
      row := row + 1;
    }

    // Negate the GreaterOrEqual rows.
    row := 0;
    while row < m
      invariant row <= m
      invariant Staged(grid, 4, n, table, signs, row, 0)
    {
      if signs[row] == GreaterOrEqual {
        var col := 0;
        while col < cols
          invariant col <= cols
          invariant Staged(grid, 4, n, table, signs, row, col)
        {
          grid := grid[row := grid[row][col := grid[row][col] * -1.0]];
          col := col + 1;
        }
      }
      row := row + 1;
    }

    forall i, j | 0 <= i < m && 0 <= j < cols
      ensures grid[i][j] == InitialEntry(n, table, signs, i, j)
    {
      assert grid[i][j] == BuildStage(4, n, table, signs, i, j);
    }
  }

  /** The initial basis: row i starts with its own slack column n + i as
      basic variable. */
  method BuildBasis(n: nat, m: nat) returns (basis: seq<nat>)
    ensures basis == InitialBasis(n, m)
  {
    basis := [];
    var i := 0;
    while i < m
      invariant i <= m && basis == InitialBasis(n, i)
    {
      basis := basis + [n + i];
      i := i + 1;
    }
  }

  /** The running-minimum scan: the first position of the least value. */
  method FirstMinimum(s: seq<real>) returns (k: nat)
    requires |s| > 0
    ensures IsFirstMin(s, k)
  {
    k := 0;
    var least := s[0];
    var i := 1;
    while i < |s|
      invariant 1 <= i <= |s| && k < i
      invariant least == s[k]
      invariant forall j :: 0 <= j < i ==> least <= s[j]
      invariant forall j :: 0 <= j < k ==> least < s[j]
    {
      if s[i] < least {
        least := s[i];
        k := i;
      }
      i := i + 1;
    }
  }

  /** The left-to-right scan of a row for its first negative entry before
      column `limit`. */
  method FirstNegativeColumn(row: seq<real>, limit: nat) returns (found: bool, c: nat)
    requires limit <= |row|
    ensures found ==> IsFirstNegative(row, limit, c)
    ensures !found ==> forall j :: 0 <= j < limit ==> 0.0 <= row[j]
  {
    found, c := false, 0;
    var col := 0;
    while col < limit && !found
      invariant col <= limit
      invariant found ==> IsFirstNegative(row, limit, c)
      invariant !found ==> forall j :: 0 <= j < col ==> 0.0 <= row[j]
    {
      if row[col] < 0.0 {
        found, c := true, col;
      }
      col := col + 1;
    }
  }

  /** The reduced-cost scan: computes delta_j for every non-RHS column and
      returns the first column with the least delta, and that delta. */
  method EnteringColumn(z: seq<real>, g: Grid, basis: seq<nat>, b: nat) returns (e: nat, deltaMin: real)
    requires |basis| == |g| && IsRect(g, b + 1) && 0 < b
    ensures IsFirstMin(ReducedCosts(z, g, basis, b), e)
    ensures deltaMin == ReducedCost(z, g, basis, e)
  {
    ghost var deltas := ReducedCosts(z, g, basis, b);
    e, deltaMin := 0, 0.0;
    var col := 0;
    while col < b
      invariant col <= b && e < b && (col == 0 ==> e == 0)
      invariant col > 0 ==> e < col && deltaMin == deltas[e]
      invariant forall j :: 0 <= j < col ==> deltaMin <= deltas[j]
      invariant forall j :: 0 <= j < e ==> deltaMin < deltas[j]
    {
      var deltaJ := 0.0;
      var row := 0;
      while row < |g|
        invariant row <= |g|
        invariant deltaJ == BasisCostSum(z, g, basis, col, row)
      {
        deltaJ := deltaJ + Cost(z, basis[row]) * g[row][col];
        row := row + 1;
      }
      deltaJ := deltaJ - Cost(z, col);
      if col == 0 || deltaJ < deltaMin {
        deltaMin := deltaJ;
        e := col;
      }
      col := col + 1;
    }
  }

  /** The minimum-ratio test on entering column `e`. When no row has a
      positive entry in that column the scan keeps its initial row 0. */
  method MinRatioRow(g: Grid, e: nat, b: nat) returns (found: bool, k: nat)
    requires IsRect(g, b + 1) && e < b
    ensures found ==> IsMinRatioRow(g, e, b, k)
    ensures !found ==> k == 0 && forall i :: 0 <= i < |g| ==> g[i][e] <= 0.0
  {
    found, k := false, 0;
    var thetaMin := 0.0;
    var row := 0;
    while row < |g|
      invariant row <= |g|
      invariant found ==> k < row && 0.0 < g[k][e] && thetaMin == g[k][b] / g[k][e]
      invariant !found ==> k == 0
      invariant forall i :: 0 <= i < row && 0.0 < g[i][e] ==> found && thetaMin <= g[i][b] / g[i][e]
      invariant forall i :: 0 <= i < k && 0.0 < g[i][e] ==> thetaMin < g[i][b] / g[i][e]
    {
      if 0.0 < g[row][e] && (!found || g[row][b] / g[row][e] < thetaMin) {
        thetaMin := g[row][b] / g[row][e];
        found, k := true, row;
      }
      row := row + 1;
    }
  }

  /** The scan for the RHS with the largest fractional part under
      truncation toward zero; `found` is false when no value is a cut
      candidate. */
  method CutSourceRow(s: seq<real>) returns (found: bool, k: nat)
    ensures found ==> IsCutSourceRow(s, k)
    ensures !found ==> forall i :: 0 <= i < |s| ==> !IsCutCandidate(s[i])
  {
    k := 0;
    var maxFractional := 0.0;
    var row := 0;
    while row < |s|
      invariant row <= |s|
      invariant maxFractional == 0.0 ==> k == 0
      invariant maxFractional != 0.0 ==> k < row && IsCutCandidate(s[k]) && maxFractional == FracPart(s[k])
      invariant forall i :: 0 <= i < row && IsCutCandidate(s[i]) ==> maxFractional != 0.0 && FracPart(s[i]) <= maxFractional
      invariant forall i :: 0 <= i < k && IsCutCandidate(s[i]) ==> FracPart(s[i]) < maxFractional
    {
      if s[row] != 0.0 && s[row] != 1.0 && FracPart(s[row]) > maxFractional {
        k := row;
        maxFractional := FracPart(s[row]);
      }
      row := row + 1;
    }
    found := maxFractional != 0.0;
  }
}
