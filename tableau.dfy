// The simplex tableau as a value, and the rules the solver follows on it:
// the initial layout, the Gauss-Jordan pivot, reduced costs, the selection
// rules of each phase, the Gomory cut row and the solution read off the
// basis. The Solver module changes a tableau in place; everything it does is
// stated in terms of the functions and predicates here.
module Tableau {
  import opened Rational

  /** The relation of one constraint row. Only GreaterOrEqual is treated
      differently; every other sign gets a +1 slack. */
  datatype Sign = Less | LessOrEqual | Equal | GreaterOrEqual | Greater

  /** Rows of exact entries; the last column of every row is its
      right-hand side (RHS). */
  type Grid = seq<seq<real>>

  predicate IsRect(g: Grid, cols: nat) {
    forall i :: 0 <= i < |g| ==> |g[i]| == cols
  }

  /** The objective coefficient of column `k`, and 0 for every index at or
      past the last objective coefficient (the slack columns, and any basis
      entry naming no structural column). A cut's basis entry GRID_ROWS + 1
      costs the coefficient of that column when it is a structural one. */
  function Cost(z: seq<real>, k: nat): real
  {
    if k < |z| then z[k] else 0.0
  }

  // ---------------------------------------------------------------------
  // The initial tableau

  /** The input the solver accepts: one sign per constraint row, and every
      row holds `n` coefficients followed by its RHS. */
  predicate WellShaped(n: nat, table: seq<seq<real>>, signs: seq<Sign>) {
    |signs| == |table| && forall i :: 0 <= i < |table| ==> |table[i]| == n + 1
  }

  /** A GreaterOrEqual row is stored negated. */
  function Orientation(s: Sign): real {
    if s == GreaterOrEqual then -1.0 else 1.0
  }

  /** The entry (i, j) of the tableau built from the input: the oriented
      coefficients, a +1 in the row's own slack column, 0 in every other
      slack column, and the oriented RHS last. */
  function InitialEntry(n: nat, table: seq<seq<real>>, signs: seq<Sign>, i: nat, j: nat): real
    requires WellShaped(n, table, signs)
    requires i < |table| && j < n + |table| + 1
  {
    var m := |table|;
    if j < n then Orientation(signs[i]) * table[i][j]
    else if j == n + i then 1.0
    else if j < n + m then 0.0
    else Orientation(signs[i]) * table[i][n]
  }

  predicate IsInitialGrid(g: Grid, n: nat, table: seq<seq<real>>, signs: seq<Sign>)
    requires WellShaped(n, table, signs)
  {
    var m := |table|;
    |g| == m && IsRect(g, n + m + 1) &&
    forall i, j :: 0 <= i < m && 0 <= j < n + m + 1 ==> g[i][j] == InitialEntry(n, table, signs, i, j)
  }

  /** Row i starts with its own slack column n + i as basic variable. */
  function InitialBasis(n: nat, m: nat): (basis: seq<nat>)
    ensures |basis| == m
    ensures forall i :: 0 <= i < m ==> basis[i] == n + i
  {
    seq(m, i requires 0 <= i < m => n + i)
  }

  /** `x` solves every row equation of `g`. */
  predicate Solves(g: Grid, x: seq<real>)
    requires IsRect(g, |x| + 1)
  {
    forall i :: 0 <= i < |g| ==> Residual(g[i], x) == 0.0
  }

  /** `y` satisfies every constraint the way the builder reads it:
      a GreaterOrEqual row as >= and every other sign as <=. */
  predicate MeetsConstraints(n: nat, table: seq<seq<real>>, signs: seq<Sign>, y: seq<real>)
    requires WellShaped(n, table, signs)
  {
    |y| == n &&
    forall i :: 0 <= i < |table| ==>
      if signs[i] == GreaterOrEqual then Dot(table[i][..n], y) >= table[i][n]
      else Dot(table[i][..n], y) <= table[i][n]
  }

  predicate NonNegative(x: seq<real>) {
    forall j :: 0 <= j < |x| ==> 0.0 <= x[j]
  }

  /** The residual of row i of the initial tableau: the oriented
      constraint's excess plus the row's slack value. */
  lemma InitialRowResidual(g: Grid, n: nat, table: seq<seq<real>>, signs: seq<Sign>, x: seq<real>, i: nat)
    requires WellShaped(n, table, signs) && IsInitialGrid(g, n, table, signs)
    requires |x| == n + |table| && i < |table|
    ensures Residual(g[i], x) == Orientation(signs[i]) * (Dot(table[i][..n], x[..n]) - table[i][n]) + x[n + i]
  {
    var m := |table|;
    var row := g[i][..n + m];
    DotSplit(row, x, n);
    assert row[..n] == g[i][..n] && row[n..] == g[i][n..n + m];
    InitialCoefficients(g, n, table, signs, x, i);
    InitialSlacks(g, n, table, signs, x, i);
    assert g[i][n + m] == InitialEntry(n, table, signs, i, n + m);
    var d, t := Dot(table[i][..n], x[..n]), table[i][n];
    if signs[i] == GreaterOrEqual {
      assert Residual(g[i], x) == -d + x[n + i] - -t;
    } else {
      assert Residual(g[i], x) == d + x[n + i] - t;
    }
  }

  /** The structural part of an initial row applies the oriented
      coefficients of its constraint. */
  lemma InitialCoefficients(g: Grid, n: nat, table: seq<seq<real>>, signs: seq<Sign>, x: seq<real>, i: nat)
    requires WellShaped(n, table, signs) && IsInitialGrid(g, n, table, signs)
    requires |x| == n + |table| && i < |table|
    ensures Dot(g[i][..n], x[..n]) == Orientation(signs[i]) * Dot(table[i][..n], x[..n])
  {
    var o := Orientation(signs[i]);
    forall j | 0 <= j < n
      ensures g[i][..n][j] == o * table[i][..n][j]
    {
      assert g[i][j] == InitialEntry(n, table, signs, i, j);
    }
    DotScale(g[i][..n], table[i][..n], o, x[..n]);
  }

  /** The slack part of initial row i picks out slack value i. */
  lemma InitialSlacks(g: Grid, n: nat, table: seq<seq<real>>, signs: seq<Sign>, x: seq<real>, i: nat)
    requires WellShaped(n, table, signs) && IsInitialGrid(g, n, table, signs)
    requires |x| == n + |table| && i < |table|
    ensures Dot(g[i][n..n + |table|], x[n..]) == x[n + i]
  {
    var m := |table|;
    var slack := g[i][n..n + m];
    forall j | 0 <= j < m && j != i
      ensures slack[j] * x[n..][j] == 0.0
    {
      assert g[i][n + j] == InitialEntry(n, table, signs, i, n + j);
    }
    assert g[i][n + i] == InitialEntry(n, table, signs, i, n + i);
    DotSingleTerm(slack, x[n..], i);
  }

  /** A non-negative solution of the initial tableau meets every
      constraint with its structural values. */
  lemma InitialSolutionMeetsConstraints(g: Grid, n: nat, table: seq<seq<real>>, signs: seq<Sign>, x: seq<real>)
    requires WellShaped(n, table, signs) && IsInitialGrid(g, n, table, signs)
    requires |x| == n + |table| && Solves(g, x) && NonNegative(x)
    ensures MeetsConstraints(n, table, signs, x[..n])
  {
    forall i | 0 <= i < |table|
      ensures Orientation(signs[i]) * (Dot(table[i][..n], x[..n]) - table[i][n]) == -x[n + i]
    {
      InitialRowResidual(g, n, table, signs, x, i);
    }
  }

  /** The structural values `y` followed by the slack each constraint
      leaves. */
  function WithSlacks(n: nat, table: seq<seq<real>>, signs: seq<Sign>, y: seq<real>): (x: seq<real>)
    requires WellShaped(n, table, signs) && |y| == n
    ensures |x| == n + |table| && x[..n] == y
  {
    y + seq(|table|, i requires 0 <= i < |table| => SlackValue(n, table, signs, y, i))
  }

  /** The slack that constraint i leaves at `y`, oriented as in the
      initial tableau. */
  function SlackValue(n: nat, table: seq<seq<real>>, signs: seq<Sign>, y: seq<real>, i: nat): real
    requires WellShaped(n, table, signs) && |y| == n && i < |table|
  {
    if signs[i] == GreaterOrEqual then Dot(table[i][..n], y) - table[i][n]
    else table[i][n] - Dot(table[i][..n], y)
  }

  /** Conversely, values meeting every constraint, with their slacks,
      form a non-negative solution of the initial tableau. */
  lemma ConstraintsGiveInitialSolution(g: Grid, n: nat, table: seq<seq<real>>, signs: seq<Sign>, y: seq<real>)
    requires WellShaped(n, table, signs) && IsInitialGrid(g, n, table, signs)
    requires MeetsConstraints(n, table, signs, y) && NonNegative(y)
    ensures Solves(g, WithSlacks(n, table, signs, y)) && NonNegative(WithSlacks(n, table, signs, y))
  {
    var x := WithSlacks(n, table, signs, y);
    forall i | 0 <= i < |table|
      ensures Residual(g[i], x) == 0.0
    {
      SlackSolvesRow(g, n, table, signs, y, i);
    }
    forall j | 0 <= j < |x|
      ensures 0.0 <= x[j]
    {
      if j < n {
        assert x[j] == x[..n][j];
      } else {
        assert x[j] == SlackValue(n, table, signs, y, j - n);
      }
    }
  }

  /** Row i of the initial tableau holds at `y` and its slacks. */
  lemma SlackSolvesRow(g: Grid, n: nat, table: seq<seq<real>>, signs: seq<Sign>, y: seq<real>, i: nat)
    requires WellShaped(n, table, signs) && IsInitialGrid(g, n, table, signs)
    requires |y| == n && i < |table|
    ensures Residual(g[i], WithSlacks(n, table, signs, y)) == 0.0
  {
    var x := WithSlacks(n, table, signs, y);
    InitialRowResidual(g, n, table, signs, x, i);
    assert x[n + i] == SlackValue(n, table, signs, y, i);
  }


  /** A row with a negative RHS and no negative coefficient: the equation it
      holds has no non-negative solution. */
  predicate IsInfeasibleRow(row: seq<real>, b: nat) {
    b < |row| && row[b] < 0.0 && forall j :: 0 <= j < b ==> 0.0 <= row[j]
  }

  /** No non-negative vector solves a tableau holding an infeasible row. */
  lemma InfeasibleRowHasNoSolution(g: Grid, r: nat, x: seq<real>)
    requires IsRect(g, |x| + 1) && r < |g| && IsInfeasibleRow(g[r], |x|) && NonNegative(x)
    ensures !Solves(g, x)
  {
    NoNonNegativeSolution(g[r], x);
  }

  // ---------------------------------------------------------------------
  // Canonical form

  /** Column `c` holds 1 in row `r` and 0 in every other row. */
  predicate IsUnitColumn(g: Grid, c: nat, r: nat)
    requires forall i :: 0 <= i < |g| ==> c < |g[i]|
  {
    r < |g| && forall i :: 0 <= i < |g| ==> g[i][c] == (if i == r then 1.0 else 0.0)
  }

  /** Every row's basic variable is a non-RHS column that is a unit column
      for that row: the tableau is solved for its basic variables. */
  predicate IsCanonical(g: Grid, basis: seq<nat>, b: nat) {
    IsRect(g, b + 1) && |basis| == |g| &&
    forall i :: 0 <= i < |g| ==> basis[i] < b && IsUnitColumn(g, basis[i], i)
  }

  /** Appending a row equation can only remove solutions. */
  lemma AppendedRowNarrowsSolutions(g: Grid, row: seq<real>, x: seq<real>)
    requires IsRect(g, |x| + 1) && |row| == |x| + 1
    ensures Solves(g + [row], x) ==> Solves(g, x)
  {
    if Solves(g + [row], x) {
      forall i | 0 <= i < |g|
        ensures Residual(g[i], x) == 0.0
      {
        assert (g + [row])[i] == g[i];
      }
    }
  }

  /** The tableau the builder produces is in canonical form for the basis
      of slack columns. */
  lemma InitialTableauIsCanonical(g: Grid, n: nat, table: seq<seq<real>>, signs: seq<Sign>)
    requires WellShaped(n, table, signs) && IsInitialGrid(g, n, table, signs)
    ensures IsCanonical(g, InitialBasis(n, |table|), n + |table|)
  {
    var m := |table|;
    var basis := InitialBasis(n, m);
    forall i | 0 <= i < m
      ensures basis[i] < n + m && IsUnitColumn(g, basis[i], i)
    {
      forall k | 0 <= k < m
        ensures g[k][n + i] == (if k == i then 1.0 else 0.0)
      {
        assert g[k][n + i] == InitialEntry(n, table, signs, k, n + i);
      }
    }
  }

  // ---------------------------------------------------------------------
  // The pivot (Gauss-Jordan transform)

  /** The tableau after pivoting on (r, c): the pivot row is divided by the
      pivot, and every other row gets the pivot row, scaled by its own
      entry in column `c` over the pivot, subtracted from it. */
  function Pivot(g: Grid, r: nat, c: nat): (h: Grid)
    requires r < |g| && IsRect(g, |g[r]|) && c < |g[r]| && g[r][c] != 0.0
    ensures |h| == |g| && IsRect(h, |g[r]|)
    ensures h[r][c] == 1.0
    ensures forall i :: 0 <= i < |h| && i != r ==> h[i][c] == 0.0
    ensures forall j :: 0 <= j < |g[r]| ==> g[r][j] == g[r][c] * h[r][j]
    ensures forall i, j :: 0 <= i < |g| && i != r && 0 <= j < |g[r]| ==>
              h[i][j] == g[i][j] - (g[i][c] / g[r][c]) * g[r][j]
  {
    PivotEntries(g, r, c);
    var h := seq(|g|, i requires 0 <= i < |g| =>
      seq(|g[r]|, j requires 0 <= j < |g[r]| => PivotEntry(g, r, c, i, j)));
    assert forall i, j :: 0 <= i < |g| && 0 <= j < |g[r]| ==> h[i][j] == PivotEntry(g, r, c, i, j);
    h
  }

  /** Entry (i, j) after the pivot, computed as the transform does. */
  function PivotEntry(g: Grid, r: nat, c: nat, i: nat, j: nat): real
    requires r < |g| && IsRect(g, |g[r]|) && c < |g[r]| && g[r][c] != 0.0
    requires i < |g| && j < |g[r]|
  {
    var p := g[r][c];
    if i == r then g[r][j] / p else g[i][j] - (g[r][j] * g[i][c]) / p
  }

  /** The pivot entries, in the terms of the contract of Pivot. */
  lemma PivotEntries(g: Grid, r: nat, c: nat)
    requires r < |g| && IsRect(g, |g[r]|) && c < |g[r]| && g[r][c] != 0.0
    ensures PivotEntry(g, r, c, r, c) == 1.0
    ensures forall i :: 0 <= i < |g| && i != r ==> PivotEntry(g, r, c, i, c) == 0.0
    ensures forall j :: 0 <= j < |g[r]| ==> g[r][j] == g[r][c] * PivotEntry(g, r, c, r, j)
    ensures forall i, j :: 0 <= i < |g| && i != r && 0 <= j < |g[r]| ==>
              PivotEntry(g, r, c, i, j) == g[i][j] - (g[i][c] / g[r][c]) * g[r][j]
  {
    forall j | 0 <= j < |g[r]|
      ensures g[r][j] == g[r][c] * PivotEntry(g, r, c, r, j)
    {
      PivotRowEntry(g, r, c, j);
    }
    forall i, j | 0 <= i < |g| && i != r && 0 <= j < |g[r]|
      ensures PivotEntry(g, r, c, i, j) == g[i][j] - (g[i][c] / g[r][c]) * g[r][j]
    {
      OtherRowEntry(g, r, c, i, j);
    }
    forall i | 0 <= i < |g| && i != r
      ensures PivotEntry(g, r, c, i, c) == 0.0
    {
      OtherRowEntry(g, r, c, i, c);
      Quotient(g[r][c], g[i][c], g[r][c]);
    }
  }

  /** The pivot row is the old one divided by the pivot. */
  lemma PivotRowEntry(g: Grid, r: nat, c: nat, j: nat)
    requires r < |g| && IsRect(g, |g[r]|) && c < |g[r]| && g[r][c] != 0.0 && j < |g[r]|
    ensures g[r][j] == g[r][c] * PivotEntry(g, r, c, r, j)
  {
    Quotient(g[r][j], 1.0, g[r][c]);
  }

  /** Any other row loses its entry in column `c` times the pivot row over
      the pivot. */
  lemma OtherRowEntry(g: Grid, r: nat, c: nat, i: nat, j: nat)
    requires r < |g| && IsRect(g, |g[r]|) && c < |g[r]| && g[r][c] != 0.0
    requires i < |g| && i != r && j < |g[r]|
    ensures PivotEntry(g, r, c, i, j) == g[i][j] - (g[i][c] / g[r][c]) * g[r][j]
  {
    Quotient(g[r][j], g[i][c], g[r][c]);
  }

  /** Dividing a product by `p` is multiplying by a quotient over `p`. */
  lemma Quotient(u: real, v: real, p: real)
    requires p != 0.0
    ensures (u * v) / p == (v / p) * u && p * (u / p) == u && (v / p) * p == v
  {
    var q := v / p;
    assert q * p == v;
    assert (u * v) / p * p == u * v;
    assert q * u * p == u * v;
  }

  /** A pivot does not change the solution set of the row equations. */
  lemma PivotPreservesSolutions(g: Grid, r: nat, c: nat, x: seq<real>)
    requires r < |g| && IsRect(g, |x| + 1) && c < |x| && g[r][c] != 0.0
    ensures Solves(g, x) <==> Solves(Pivot(g, r, c), x)
  {
    var h := Pivot(g, r, c);
    PivotRowResidual(g, r, c, x);
    forall i | 0 <= i < |g| && i != r
      ensures Residual(h[i], x) == Residual(g[i], x) - (g[i][c] / g[r][c]) * Residual(g[r], x)
    {
      OtherRowResidual(g, r, c, x, i);
    }
  }

  /** The pivot row's residual is scaled by the pivot. */
  lemma PivotRowResidual(g: Grid, r: nat, c: nat, x: seq<real>)
    requires r < |g| && IsRect(g, |x| + 1) && c < |x| && g[r][c] != 0.0
    ensures Residual(g[r], x) == g[r][c] * Residual(Pivot(g, r, c)[r], x)
  {
    var h := Pivot(g, r, c);
    ResidualScale(g[r], h[r], g[r][c], x);
  }

  /** Any other row's residual loses the pivot row's, times its entry in
      the pivot column over the pivot. */
  lemma OtherRowResidual(g: Grid, r: nat, c: nat, x: seq<real>, i: nat)
    requires r < |g| && IsRect(g, |x| + 1) && c < |x| && g[r][c] != 0.0
    requires i < |g| && i != r
    ensures Residual(Pivot(g, r, c)[i], x) == Residual(g[i], x) - (g[i][c] / g[r][c]) * Residual(g[r], x)
  {
    var h := Pivot(g, r, c);
    ResidualCombination(h[i], g[i], g[r], g[i][c] / g[r][c], x);
  }

  /** Pivoting on a nonzero entry of a non-RHS column and making that column
      basic in the pivot row keeps the tableau canonical. */
  lemma PivotKeepsCanonical(g: Grid, basis: seq<nat>, b: nat, r: nat, c: nat)
    requires IsCanonical(g, basis, b) && r < |g| && c < b && g[r][c] != 0.0
    ensures IsCanonical(Pivot(g, r, c), basis[r := c], b)
  {
    var h := Pivot(g, r, c);
    var nb := basis[r := c];
    forall k | 0 <= k < |g|
      ensures nb[k] < b && IsUnitColumn(h, nb[k], k)
    {
      if k != r {
        var u := basis[k];
        assert g[r][u] == 0.0;
        forall i | 0 <= i < |g|
          ensures h[i][u] == (if i == k then 1.0 else 0.0)
        {
          if i == r {
            assert g[r][u] == g[r][c] * h[r][u];
          }
        }
      }
    }
  }

  // ---------------------------------------------------------------------
  // Reduced costs

  /** The sum over the first `k` rows of cost(basis[row]) * g[row][j]. */
  function BasisCostSum(z: seq<real>, g: Grid, basis: seq<nat>, j: nat, k: nat): real
    requires k <= |g| && |basis| == |g|
    requires forall i :: 0 <= i < |g| ==> j < |g[i]|
  {
    if k == 0 then 0.0
    else BasisCostSum(z, g, basis, j, k - 1) + Cost(z, basis[k - 1]) * g[k - 1][j]
  }

  /** The reduced cost (delta) of column `j`. */
  function ReducedCost(z: seq<real>, g: Grid, basis: seq<nat>, j: nat): real
    requires |basis| == |g|
    requires forall i :: 0 <= i < |g| ==> j < |g[i]|
  {
    BasisCostSum(z, g, basis, j, |g|) - Cost(z, j)
  }

  /** The reduced costs of every non-RHS column. */
  function ReducedCosts(z: seq<real>, g: Grid, basis: seq<nat>, b: nat): (d: seq<real>)
    requires |basis| == |g| && IsRect(g, b + 1)
    ensures |d| == b
  {
    seq(b, j requires 0 <= j < b => ReducedCost(z, g, basis, j))
  }

  lemma {:induction false} BasisCostSumOfUnitColumn(z: seq<real>, g: Grid, basis: seq<nat>, b: nat, r: nat, k: nat)
    requires IsCanonical(g, basis, b) && r < |g| && k <= |g|
    ensures BasisCostSum(z, g, basis, basis[r], k) == (if r < k then Cost(z, basis[r]) else 0.0)
  {
    if k > 0 {
      BasisCostSumOfUnitColumn(z, g, basis, b, r, k - 1);
    }
  }

  /** In canonical form every basic column has reduced cost 0, so it is
      never chosen to enter the basis. */
  lemma BasicColumnHasZeroReducedCost(z: seq<real>, g: Grid, basis: seq<nat>, b: nat, r: nat)
    requires IsCanonical(g, basis, b) && r < |g|
    ensures ReducedCost(z, g, basis, basis[r]) == 0.0
  {
    BasisCostSumOfUnitColumn(z, g, basis, b, r, |g|);
  }

  // ---------------------------------------------------------------------
  // The objective

  /** The objective over the first `k` columns, every column priced by
      Cost. */
  function CostSum(z: seq<real>, x: seq<real>, k: nat): real
    requires k <= |x|
  {
    if k == 0 then 0.0 else CostSum(z, x, k - 1) + Cost(z, k - 1) * x[k - 1]
  }

  /** Columns beyond the objective's coefficients (the slack columns) add
      nothing: pricing every column gives the objective on the structural
      values. */
  lemma {:induction false} CostSumIsObjective(z: seq<real>, x: seq<real>, k: nat)
    requires |z| <= k <= |x|
    ensures CostSum(z, x, k) == Dot(z, x[..|z|])
  {
    if k > |z| {
      CostSumIsObjective(z, x, k - 1);
    } else {
      CostSumOfStructural(z, x, k);
      RowSumIsDot(z, x, k);
      assert z[..k] == z;
    }
  }

  lemma {:induction false} CostSumOfStructural(z: seq<real>, x: seq<real>, k: nat)
    requires k <= |z| && k <= |x|
    ensures CostSum(z, x, k) == RowSum(z, x, k)
  {
    if k > 0 {
      CostSumOfStructural(z, x, k - 1);
    }
  }

  /** The sum over the first `k` columns of each column's basis-cost sum
      over the first `rows` rows, weighted by x. */
  function PricedSum(z: seq<real>, g: Grid, basis: seq<nat>, x: seq<real>, rows: nat, k: nat): real
    requires rows <= |g| && |basis| == |g| && k <= |x| && IsRect(g, |x| + 1)
  {
    if k == 0 then 0.0
    else PricedSum(z, g, basis, x, rows, k - 1) + BasisCostSum(z, g, basis, k - 1, rows) * x[k - 1]
  }

  /** The same double sum taken row by row: each basic cost times the
      row's inner product with x over the first `k` columns. */
  function RowCostSum(z: seq<real>, g: Grid, basis: seq<nat>, x: seq<real>, rows: nat, k: nat): real
    requires rows <= |g| && |basis| == |g| && k <= |x| && IsRect(g, |x| + 1)
  {
    if rows == 0 then 0.0
    else RowCostSum(z, g, basis, x, rows - 1, k) + Cost(z, basis[rows - 1]) * RowSum(g[rows - 1], x, k)
  }

  /** The reduced costs weighted by x over the first `k` columns. */
  function ReducedSum(z: seq<real>, g: Grid, basis: seq<nat>, x: seq<real>, k: nat): real
    requires |basis| == |g| && k <= |x| && IsRect(g, |x| + 1)
  {
    if k == 0 then 0.0
    else ReducedSum(z, g, basis, x, k - 1) + ReducedCost(z, g, basis, k - 1) * x[k - 1]
  }

  /** Adding column k - 1 to the row-by-row sum adds its basis-cost sum
      times x[k - 1]. */
  lemma {:induction false} RowCostSumStep(z: seq<real>, g: Grid, basis: seq<nat>, x: seq<real>, rows: nat, k: nat)
    requires rows <= |g| && |basis| == |g| && 0 < k <= |x| && IsRect(g, |x| + 1)
    ensures RowCostSum(z, g, basis, x, rows, k) ==
            RowCostSum(z, g, basis, x, rows, k - 1) + BasisCostSum(z, g, basis, k - 1, rows) * x[k - 1]
  {
    if rows > 0 {
      RowCostSumStep(z, g, basis, x, rows - 1, k);
      var c, u, v, y := Cost(z, basis[rows - 1]), RowSum(g[rows - 1], x, k - 1), g[rows - 1][k - 1], x[k - 1];
      var w := BasisCostSum(z, g, basis, k - 1, rows - 1);
      assert c * (u + v * y) == c * u + (c * v) * y;
      assert (w + c * v) * y == w * y + (c * v) * y;
    }
  }

  /** The double sum is the same taken column by column or row by row. */
  lemma {:induction false} SumsInterchange(z: seq<real>, g: Grid, basis: seq<nat>, x: seq<real>, rows: nat, k: nat)
    requires rows <= |g| && |basis| == |g| && k <= |x| && IsRect(g, |x| + 1)
    ensures PricedSum(z, g, basis, x, rows, k) == RowCostSum(z, g, basis, x, rows, k)
  {
    if k == 0 {
      RowCostSumOfNoColumns(z, g, basis, x, rows);
    } else {
      SumsInterchange(z, g, basis, x, rows, k - 1);
      RowCostSumStep(z, g, basis, x, rows, k);
    }
  }

  lemma {:induction false} RowCostSumOfNoColumns(z: seq<real>, g: Grid, basis: seq<nat>, x: seq<real>, rows: nat)
    requires rows <= |g| && |basis| == |g| && IsRect(g, |x| + 1)
    ensures RowCostSum(z, g, basis, x, rows, 0) == 0.0
  {
    if rows > 0 {
      RowCostSumOfNoColumns(z, g, basis, x, rows - 1);
    }
  }

  /** Pricing each column by its cost is pricing it by its basis-cost sum
      less its reduced cost. */
  lemma {:induction false} CostSumSplit(z: seq<real>, g: Grid, basis: seq<nat>, x: seq<real>, k: nat)
    requires |basis| == |g| && k <= |x| && IsRect(g, |x| + 1)
    ensures CostSum(z, x, k) == PricedSum(z, g, basis, x, |g|, k) - ReducedSum(z, g, basis, x, k)
  {
    if k > 0 {
      CostSumSplit(z, g, basis, x, k - 1);
      var p, d, y := BasisCostSum(z, g, basis, k - 1, |g|), ReducedCost(z, g, basis, k - 1), x[k - 1];
      assert Cost(z, k - 1) == p - d;
      assert (p - d) * y == p * y - d * y;
    }
  }

  /** For a solution x, each row's inner product with x is its RHS. */
  lemma {:induction false} RowCostSumOfSolution(z: seq<real>, g: Grid, basis: seq<nat>, x: seq<real>, rows: nat)
    requires rows <= |g| && |basis| == |g| && IsRect(g, |x| + 1) && Solves(g, x)
    ensures RowCostSum(z, g, basis, x, rows, |x|) == BasisCostSum(z, g, basis, |x|, rows)
  {
    if rows > 0 {
      RowCostSumOfSolution(z, g, basis, x, rows - 1);
      var row := g[rows - 1];
      RowSumIsDot(row, x, |x|);
      assert x[..|x|] == x;
      assert Residual(row, x) == 0.0;
    }
  }

  /** The objective of any solution of a tableau is the basis costs times
      the RHS, less the reduced costs weighted by the solution. */
  lemma ObjectiveThroughReducedCosts(z: seq<real>, g: Grid, basis: seq<nat>, x: seq<real>)
    requires |basis| == |g| && IsRect(g, |x| + 1) && Solves(g, x)
    ensures CostSum(z, x, |x|) == BasisCostSum(z, g, basis, |x|, |g|) - ReducedSum(z, g, basis, x, |x|)
  {
    CostSumSplit(z, g, basis, x, |x|);
    SumsInterchange(z, g, basis, x, |g|, |x|);
    RowCostSumOfSolution(z, g, basis, x, |g|);
  }

  /** Non-negative reduced costs weighted by non-negative values sum to a
      non-negative value. */
  lemma {:induction false} ReducedSumNonNegative(z: seq<real>, g: Grid, basis: seq<nat>, x: seq<real>, k: nat)
    requires |basis| == |g| && k <= |x| && IsRect(g, |x| + 1) && NonNegative(x)
    requires forall j :: 0 <= j < k ==> 0.0 <= ReducedCost(z, g, basis, j)
    ensures 0.0 <= ReducedSum(z, g, basis, x, k)
  {
    if k > 0 {
      ReducedSumNonNegative(z, g, basis, x, k - 1);
      assert 0.0 <= ReducedCost(z, g, basis, k - 1) * x[k - 1];
    }
  }

  /** At the values read off a canonical tableau every weighted reduced
      cost vanishes: basic columns have reduced cost 0, the others value
      0. */
  lemma {:induction false} ReducedSumOfCanonicalSolution(z: seq<real>, g: Grid, basis: seq<nat>, b: nat, k: nat)
    requires IsCanonical(g, basis, b) && k <= b
    ensures ReducedSum(z, g, basis, Solution(g, basis, b), k) == 0.0
  {
    if k > 0 {
      ReducedSumOfCanonicalSolution(z, g, basis, b, k - 1);
      var r := FirstIndexOf(basis, k - 1);
      if r < |basis| {
        BasicColumnHasZeroReducedCost(z, g, basis, b, r);
      }
    }
  }

  /** Simplex optimality: in a canonical tableau with no negative reduced
      cost, no non-negative solution has a larger objective than the
      values read off the basis. */
  lemma CanonicalOptimality(z: seq<real>, g: Grid, basis: seq<nat>, b: nat, x: seq<real>)
    requires IsCanonical(g, basis, b) && forall j :: 0 <= j < b ==> 0.0 <= ReducedCost(z, g, basis, j)
    requires |x| == b && Solves(g, x) && NonNegative(x)
    ensures CostSum(z, x, b) <= CostSum(z, Solution(g, basis, b), b)
  {
    var s := Solution(g, basis, b);
    ObjectiveThroughReducedCosts(z, g, basis, x);
    ReducedSumNonNegative(z, g, basis, x, b);
    SolutionSolvesCanonicalTableau(g, basis, b);
    ObjectiveThroughReducedCosts(z, g, basis, s);
    ReducedSumOfCanonicalSolution(z, g, basis, b, b);
  }

  /** A canonical tableau with no negative reduced cost whose solutions
      include every solution of the initial tableau: no non-negative
      values meeting every constraint have a larger objective than the
      values read off the basis. */
  lemma OptimumMaximizesObjective(z: seq<real>, g: Grid, basis: seq<nat>, b: nat, g0: Grid,
                                  table: seq<seq<real>>, signs: seq<Sign>)
    requires WellShaped(|z|, table, signs) && IsInitialGrid(g0, |z|, table, signs) && b == |z| + |table|
    requires IsCanonical(g, basis, b) && forall j :: 0 <= j < b ==> 0.0 <= ReducedCost(z, g, basis, j)
    requires forall x: seq<real> | |x| == b :: Solves(g0, x) ==> Solves(g, x)
    ensures forall y: seq<real> | |y| == |z| && NonNegative(y) && MeetsConstraints(|z|, table, signs, y) ::
              Dot(z, y) <= Dot(z, Solution(g, basis, b)[..|z|])
  {
    var n := |z|;
    var s := Solution(g, basis, b);
    CostSumIsObjective(z, s, b);
    forall y: seq<real> | |y| == n && NonNegative(y) && MeetsConstraints(n, table, signs, y)
      ensures Dot(z, y) <= Dot(z, s[..n])
    {
      var x := WithSlacks(n, table, signs, y);
      ConstraintsGiveInitialSolution(g0, n, table, signs, y);
      CanonicalOptimality(z, g, basis, b, x);
      CostSumIsObjective(z, x, b);
    }
  }

  // ---------------------------------------------------------------------
  // Selection rules (ties go to the first candidate, as the scans compare
  // with a strict < or >)

  /** `k` is the first position of the minimum of `s`. */
  predicate IsFirstMin(s: seq<real>, k: nat) {
    k < |s| &&
    (forall i :: 0 <= i < |s| ==> s[k] <= s[i]) &&
    (forall i :: 0 <= i < k ==> s[k] < s[i])
  }

  /** The RHS column. */
  function Rhs(g: Grid, b: nat): (s: seq<real>)
    requires forall i :: 0 <= i < |g| ==> b < |g[i]|
    ensures |s| == |g|
  {
    seq(|g|, i requires 0 <= i < |g| => g[i][b])
  }

  predicate RhsNonNegative(g: Grid, b: nat)
    requires forall i :: 0 <= i < |g| ==> b < |g[i]|
  {
    forall i :: 0 <= i < |g| ==> 0.0 <= g[i][b]
  }

  /** `c` is the first column before `limit` with a negative entry. */
  predicate IsFirstNegative(row: seq<real>, limit: nat, c: nat)
    requires limit <= |row|
  {
    c < limit && row[c] < 0.0 && forall j :: 0 <= j < c ==> 0.0 <= row[j]
  }

  /** Row `k` passes the minimum-ratio test for entering column `e`: its
      entry is positive and its RHS-to-entry ratio is the first least
      among the rows with a positive entry. */
  predicate IsMinRatioRow(g: Grid, e: nat, b: nat, k: nat)
    requires forall i :: 0 <= i < |g| ==> e < |g[i]| && b < |g[i]|
  {
    k < |g| && 0.0 < g[k][e] &&
    (forall i :: 0 <= i < |g| && 0.0 < g[i][e] ==> g[k][b] / g[k][e] <= g[i][b] / g[i][e]) &&
    (forall i :: 0 <= i < k && 0.0 < g[i][e] ==> g[k][b] / g[k][e] < g[i][b] / g[i][e])
  }

  /** The minimum-ratio pivot keeps every RHS non-negative. */
  lemma RatioTestKeepsRhsNonNegative(g: Grid, e: nat, b: nat, r: nat)
    requires IsRect(g, b + 1) && e < b && IsMinRatioRow(g, e, b, r)
    requires RhsNonNegative(g, b)
    ensures RhsNonNegative(Pivot(g, r, e), b)
  {
    var h := Pivot(g, r, e);
    var p := g[r][e];
    forall i | 0 <= i < |g| && i != r
      ensures 0.0 <= h[i][b]
    {
      RatioRowStaysNonNegative(g[i][b], g[i][e], g[r][b], p);
    }
    QuotientNonNegative(g[r][b], p, h[r][b]);
  }

  /** Row i's RHS after the pivot, u - (v / p) * w, stays non-negative when
      its ratio u / v is at least the pivot row's w / p. */
  lemma RatioRowStaysNonNegative(u: real, v: real, w: real, p: real)
    requires 0.0 < p && 0.0 <= w && 0.0 <= u
    requires 0.0 < v ==> w / p <= u / v
    ensures 0.0 <= u - (v / p) * w
  {
    var theta := w / p;
    assert w == p * theta;
    assert (v / p) * w == v * theta by {
      Quotient(w, v, p);
      assert (v / p) * w == (w * v) / p;
      Quotient(v, w, p);
    }
    if 0.0 < v {
      assert v * theta <= v * (u / v);
    }
  }

  /** A non-negative value over a positive pivot is non-negative. */
  lemma QuotientNonNegative(w: real, p: real, q: real)
    requires 0.0 < p && 0.0 <= w && w == p * q
    ensures 0.0 <= q
  {
  }

  // ---------------------------------------------------------------------
  // Gomory cuts

  /** A RHS value the cut generator can pick: not 0, not 1, and with a
      positive fractional part under truncation toward zero. */
  predicate IsCutCandidate(x: real) {
    x != 0.0 && x != 1.0 && 0.0 < FracPart(x)
  }

  /** A RHS value that is not a candidate is an integer or negative. */
  lemma NonCandidateIsIntegerOrNegative(x: real)
    requires !IsCutCandidate(x)
    ensures IsInteger(x) || x < 0.0
  {
    if x == 1.0 {
      assert 1.0 == (1 as real);
    }
  }

  /** The state in which the solver stops with an optimum: no reduced cost
      is negative and no RHS is a cut candidate. */
  predicate IsFinalTableau(z: seq<real>, g: Grid, basis: seq<nat>, b: nat)
    requires |basis| == |g| && IsRect(g, b + 1)
  {
    (forall j :: 0 <= j < b ==> 0.0 <= ReducedCost(z, g, basis, j)) && NoCutCandidate(g, b)
  }

  /** No RHS is a cut candidate. */
  predicate NoCutCandidate(g: Grid, b: nat)
    requires IsRect(g, b + 1)
  {
    forall i :: 0 <= i < |g| ==> !IsCutCandidate(g[i][b])
  }

  /** In a final tableau every non-negative RHS is an integer, so are the
      values read off it, and they are non-negative when every RHS is. */
  lemma FinalSolutionIsIntegral(g: Grid, basis: seq<nat>, b: nat)
    requires |basis| == |g| && IsRect(g, b + 1) && NoCutCandidate(g, b) && RhsNonNegative(g, b)
    ensures forall j :: 0 <= j < b ==> 0.0 <= Solution(g, basis, b)[j] && IsInteger(Solution(g, basis, b)[j])
  {
    var x := Solution(g, basis, b);
    forall j | 0 <= j < b
      ensures 0.0 <= x[j] && IsInteger(x[j])
    {
      var k := FirstIndexOf(basis, j);
      if k < |basis| {
        NonCandidateIsIntegerOrNegative(g[k][b]);
      } else {
        assert x[j] == 0.0 == (0 as real);
      }
    }
  }

  /** `k` is the first row whose RHS is a candidate with the largest
      fractional part. */
  predicate IsCutSourceRow(s: seq<real>, k: nat) {
    k < |s| && IsCutCandidate(s[k]) &&
    (forall i :: 0 <= i < |s| && IsCutCandidate(s[i]) ==> FracPart(s[i]) <= FracPart(s[k])) &&
    (forall i :: 0 <= i < k && IsCutCandidate(s[i]) ==> FracPart(s[i]) < FracPart(s[k]))
  }

  /** The cut row derived from a tableau row: the negated fractional parts
      of its entries, RHS included. */
  function CutRow(row: seq<real>): (cut: seq<real>)
    ensures |cut| == |row|
    ensures forall j :: 0 <= j < |row| ==> -1.0 < cut[j] < 1.0 && IsInteger(row[j] + cut[j])
    ensures forall j :: 0 <= j < |row| ==> (cut[j] == 0.0 <==> IsInteger(row[j]))
    ensures forall j :: 0 <= j < |row| && 0.0 <= row[j] ==> cut[j] <= 0.0
    ensures forall j :: 0 <= j < |row| && row[j] < 0.0 ==> 0.0 <= cut[j]
    ensures forall j :: 0 <= j < |row| && IsCutCandidate(row[j]) ==> -1.0 < cut[j] < 0.0
  {
    seq(|row|, j requires 0 <= j < |row| => -FracPart(row[j]))
  }

  /** The tableau row of the counterexample: x_B - 1/2 x_1 = 1/2. Its
      integer point x_B = 1, x_1 = 1 violates the cut derived from it, with
      or without a non-negative surplus variable. */
  lemma TruncatedCutExcludesIntegerPoint()
    ensures var row, x := [1.0, -0.5, 0.5], [1.0, 1.0];
            Residual(row, x) == 0.0 && IsInteger(x[0]) && IsInteger(x[1]) &&
            0.0 < Residual(CutRow(row), x)
  {
    var row, x := [1.0, -0.5, 0.5], [1.0, 1.0];
    assert Trunc(-0.5) == 0 && Trunc(0.5) == 0 && Trunc(1.0) == 1;
    var cut := CutRow(row);
    assert cut == [0.0, 0.5, -0.5];
    assert row[..2] == [1.0, -0.5] && cut[..2] == [0.0, 0.5];
    assert Dot([-0.5], [1.0]) == -0.5 && Dot([0.5], [1.0]) == 0.5;
    assert Dot(row[..2], x) == 0.5 && Dot(cut[..2], x) == 0.5;
  }

  /** Gomory's fractional cut: the negated floor-based fractional parts of
      a tableau row's entries, RHS included. */
  function FloorCutRow(row: seq<real>): (cut: seq<real>)
    ensures |cut| == |row|
    ensures forall j :: 0 <= j < |row| ==> -1.0 < cut[j] <= 0.0 && IsInteger(row[j] + cut[j])
    ensures forall j :: 0 <= j < |row| && 0.0 <= row[j] ==> cut[j] == CutRow(row)[j]
  {
    seq(|row|, j requires 0 <= j < |row| => -FloorFracPart(row[j]))
  }

  /** Every non-negative integer point solving a tableau row satisfies the
      cut derived from it, once a non-negative surplus is added: the cut's
      residual is never positive. */
  lemma FloorCutIsValid(row: seq<real>, x: seq<real>)
    requires |row| == |x| + 1 && Residual(row, x) == 0.0
    requires forall j :: 0 <= j < |x| ==> 0.0 <= x[j] && IsInteger(x[j])
    ensures Residual(FloorCutRow(row), x) <= 0.0
  {
    var n := |x|;
    var frac := FloorFracParts(row[..n]);
    FractionalPartsSplit(row[..n], x);
    FloorCutDot(row, x);
    // Dot(frac, x) - f is an integer above -1, hence not negative.
    var f := FloorFracPart(row[n]);
    IntegerDifference(row[n] - f, row[n] - Dot(frac, x));
    assert (row[n] - f) - (row[n] - Dot(frac, x)) == Dot(frac, x) - f;
    IntegerAboveMinusOne(Dot(frac, x) - f);
  }

  /** The cut's coefficients are the negated fractional parts of the row's. */
  lemma FloorCutDot(row: seq<real>, x: seq<real>)
    requires |row| == |x| + 1
    ensures Dot(FloorCutRow(row)[..|x|], x) == -Dot(FloorFracParts(row[..|x|]), x)
  {
    var n := |x|;
    var negated := FloorCutRow(row)[..n];
    var frac := FloorFracParts(row[..n]);
    forall j | 0 <= j < n
      ensures negated[j] == -frac[j]
    {
      assert row[..n][j] == row[j];
    }
    DotNegate(negated, frac, x);
  }

  /** On a row whose entries are all non-negative, the cut the solver
      appends is Gomory's fractional cut, so it keeps every non-negative
      integer point of the row. */
  lemma CutRowIsValidForNonNegativeRow(row: seq<real>, x: seq<real>)
    requires |row| == |x| + 1 && Residual(row, x) == 0.0
    requires forall j :: 0 <= j < |row| ==> 0.0 <= row[j]
    requires forall j :: 0 <= j < |x| ==> 0.0 <= x[j] && IsInteger(x[j])
    ensures Residual(CutRow(row), x) <= 0.0
  {
    FloorCutIsValid(row, x);
    assert CutRow(row) == FloorCutRow(row);
  }

  // ---------------------------------------------------------------------
  // Solution extraction

  /** The first position of `j` in `basis`, or |basis| when absent
      (std::find). */
  function FirstIndexOf(basis: seq<nat>, j: nat): (k: nat)
    ensures k <= |basis|
    ensures k < |basis| ==> basis[k] == j
    ensures forall i :: 0 <= i < k ==> basis[i] != j
  {
    if |basis| == 0 then 0
    else if basis[0] == j then 0
    else 1 + FirstIndexOf(basis[1..], j)
  }

  /** The value of every non-RHS column: the RHS of the first row whose
      basic variable it is, or 0 when no row names it. */
  function Solution(g: Grid, basis: seq<nat>, b: nat): (x: seq<real>)
    requires |basis| == |g| && forall i :: 0 <= i < |g| ==> b < |g[i]|
    ensures |x| == b
  {
    seq(b, j requires 0 <= j < b =>
      var k := FirstIndexOf(basis, j);
      if k < |basis| then g[k][b] else 0.0)
  }

  /** In canonical form the extracted values solve every row equation. */
  lemma SolutionSolvesCanonicalTableau(g: Grid, basis: seq<nat>, b: nat)
    requires IsCanonical(g, basis, b)
    ensures Solves(g, Solution(g, basis, b))
  {
    var x := Solution(g, basis, b);
    forall i | 0 <= i < |g|
      ensures Residual(g[i], x) == 0.0
    {
      var p := basis[i];
      var row := g[i][..b];
      assert FirstIndexOf(basis, p) == i by {
        var k := FirstIndexOf(basis, p);
        assert k <= i;
        assert IsUnitColumn(g, basis[k], k);
        assert g[i][basis[k]] == (if i == k then 1.0 else 0.0);
      }
      assert x[p] == g[i][b];
      forall j | 0 <= j < b && j != p
        ensures row[j] * x[j] == 0.0
      {
        var k := FirstIndexOf(basis, j);
        if k < |basis| {
          assert k != i;
          assert g[i][basis[k]] == 0.0;
        }
      }
      DotSingleTerm(row, x, p);
    }
  }

  /** A canonical tableau with non-negative, integral RHS whose solutions all
      solve the initial tableau yields values that meet every constraint,
      each non-negative and an integer. */
  lemma OptimumMeetsConstraints(g: Grid, basis: seq<nat>, b: nat, g0: Grid,
                                n: nat, table: seq<seq<real>>, signs: seq<Sign>)
    requires WellShaped(n, table, signs) && IsInitialGrid(g0, n, table, signs) && b == n + |table|
    requires IsCanonical(g, basis, b) && NoCutCandidate(g, b) && RhsNonNegative(g, b)
    requires forall x: seq<real> | |x| == b :: Solves(g, x) ==> Solves(g0, x)
    ensures var x := Solution(g, basis, b);
            MeetsConstraints(n, table, signs, x[..n]) &&
            forall j :: 0 <= j < n ==> 0.0 <= x[j] && IsInteger(x[j])
  {
    var x := Solution(g, basis, b);
    IntegralOptimum(g, basis, b);
    assert Solves(g, x) && NonNegative(x);
    assert Solves(g0, x);
    InitialSolutionMeetsConstraints(g0, n, table, signs, x);
  }

  /** The values read off a canonical tableau with non-negative, integral
      RHS solve it, and are non-negative integers. */
  lemma IntegralOptimum(g: Grid, basis: seq<nat>, b: nat)
    requires IsCanonical(g, basis, b) && NoCutCandidate(g, b) && RhsNonNegative(g, b)
    ensures var x := Solution(g, basis, b);
            Solves(g, x) && NonNegative(x) && forall j :: 0 <= j < b ==> IsInteger(x[j])
  {
    SolutionSolvesCanonicalTableau(g, basis, b);
    FinalSolutionIsIntegral(g, basis, b);
  }

  /** A tableau with an infeasible row, whose solutions include every
      solution of the initial tableau, shows that no non-negative values
      meet all constraints. */
  lemma InfeasibleRowRulesOutConstraints(g: Grid, r: nat, b: nat, g0: Grid,
                                         n: nat, table: seq<seq<real>>, signs: seq<Sign>)
    requires WellShaped(n, table, signs) && IsInitialGrid(g0, n, table, signs) && b == n + |table|
    requires IsRect(g, b + 1) && r < |g| && IsInfeasibleRow(g[r], b)
    requires forall x: seq<real> | |x| == b :: Solves(g0, x) ==> Solves(g, x)
    ensures forall y: seq<real> | |y| == n && NonNegative(y) :: !MeetsConstraints(n, table, signs, y)
  {
    forall y: seq<real> | |y| == n && NonNegative(y)
      ensures !MeetsConstraints(n, table, signs, y)
    {
      if MeetsConstraints(n, table, signs, y) {
        var x := WithSlacks(n, table, signs, y);
        ConstraintsGiveInitialSolution(g0, n, table, signs, y);
        InfeasibleRowHasNoSolution(g, r, x);
      }
    }
  }
}
