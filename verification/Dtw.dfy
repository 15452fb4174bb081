/** dtw.cpp: the two dynamic programs that fill the cost matrix and the trace back through it. */
module Dtw {
  import opened WarpPaths

  datatype WarpInfo = WarpInfo(path: seq<Cell>, cost: Cost)

  // ----- the trace back

  predicate Rectangle(m: Matrix, width: nat, height: nat) {
    |m| == width && forall x :: 0 <= x < width ==> |m[x]| == height
  }

  /** Entries computed by the dynamic programs: `Infinity` is never stored. */
  ghost predicate Stored(m: Matrix, width: nat, height: nat) {
    && Rectangle(m, width, height)
    && forall x, y :: 0 <= x < width && 0 <= y < height ==> !m[x][y].Infinity?
  }

  /** The cell calculatePath moves to from (x, y). */
  function Previous(m: Matrix, width: nat, height: nat, x: nat, y: nat): (c: Cell)
    requires Stored(m, width, height) && x < width && y < height && (x > 0 || y > 0)
    ensures Step(c, Cell(x, y))
  {
    var diagonal := if x > 0 && y > 0 then m[x - 1][y - 1] else Infinity;
    var left := if x > 0 then m[x - 1][y] else Infinity;
    var down := if y > 0 then m[x][y - 1] else Infinity;
    if Le(diagonal, left) && Le(diagonal, down) then Cell(x - 1, y - 1)
    else if Lt(left, diagonal) && Lt(left, down) then Cell(x - 1, y)
    else if Lt(down, diagonal) && Lt(down, left) then Cell(x, y - 1)
    else if x <= y then Cell(x, y - 1)
    else Cell(x - 1, y)
  }

  /** Whatever tie is broken, the trace moves to a cheapest neighbour. */
  lemma PreviousIsCheapest(m: Matrix, width: nat, height: nat, x: nat, y: nat)
    requires Stored(m, width, height) && x < width && y < height && (x > 0 || y > 0)
    ensures var c := Previous(m, width, height, x, y);
      forall a: Cell :: Step(a, Cell(x, y)) ==> Le(m[c.x][c.y], m[a.x][a.y])
  {
  }

  /** How ties are broken: a diagonal as cheap as both others is taken, and between the other two the
      trace moves towards the main diagonal, down from the diagonal itself. */
  lemma TiesApproachDiagonal(m: Matrix, width: nat, height: nat, x: nat, y: nat)
    requires Stored(m, width, height) && x < width && y < height && 0 < x && 0 < y
    ensures var c, diagonal := Previous(m, width, height, x, y), m[x - 1][y - 1];
      && (Le(diagonal, m[x - 1][y]) && Le(diagonal, m[x][y - 1]) <==> c.x - c.y == x - y)
      && (m[x - 1][y] == m[x][y - 1] && Lt(m[x][y - 1], diagonal) ==>
        if x > y then c.x - c.y == x - y - 1 else c.x - c.y == x - y + 1)
  {
  }

  function Trace(m: Matrix, width: nat, height: nat, x: nat, y: nat): (p: seq<Cell>)
    requires Stored(m, width, height) && x < width && y < height
    decreases x + y
  {
    if x == 0 && y == 0 then [Cell(0, 0)]
    else
      var c := Previous(m, width, height, x, y);
      Trace(m, width, height, c.x, c.y) + [Cell(x, y)]
  }

  /** The traced sequence is a warp path, whatever the matrix holds. */
  lemma {:induction false} TraceIsWarpPath(m: Matrix, width: nat, height: nat, x: nat, y: nat)
    requires Stored(m, width, height) && x < width && y < height
    ensures WarpPath(Trace(m, width, height, x, y), x, y)
    decreases x + y
  {
    if x > 0 || y > 0 {
      var c := Previous(m, width, height, x, y);
      TraceIsWarpPath(m, width, height, c.x, c.y);
    }
  }

  lemma TableIsStored(P: Problem, rule: Rule)
    ensures Stored(Table(P, rule), |P.xs|, |P.ys|)
  {
    forall x: nat, y: nat | x < |P.xs| && y < |P.ys|
      ensures !Table(P, rule)[x][y].Infinity?
    {
      BestIsNeverInfinity(P, rule, x, y);
    }
  }

  function TraceOf(P: Problem, rule: Rule, x: nat, y: nat): seq<Cell>
    requires x < |P.xs| && y < |P.ys|
  {
    TableIsStored(P, rule);
    Trace(Table(P, rule), |P.xs|, |P.ys|, x, y)
  }

  /** Tracing through a finite entry stays on allowed cells and totals at most that entry. */
  lemma {:induction false} TraceCostsAtMostBest(P: Problem, rule: Rule, x: nat, y: nat)
    requires x < |P.xs| && y < |P.ys| && Best(P, rule, x, y).Finite?
    ensures WarpPath(TraceOf(P, rule, x, y), x, y)
    ensures forall i :: 0 <= i < |TraceOf(P, rule, x, y)| ==>
      rule.Allows(TraceOf(P, rule, x, y)[i].x, TraceOf(P, rule, x, y)[i].y)
    ensures Total(P, TraceOf(P, rule, x, y)) <= Best(P, rule, x, y).v
    decreases x + y
  {
    TableIsStored(P, rule);
    var m, width, height := Table(P, rule), |P.xs|, |P.ys|;
    TraceIsWarpPath(m, width, height, x, y);
    if x == 0 && y == 0 {
      assert Trace(m, width, height, 0, 0)[..0] == [];
    } else {
      var a := BestHasPredecessor(P, rule, x, y);
      var c := Previous(m, width, height, x, y);
      PreviousIsCheapest(m, width, height, x, y);
      assert Le(m[c.x][c.y], m[a.x][a.y]);
      TraceCostsAtMostBest(P, rule, c.x, c.y);
      var q := TraceOf(P, rule, c.x, c.y);
      assert (q + [Cell(x, y)])[..|q|] == q;
    }
  }

  /** Inside a window the traced path attains the entry exactly. */
  lemma {:induction false} TraceAttainsWindow(P: Problem, columns: seq<Column>, x: nat, y: nat)
    requires x < |P.xs| && y < |P.ys| && Best(P, Window(columns), x, y).Finite?
    ensures WarpPath(TraceOf(P, Window(columns), x, y), x, y)
      && Obeys(Window(columns), TraceOf(P, Window(columns), x, y))
    ensures Total(P, TraceOf(P, Window(columns), x, y)) == Best(P, Window(columns), x, y).v
  {
    TraceCostsAtMostBest(P, Window(columns), x, y);
    BestIsLowerBound(P, Window(columns), TraceOf(P, Window(columns), x, y), x, y);
  }

  /** getCost leaves out the left neighbour above row 0, so its cost can exceed the optimum. */
  lemma GetCostCanExceedOptimum(dist: (Point, Point) -> real)
    requires dist([0.0], [0.0]) == dist([5.0], [5.0]) == 0.0 && dist([0.0], [5.0]) == dist([5.0], [0.0]) == 5.0
    ensures var P := Problem([[0.0], [5.0], [5.0]], [[0.0], [5.0]], dist);
      Best(P, RowZero, 2, 1) == Finite(5.0) && Le(Optimum(P), Finite(0.0))
  {
    var P := Problem([[0.0], [5.0], [5.0]], [[0.0], [5.0]], dist);
    assert Best(P, RowZero, 0, 0) == Finite(0.0);
    assert Best(P, RowZero, 1, 0) == Finite(5.0);
    assert Best(P, RowZero, 2, 0) == Finite(10.0);
    assert Best(P, RowZero, 2, 1) == Finite(5.0);
    var p := [Cell(0, 0), Cell(1, 1), Cell(2, 1)];
    calc {
      Total(P, p);
      { assert p[..2] == [Cell(0, 0), Cell(1, 1)]; }
      Total(P, [Cell(0, 0), Cell(1, 1)]) + 0.0;
      { assert [Cell(0, 0), Cell(1, 1)][..1] == [Cell(0, 0)]; }
      Total(P, [Cell(0, 0)]);
      { assert [Cell(0, 0)][..0] == []; }
      0.0;
    }
    OptimumIsMinimum(P);
  }

  // ----- the class

  function Put(m: Matrix, x: nat, y: nat, c: Cost): (r: Matrix)
    requires x < |m| && y < |m[x]|
    ensures |r| == |m| && forall u :: 0 <= u < |m| ==> |r[u]| == |m[u]|
    ensures forall u, v :: 0 <= u < |m| && 0 <= v < |m[u]| ==> r[u][v] == if u == x && v == y then c else m[u][v]
  {
    m[x := m[x][y := c]]
  }

  /** The columns before x, and the rows before y in column x, hold the recurrence. */
  ghost predicate Filled(P: Problem, rule: Rule, m: Matrix, x: nat, y: nat) {
    && Rectangle(m, |P.xs|, |P.ys|)
    && forall u, v :: 0 <= u < |m| && 0 <= v < |P.ys| && (u < x || (u == x && v < y)) ==> m[u][v] == Best(P, rule, u, v)
  }

  /** Everything from row y of column x on still holds numeric_limits::max(). */
  ghost predicate Blank(m: Matrix, x: nat, y: nat) {
    forall u, v :: x <= u < |m| && 0 <= v < |m[u]| && (u == x ==> y <= v) ==> m[u][v] == Max
  }

  lemma PutFills(P: Problem, rule: Rule, m: Matrix, x: nat, y: nat)
    requires Filled(P, rule, m, x, y) && x < |P.xs| && y < |P.ys|
    ensures Filled(P, rule, Put(m, x, y, Best(P, rule, x, y)), x, y + 1)
    ensures Blank(m, x, y) ==> Blank(Put(m, x, y, Best(P, rule, x, y)), x, y + 1)
  {
  }

  /** The next entry, computed from the entries before it: from the diagonal and the cell below
      for getCost, from all three neighbours in a window. */
  lemma NextEntry(P: Problem, rule: Rule, m: Matrix, x: nat, y: nat)
    requires Filled(P, rule, m, x, y) && x < |P.xs| && y < |P.ys| && rule.Allows(x, y)
    ensures var d := P.dist(P.xs[x], P.ys[y]);
      Best(P, rule, x, y) ==
        if x == 0 && y == 0 then Finite(d)
        else if x == 0 then Plus(d, m[0][y - 1])
        else if y == 0 then Plus(d, m[x - 1][0])
        else if rule.RowZero? then Plus(d, Min(m[x - 1][y - 1], m[x][y - 1]))
        else Plus(d, Min(m[x - 1][y], Min(m[x - 1][y - 1], m[x][y - 1])))
  {
    if x > 0 { assert m[x - 1][y] == Best(P, rule, x - 1, y); }
    if y > 0 { assert m[x][y - 1] == Best(P, rule, x, y - 1); }
    if x > 0 && y > 0 { assert m[x - 1][y - 1] == Best(P, rule, x - 1, y - 1); }
  }

  lemma FilledIsTable(P: Problem, rule: Rule, m: Matrix)
    requires Filled(P, rule, m, |P.xs|, 0)
    ensures m == Table(P, rule)
  {
    assert forall x :: 0 <= x < |m| ==> m[x] == Table(P, rule)[x];
  }

  /** Rows of a column outside the window are Max on both sides. */
  lemma SkipOutside(P: Problem, rule: Rule, m: Matrix, x: nat, from: nat, to: nat)
    requires Filled(P, rule, m, x, from) && Blank(m, x, from) && from <= to <= |P.ys| && x < |P.xs|
    requires forall v: nat :: from <= v < to ==> !rule.Allows(x, v)
    ensures Filled(P, rule, m, x, to) && Blank(m, x, to)
  {
    forall v: nat | from <= v < to
      ensures Best(P, rule, x, v) == Max
    {
      assert !rule.Allows(x, v);
    }
  }

  class DtwMatrix {
    const dist: (Point, Point) -> real
    var costMatrix: Matrix

    constructor (dist: (Point, Point) -> real)
      ensures this.dist == dist
    {
      this.dist := dist;
      costMatrix := [];
    }

    /** The two-neighbour dynamic program, on the longer series first. */
    method GetCost(seriesX: seq<Point>, seriesY: seq<Point>) returns (cost: Cost)
      requires 0 < |seriesX| && 0 < |seriesY|
      modifies this
      ensures var P := if |seriesX| < |seriesY| then Problem(seriesY, seriesX, dist)
        else Problem(seriesX, seriesY, dist);
        costMatrix == Table(P, RowZero) && cost == Best(P, RowZero, |P.xs| - 1, |P.ys| - 1)
      decreases if |seriesX| < |seriesY| then 1 else 0
    {
      if |seriesX| < |seriesY| {
        cost := GetCost(seriesY, seriesX);
        return;
      }
      hide Best, Plus, Min, Put;
      ghost var P := Problem(seriesX, seriesY, dist);
      costMatrix := [];
      for framesX := 0 to |seriesX|
        invariant Rectangle(costMatrix, framesX, |seriesY|)
      {
        costMatrix := costMatrix + [seq(|seriesY|, _ => Finite(0.0))];
      }
      var maxX, maxY := |seriesX| - 1, |seriesY| - 1;

      NextEntry(P, RowZero, costMatrix, 0, 0);
      PutFills(P, RowZero, costMatrix, 0, 0);
      costMatrix := Put(costMatrix, 0, 0, Finite(dist(seriesX[0], seriesY[0])));
      for y := 1 to maxY + 1
        invariant Filled(P, RowZero, costMatrix, 0, y)
      {
        NextEntry(P, RowZero, costMatrix, 0, y);
        PutFills(P, RowZero, costMatrix, 0, y);
        costMatrix := Put(costMatrix, 0, y, Plus(dist(seriesX[0], seriesY[y]), costMatrix[0][y - 1]));
      }

      for x := 1 to maxX + 1
        invariant Filled(P, RowZero, costMatrix, x, 0)
      {
        NextEntry(P, RowZero, costMatrix, x, 0);
        PutFills(P, RowZero, costMatrix, x, 0);
        costMatrix := Put(costMatrix, x, 0, Plus(dist(seriesX[x], seriesY[0]), costMatrix[x - 1][0]));
        for y := 1 to maxY + 1
          invariant Filled(P, RowZero, costMatrix, x, y)
        {
          var minGlobalCost := Min(costMatrix[x - 1][y - 1], costMatrix[x][y - 1]);
          NextEntry(P, RowZero, costMatrix, x, y);
          PutFills(P, RowZero, costMatrix, x, y);
          costMatrix := Put(costMatrix, x, y, Plus(dist(seriesX[x], seriesY[y]), minGlobalCost));
        }
      }
      FilledIsTable(P, RowZero, costMatrix);
      cost := costMatrix[maxX][maxY];
    }

    /** The trace back from the last cell; new cells are inserted at the front of the path. */
    method CalculatePath(seriesXSize: nat, seriesYSize: nat) returns (path: seq<Cell>)
      requires 0 < seriesXSize && 0 < seriesYSize && Stored(costMatrix, seriesXSize, seriesYSize)
      ensures path == Trace(costMatrix, seriesXSize, seriesYSize, seriesXSize - 1, seriesYSize - 1)
    {
      var x, y := seriesXSize - 1, seriesYSize - 1;
      path := [Cell(x, y)];
      while x > 0 || y > 0
        invariant 0 <= x < seriesXSize && 0 <= y < seriesYSize
        invariant 0 < |path| && path[0] == Cell(x, y)
        invariant Trace(costMatrix, seriesXSize, seriesYSize, seriesXSize - 1, seriesYSize - 1)
          == Trace(costMatrix, seriesXSize, seriesYSize, x, y) + path[1..]
        decreases x + y
      {
        ghost var before := Trace(costMatrix, seriesXSize, seriesYSize, x, y);
        ghost var u, v := x, y;
        var diagonalCost := if x > 0 && y > 0 then costMatrix[x - 1][y - 1] else Infinity;
        var leftCost := if x > 0 then costMatrix[x - 1][y] else Infinity;
        var downCost := if y > 0 then costMatrix[x][y - 1] else Infinity;
        if Le(diagonalCost, leftCost) && Le(diagonalCost, downCost) {
          if x > 0 { x := x - 1; }
          if y > 0 { y := y - 1; }
        } else if Lt(leftCost, diagonalCost) && Lt(leftCost, downCost) {
          x := x - 1;
        } else if Lt(downCost, diagonalCost) && Lt(downCost, leftCost) {
          y := y - 1;
        } else if x <= y {
          y := y - 1;
        } else {
          x := x - 1;
        }
        assert Cell(x, y) == Previous(costMatrix, seriesXSize, seriesYSize, u, v);
        assert before + path[1..] == Trace(costMatrix, seriesXSize, seriesYSize, x, y) + path;
        path := [Cell(x, y)] + path;
      }
    }

    /** Cost and path of the two-neighbour program; the matrix is only large enough when the
        longer series comes first. */
    method DynamicTimeWarp(seriesX: seq<Point>, seriesY: seq<Point>) returns (info: WarpInfo)
      requires 0 < |seriesY| <= |seriesX|
      modifies this
      ensures var P := Problem(seriesX, seriesY, dist);
        && info.cost == Best(P, RowZero, |seriesX| - 1, |seriesY| - 1)
        && info.path == TraceOf(P, RowZero, |seriesX| - 1, |seriesY| - 1)
    {
      hide Best, Trace;
      ghost var P := Problem(seriesX, seriesY, dist);
      TableIsStored(P, RowZero);
      var cost := GetCost(seriesX, seriesY);
      assert costMatrix == Table(P, RowZero);
      var path := CalculatePath(|seriesX|, |seriesY|);
      info := WarpInfo(path, cost);
    }

    /** The three-neighbour dynamic program on the cells of a window. */
    method ConstrainedDtw(seriesX: seq<Point>, seriesY: seq<Point>, minMaxValues: seq<Column>) returns (info: WarpInfo)
      requires 0 < |seriesX| && 0 < |seriesY| && |minMaxValues| == |seriesX|
      requires forall c :: 0 <= c < |minMaxValues| && minMaxValues[c].Rows? ==>
        minMaxValues[c].first <= minMaxValues[c].second < |seriesY|
      modifies this
      ensures var P := Problem(seriesX, seriesY, dist);
        && costMatrix == Table(P, Window(minMaxValues))
        && info.cost == Best(P, Window(minMaxValues), |seriesX| - 1, |seriesY| - 1)
        && info.path == TraceOf(P, Window(minMaxValues), |seriesX| - 1, |seriesY| - 1)
    {
      hide Best, Plus, Min, Put;
      ghost var P, rule := Problem(seriesX, seriesY, dist), Window(minMaxValues);
      costMatrix := seq(|seriesX|, _ => seq(|seriesY|, _ => Max));
      for currentX := 0 to |minMaxValues|
        invariant Filled(P, rule, costMatrix, currentX, 0) && Blank(costMatrix, currentX, 0)
      {
        if minMaxValues[currentX].Rows? {
          SkipOutside(P, rule, costMatrix, currentX, 0, minMaxValues[currentX].first);
          for currentY := minMaxValues[currentX].first to minMaxValues[currentX].second + 1
            invariant Filled(P, rule, costMatrix, currentX, currentY) && Blank(costMatrix, currentX, currentY)
          {
            var d := dist(seriesX[currentX], seriesY[currentY]);
            NextEntry(P, rule, costMatrix, currentX, currentY);
            PutFills(P, rule, costMatrix, currentX, currentY);
            if currentX == 0 && currentY == 0 {
              costMatrix := Put(costMatrix, 0, 0, Finite(d));
            } else if currentX == 0 {
              costMatrix := Put(costMatrix, 0, currentY, Plus(d, costMatrix[0][currentY - 1]));
            } else if currentY == 0 {
              costMatrix := Put(costMatrix, currentX, 0, Plus(d, costMatrix[currentX - 1][0]));
            } else {
              var minGlobalCost := Min(costMatrix[currentX - 1][currentY],
                Min(costMatrix[currentX - 1][currentY - 1], costMatrix[currentX][currentY - 1]));
              costMatrix := Put(costMatrix, currentX, currentY, Plus(d, minGlobalCost));
            }
          }
          SkipOutside(P, rule, costMatrix, currentX, minMaxValues[currentX].second + 1, |seriesY|);
        } else {
          SkipOutside(P, rule, costMatrix, currentX, 0, |seriesY|);
        }
      }
      FilledIsTable(P, rule, costMatrix);
      TableIsStored(P, rule);
      var path := CalculatePath(|seriesX|, |seriesY|);
      info := WarpInfo(path, costMatrix[|seriesX| - 1][|seriesY| - 1]);
    }
  }
}
