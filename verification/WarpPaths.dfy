/** Warp paths through the cost matrix of two series, and the cheapest total over a family of them.
    This is the reference the dynamic programs of dtw.cpp are compared with. */
module WarpPaths {

  type Point = seq<real>

  /** A cost matrix entry. `Max` is numeric_limits<T>::max(), which absorbs additions;
      `Infinity` is what CalculatePath uses for a neighbour that does not exist. */
  datatype Cost = Finite(v: real) | Max | Infinity

  predicate Le(a: Cost, b: Cost) {
    match (a, b)
    case (Finite(u), Finite(v)) => u <= v
    case (Finite(_), _) => true
    case (Max, Finite(_)) => false
    case (Max, _) => true
    case (Infinity, _) => b.Infinity?
  }

  predicate Lt(a: Cost, b: Cost) {
    !Le(b, a)
  }

  function Min(a: Cost, b: Cost): Cost {
    if Lt(b, a) then b else a
  }

  function Plus(d: real, a: Cost): Cost {
    if a.Finite? then Finite(d + a.v) else a
  }

  datatype Cell = Cell(x: nat, y: nat)

  type Matrix = seq<seq<Cost>>

  /** Two series and the point distance, of which only the laws in `Valid` are known. */
  datatype Problem = Problem(xs: seq<Point>, ys: seq<Point>, dist: (Point, Point) -> real) {
    ghost predicate Valid() {
      && 0 < |xs| && 0 < |ys|
      && (forall p, q :: 0.0 <= dist(p, q))
      && (forall p, q :: dist(p, q) == dist(q, p))
    }

    function Distance(x: int, y: int): real {
      if 0 <= x < |xs| && 0 <= y < |ys| then dist(xs[x], ys[y]) else 0.0
    }

    function Swap(): Problem {
      Problem(ys, xs, dist)
    }
  }

  /** The rows of one column that belong to a search window. */
  datatype Column = Unvisited | Rows(first: nat, second: nat)

  predicate InColumn(c: Column, y: int) {
    c.Rows? && c.first <= y <= c.second
  }

  /** The family of paths a dynamic program ranges over: `RowZero` allows a move in x alone only
      along row 0 (dtw.getCost), `Window` allows every move between cells of the window. */
  datatype Rule = RowZero | Window(columns: seq<Column>) {
    predicate Allows(x: nat, y: nat) {
      RowZero? || (x < |columns| && InColumn(columns[x], y))
    }
  }

  function FullWindow(width: nat, height: nat): (r: Rule)
    requires 0 < height
    ensures forall x: nat, y: nat :: r.Allows(x, y) <==> x < width && y < height
  {
    Window(seq(width, _ => Rows(0, height - 1)))
  }

  // ----- paths

  predicate Step(a: Cell, b: Cell) {
    || (b.x == a.x + 1 && b.y == a.y)
    || (b.x == a.x && b.y == a.y + 1)
    || (b.x == a.x + 1 && b.y == a.y + 1)
  }

  ghost predicate WarpPath(p: seq<Cell>, x: nat, y: nat) {
    && 0 < |p| && p[0] == Cell(0, 0) && p[|p| - 1] == Cell(x, y)
    && forall i :: 0 < i < |p| ==> Step(p[i - 1], p[i])
  }

  ghost predicate Obeys(rule: Rule, p: seq<Cell>) {
    && (forall i :: 0 <= i < |p| ==> rule.Allows(p[i].x, p[i].y))
    && (rule.RowZero? ==> forall i :: 0 < i < |p| && p[i].y == p[i - 1].y ==> p[i].y == 0)
  }

  ghost function Total(P: Problem, p: seq<Cell>): real {
    if |p| == 0 then 0.0
    else Total(P, p[..|p| - 1]) + P.Distance(p[|p| - 1].x, p[|p| - 1].y)
  }

  // ----- the cheapest total

  /** The recurrence of the dynamic programs. */
  function Best(P: Problem, rule: Rule, x: nat, y: nat): Cost
    decreases x + y
  {
    var d := P.Distance(x, y);
    if !rule.Allows(x, y) then Max
    else if x == 0 && y == 0 then Finite(d)
    else if x == 0 then Plus(d, Best(P, rule, 0, y - 1))
    else if y == 0 then Plus(d, Best(P, rule, x - 1, 0))
    else
      var shorter := Min(Best(P, rule, x - 1, y - 1), Best(P, rule, x, y - 1));
      Plus(d, if rule.RowZero? then shorter else Min(Best(P, rule, x - 1, y), shorter))
  }

  function Table(P: Problem, rule: Rule): (m: Matrix)
    ensures |m| == |P.xs| && forall x :: 0 <= x < |m| ==> |m[x]| == |P.ys|
    ensures forall x, y :: 0 <= x < |m| && 0 <= y < |P.ys| ==> m[x][y] == Best(P, rule, x, y)
  {
    seq(|P.xs|, x requires 0 <= x => seq(|P.ys|, y requires 0 <= y => Best(P, rule, x, y)))
  }

  lemma PrefixIsWarpPath(p: seq<Cell>, x: nat, y: nat)
    requires WarpPath(p, x, y) && 1 < |p|
    ensures var a := p[|p| - 2]; WarpPath(p[..|p| - 1], a.x, a.y) && Step(a, Cell(x, y))
  {
    var n := |p| - 1;
    assert Step(p[n - 1], p[n]);
    forall i | 0 < i < n
      ensures Step(p[..n][i - 1], p[..n][i])
    {
      assert Step(p[i - 1], p[i]);
    }
  }

  lemma AppendStep(q: seq<Cell>, a: Cell, b: Cell)
    requires WarpPath(q, a.x, a.y) && Step(a, b)
    ensures WarpPath(q + [b], b.x, b.y)
  {
    var p := q + [b];
    forall i | 0 < i < |p|
      ensures Step(p[i - 1], p[i])
    {
      if i < |q| {
        assert Step(q[i - 1], q[i]);
      }
    }
  }

  /** Appending an allowed step to a path of the family gives a path of the family. */
  lemma ExtendedPath(P: Problem, rule: Rule, q: seq<Cell>, a: Cell, b: Cell)
    requires WarpPath(q, a.x, a.y) && Step(a, b)
    ensures WarpPath(q + [b], b.x, b.y)
    ensures Total(P, q + [b]) == Total(P, q) + P.Distance(b.x, b.y)
    ensures Obeys(rule, q) && rule.Allows(b.x, b.y) && (rule.RowZero? && a.y == b.y ==> b.y == 0) ==>
      Obeys(rule, q + [b])
  {
    AppendStep(q, a, b);
    assert (q + [b])[..|q|] == q;
  }

  /** No path of the family is cheaper than `Best`. */
  lemma {:induction false} BestIsLowerBound(P: Problem, rule: Rule, p: seq<Cell>, x: nat, y: nat)
    requires WarpPath(p, x, y) && Obeys(rule, p)
    ensures Le(Best(P, rule, x, y), Finite(Total(P, p)))
    decreases |p|
  {
    var n := |p| - 1;
    assert rule.Allows(p[n].x, p[n].y);
    if n == 0 {
      assert p[..0] == [];
    } else {
      var q := p[..n];
      var a := p[n - 1];
      PrefixIsWarpPath(p, x, y);
      BestIsLowerBound(P, rule, q, a.x, a.y);
    }
  }

  /** The neighbour a finite `Best` was computed from. */
  lemma BestHasPredecessor(P: Problem, rule: Rule, x: nat, y: nat) returns (a: Cell)
    requires Best(P, rule, x, y).Finite? && (x > 0 || y > 0)
    ensures Step(a, Cell(x, y)) && (rule.RowZero? && a.y == y ==> y == 0)
    ensures Best(P, rule, a.x, a.y).Finite?
    ensures Best(P, rule, x, y) == Plus(P.Distance(x, y), Best(P, rule, a.x, a.y))
  {
    if x == 0 {
      a := Cell(0, y - 1);
    } else if y == 0 {
      a := Cell(x - 1, 0);
    } else {
      var left, diagonal, down := Best(P, rule, x - 1, y), Best(P, rule, x - 1, y - 1), Best(P, rule, x, y - 1);
      a := if rule.Window? && Le(left, diagonal) && Le(left, down) then Cell(x - 1, y)
           else if Le(diagonal, down) then Cell(x - 1, y - 1)
           else Cell(x, y - 1);
    }
  }

  /** A finite `Best` is the total of some path of the family. */
  lemma {:induction false} BestIsAttained(P: Problem, rule: Rule, x: nat, y: nat) returns (p: seq<Cell>)
    requires Best(P, rule, x, y).Finite?
    ensures WarpPath(p, x, y) && Obeys(rule, p) && Total(P, p) == Best(P, rule, x, y).v
    decreases x + y
  {
    if x == 0 && y == 0 {
      p := [Cell(0, 0)];
      assert p[..0] == [];
    } else {
      var a := BestHasPredecessor(P, rule, x, y);
      var q := BestIsAttained(P, rule, a.x, a.y);
      p := q + [Cell(x, y)];
      ExtendedPath(P, rule, q, a, Cell(x, y));
    }
  }

  /** `Best` is finite exactly when the family has a path, and is then the minimum of the totals. */
  lemma BestIsMinimum(P: Problem, rule: Rule, x: nat, y: nat)
    ensures Best(P, rule, x, y).Finite? <==> exists p :: WarpPath(p, x, y) && Obeys(rule, p)
    ensures forall p :: WarpPath(p, x, y) && Obeys(rule, p) ==> Le(Best(P, rule, x, y), Finite(Total(P, p)))
    ensures Best(P, rule, x, y).Finite? ==>
      forall p :: WarpPath(p, x, y) && Obeys(rule, p) ==> Best(P, rule, x, y).v <= Total(P, p)
    ensures Best(P, rule, x, y).Finite? ==>
      exists p :: WarpPath(p, x, y) && Obeys(rule, p) && Total(P, p) == Best(P, rule, x, y).v
  {
    forall p | WarpPath(p, x, y) && Obeys(rule, p)
      ensures Le(Best(P, rule, x, y), Finite(Total(P, p)))
    {
      BestIsLowerBound(P, rule, p, x, y);
    }
    if Best(P, rule, x, y).Finite? {
      var p := BestIsAttained(P, rule, x, y);
    }
  }

  // ----- the unrestricted optimum

  /** The least total over all warp paths with the three moves. */
  ghost function Optimum(P: Problem): Cost
    requires 0 < |P.xs| && 0 < |P.ys|
  {
    Best(P, FullWindow(|P.xs|, |P.ys|), |P.xs| - 1, |P.ys| - 1)
  }

  /** A warp path never leaves the rectangle below its last cell. */
  lemma {:induction false} PathStaysBelow(p: seq<Cell>, x: nat, y: nat)
    requires WarpPath(p, x, y)
    ensures forall i :: 0 <= i < |p| ==> p[i].x <= x && p[i].y <= y
    decreases |p|
  {
    var n := |p| - 1;
    if n > 0 {
      var q := p[..n];
      PrefixIsWarpPath(p, x, y);
      PathStaysBelow(q, p[n - 1].x, p[n - 1].y);
      assert forall i :: 0 <= i < n ==> p[i] == q[i];
    }
  }

  /** A warp path has a cell in every column up to its last one. */
  lemma {:induction false} PathVisitsColumn(p: seq<Cell>, x: nat, y: nat, column: nat)
    requires WarpPath(p, x, y) && column <= x
    ensures exists i :: 0 <= i < |p| && p[i].x == column
    decreases |p|
  {
    var n := |p| - 1;
    if column < x {
      var q := p[..n];
      PrefixIsWarpPath(p, x, y);
      PathVisitsColumn(q, p[n - 1].x, p[n - 1].y, column);
      var i :| 0 <= i < |q| && q[i].x == column;
      assert p[i].x == column;
    } else {
      assert p[n].x == column;
    }
  }

  /** The optimum is finite, is the total of some warp path, and no warp path is cheaper. */
  lemma OptimumIsMinimum(P: Problem)
    requires 0 < |P.xs| && 0 < |P.ys|
    ensures Optimum(P).Finite?
    ensures forall p :: WarpPath(p, |P.xs| - 1, |P.ys| - 1) ==> Le(Optimum(P), Finite(Total(P, p)))
    ensures forall p :: WarpPath(p, |P.xs| - 1, |P.ys| - 1) ==> Optimum(P).v <= Total(P, p)
    ensures exists p :: WarpPath(p, |P.xs| - 1, |P.ys| - 1) && Total(P, p) == Optimum(P).v
  {
    var full := FullWindow(|P.xs|, |P.ys|);
    RowZeroIsFinite(P, |P.xs| - 1, |P.ys| - 1);
    var q := BestIsAttained(P, RowZero, |P.xs| - 1, |P.ys| - 1);
    forall p | WarpPath(p, |P.xs| - 1, |P.ys| - 1)
      ensures Le(Optimum(P), Finite(Total(P, p)))
    {
      PathStaysBelow(p, |P.xs| - 1, |P.ys| - 1);
      BestIsLowerBound(P, full, p, |P.xs| - 1, |P.ys| - 1);
    }
    var r := BestIsAttained(P, full, |P.xs| - 1, |P.ys| - 1);
  }

  lemma RowZeroIsFinite(P: Problem, x: nat, y: nat)
    ensures Best(P, RowZero, x, y).Finite?
    decreases x + y
  {
  }

  /** No family of paths beats the unrestricted optimum. */
  lemma OptimumIsBelowEveryRule(P: Problem, rule: Rule)
    requires 0 < |P.xs| && 0 < |P.ys|
    ensures Le(Optimum(P), Best(P, rule, |P.xs| - 1, |P.ys| - 1))
  {
    OptimumIsMinimum(P);
    if Best(P, rule, |P.xs| - 1, |P.ys| - 1).Finite? {
      var p := BestIsAttained(P, rule, |P.xs| - 1, |P.ys| - 1);
    } else {
      BestIsNeverInfinity(P, rule, |P.xs| - 1, |P.ys| - 1);
    }
  }

  lemma BestIsNeverInfinity(P: Problem, rule: Rule, x: nat, y: nat)
    ensures !Best(P, rule, x, y).Infinity?
    decreases x + y
  {
  }

  /** The optimum does not depend on which series comes first. */
  lemma OptimumIsSymmetric(P: Problem)
    requires P.Valid()
    ensures Optimum(P.Swap()) == Optimum(P)
  {
    BestIsSymmetric(P, |P.xs| - 1, |P.ys| - 1);
  }

  lemma {:induction false} BestIsSymmetric(P: Problem, x: nat, y: nat)
    requires P.Valid() && x < |P.xs| && y < |P.ys|
    ensures Best(P.Swap(), FullWindow(|P.ys|, |P.xs|), y, x) == Best(P, FullWindow(|P.xs|, |P.ys|), x, y)
    decreases x + y
  {
    hide Min, Plus, Best;
    if x > 0 { BestIsSymmetric(P, x - 1, y); }
    if y > 0 { BestIsSymmetric(P, x, y - 1); }
    if x > 0 && y > 0 { BestIsSymmetric(P, x - 1, y - 1); }
    BestStep(P, FullWindow(|P.xs|, |P.ys|), x, y);
    BestStep(P.Swap(), FullWindow(|P.ys|, |P.xs|), y, x);
    if x > 0 && y > 0 {
      var full := FullWindow(|P.xs|, |P.ys|);
      MinIsCommutative(Best(P, full, x - 1, y), Best(P, full, x - 1, y - 1), Best(P, full, x, y - 1));
    }
  }

  /** The recurrence in an allowed cell of a window. */
  lemma BestStep(P: Problem, rule: Rule, x: nat, y: nat)
    requires rule.Window? && rule.Allows(x, y)
    ensures var d := P.Distance(x, y);
      Best(P, rule, x, y) ==
        if x == 0 && y == 0 then Finite(d)
        else if x == 0 then Plus(d, Best(P, rule, 0, y - 1))
        else if y == 0 then Plus(d, Best(P, rule, x - 1, 0))
        else Plus(d, Min(Best(P, rule, x - 1, y), Min(Best(P, rule, x - 1, y - 1), Best(P, rule, x, y - 1))))
  {
    hide Min, Plus;
  }

  lemma MinIsCommutative(a: Cost, b: Cost, c: Cost)
    ensures Min(a, Min(b, c)) == Min(c, Min(b, a))
  {
  }
}
