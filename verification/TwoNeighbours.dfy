/** dtw.cpp: when the two-neighbour program of getCost, which leaves out the left neighbour above
    row 0, still finds the optimum. */
module TwoNeighbours {
  import opened WarpPaths

  /** getCost on two series, the longer one first. */
  ghost function TwoNeighbourCost(P: Problem): Cost
    requires 0 < |P.xs| && 0 < |P.ys|
  {
    Best(P, RowZero, |P.xs| - 1, |P.ys| - 1)
  }

  /** For given series: exactly when some optimal path has no move in x alone above row 0. */
  lemma CostIsOptimalExactly(P: Problem)
    requires 0 < |P.xs| && 0 < |P.ys|
    ensures TwoNeighbourCost(P) == Optimum(P) <==>
      exists p :: WarpPath(p, |P.xs| - 1, |P.ys| - 1) && Obeys(RowZero, p) && Finite(Total(P, p)) == Optimum(P)
  {
    hide Obeys, Total;
    BestIsMinimum(P, RowZero, |P.xs| - 1, |P.ys| - 1);
    OptimumIsMinimum(P);
    RowZeroIsFinite(P, |P.xs| - 1, |P.ys| - 1);
    OptimumIsBelowEveryRule(P, RowZero);
  }

  // ----- lengths that never lose

  lemma {:induction false} OneRow(P: Problem, x: nat)
    requires |P.ys| == 1 && x < |P.xs|
    ensures Best(P, RowZero, x, 0) == Best(P, FullWindow(|P.xs|, 1), x, 0)
    decreases x
  {
    if x > 0 { OneRow(P, x - 1); }
  }

  lemma TwoByTwo(P: Problem)
    requires P.Valid() && |P.xs| == 2 && |P.ys| == 2
    ensures Best(P, RowZero, 1, 1) == Optimum(P)
  {
    var full := FullWindow(2, 2);
    assert Best(P, full, 0, 0) == Best(P, RowZero, 0, 0);
    assert Best(P, full, 1, 0) == Best(P, RowZero, 1, 0);
    assert Best(P, full, 0, 1) == Best(P, RowZero, 0, 1);
    assert Le(Best(P, full, 0, 0), Best(P, full, 0, 1));
  }

  // ----- lengths that can lose

  /** The discrete distance. */
  function Discrete(p: Point, q: Point): real { if p == q then 0.0 else 1.0 }

  /** [a, b, ..., b], or [a, a, b, ..., b] for two leading points. */
  function Series(length: nat, leading: nat): seq<Point> {
    seq(length, i requires 0 <= i => if i < leading then [0.0] else [1.0])
  }

  /** A pair of series on which skipping the left neighbour costs something. */
  function Losing(n: nat, m: nat): (P: Problem)
    requires 0 < m <= n
    ensures P.Valid() && |P.xs| == n && |P.ys| == m
  {
    Problem(Series(n, 1), Series(m, if n == m then 2 else 1), Discrete)
  }

  /** Below the diagonal of the losing pair every path of the family has met two unequal points. */
  lemma {:induction false} LosingCosts(n: nat, m: nat, x: nat, y: nat)
    requires 0 < m <= n && y <= x < n && y < m && 0 < x && (n == m || y < x)
    ensures Le(Finite(1.0), Best(Losing(n, m), RowZero, x, y))
    decreases x + y
  {
    var P := Losing(n, m);
    if y > 0 {
      if x > 1 { LosingCosts(n, m, x - 1, y - 1); }
      LosingCosts(n, m, x, y - 1);
    } else if x > 1 {
      LosingCosts(n, m, x - 1, 0);
    }
  }

  /** One step at no cost. */
  lemma FreeStep(P: Problem, a: Cell, b: Cell)
    requires P.Valid() && Step(a, b) && b.x < |P.xs| && b.y < |P.ys| && P.Distance(b.x, b.y) == 0.0
    requires Le(Best(P, FullWindow(|P.xs|, |P.ys|), a.x, a.y), Finite(0.0))
    ensures Le(Best(P, FullWindow(|P.xs|, |P.ys|), b.x, b.y), Finite(0.0))
  {
  }

  /** The unrestricted optimum of the losing pair is zero: along its equal points. */
  lemma {:induction false} LosingIsFree(n: nat, m: nat, x: nat, y: nat)
    requires 0 < m <= n && 1 < m && x < n && y < m
    requires if n == m then 2 < m && (y == x + 1 || (x == y == 0) || (x == y == m - 1))
      else y == x || (y == m - 1 && m <= x)
    ensures Le(Best(Losing(n, m), FullWindow(n, m), x, y), Finite(0.0))
    decreases x + y
  {
    hide Best;
    var P := Losing(n, m);
    if x == 0 && y == 0 {
      FreeStart(P);
    } else {
      var a :=
        if x == 0 then Cell(0, 0)
        else if x > y || (n == m && x == y) then Cell(x - 1, y)
        else Cell(x - 1, y - 1);
      LosingIsFree(n, m, a.x, a.y);
      FreeStep(P, a, Cell(x, y));
    }
  }

  lemma FreeStart(P: Problem)
    requires P.Valid() && P.Distance(0, 0) == 0.0
    ensures Best(P, FullWindow(|P.xs|, |P.ys|), 0, 0) == Finite(0.0)
  {
  }

  /** For given lengths: getCost is the optimum of all series of these lengths exactly when the
      shorter one is a single point or both have two. */
  lemma LengthsDecide(n: nat, m: nat)
    requires 0 < m <= n
    ensures (forall P: Problem :: P.Valid() && |P.xs| == n && |P.ys| == m ==> TwoNeighbourCost(P) == Optimum(P))
      <==> m == 1 || (n == 2 && m == 2)
  {
    hide Best;
    if m == 1 || (n == 2 && m == 2) {
      forall P: Problem | P.Valid() && |P.xs| == n && |P.ys| == m ensures TwoNeighbourCost(P) == Optimum(P) {
        if m == 1 { OneRow(P, n - 1); } else { TwoByTwo(P); }
      }
    } else {
      LosingCosts(n, m, n - 1, m - 1);
      LosingIsFree(n, m, n - 1, m - 1);
      assert TwoNeighbourCost(Losing(n, m)) != Optimum(Losing(n, m));
    }
  }
}
