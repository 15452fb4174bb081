/** fastDTW.cpp: the multi-resolution recursion, and what its cost and path are worth. */
module FastDtw {
  import opened WarpPaths
  import opened Dtw
  import opened SearchWindow

  // ----- halving a series

  function Average(a: Point, b: Point): (r: Point)
    requires |a| == |b|
    ensures |r| == |a|
  {
    seq(|a|, j requires 0 <= j < |a| => (a[j] + b[j]) * 0.5)
  }

  /** All frames have the same number of coordinates; distanceFunction throws otherwise. */
  ghost predicate Uniform(series: seq<Point>, dimension: nat) {
    forall i :: 0 <= i < |series| ==> |series[i]| == dimension
  }

  function Halved(series: seq<Point>, ghost dimension: nat): (r: seq<Point>)
    requires Uniform(series, dimension)
    ensures |r| == (|series| + 1) / 2 && Uniform(r, dimension)
  {
    seq((|series| + 1) / 2, k requires 0 <= k < (|series| + 1) / 2 =>
      if 2 * k + 1 < |series| then Average(series[2 * k], series[2 * k + 1]) else series[2 * k])
  }

  /** Every frame lies midway between the two it stands for, and an odd one at the end stays. */
  ghost predicate IsMidway(series: seq<Point>, shrunken: seq<Point>, dimension: nat) {
    && |shrunken| == (|series| + 1) / 2 && Uniform(series, dimension) && Uniform(shrunken, dimension)
    && (forall k, j :: 0 <= k < |series| / 2 && 0 <= j < dimension ==>
          shrunken[k][j] - series[2 * k][j] == series[2 * k + 1][j] - shrunken[k][j])
    && (|series| % 2 == 1 ==> shrunken[|series| / 2] == series[|series| - 1])
  }

  /** The sum of coordinate j over all frames. */
  ghost function Sum(series: seq<Point>, j: nat, dimension: nat): real
    requires Uniform(series, dimension) && j < dimension
  {
    if |series| == 0 then 0.0 else Sum(series[..|series| - 1], j, dimension) + series[|series| - 1][j]
  }

  /** Twice the sum of the shorter series is that of the longer one, in every coordinate. */
  ghost predicate KeepsSum(series: seq<Point>, shrunken: seq<Point>, dimension: nat) {
    && Uniform(series, dimension) && Uniform(shrunken, dimension)
    && forall j :: 0 <= j < dimension ==> 2.0 * Sum(shrunken, j, dimension) == Sum(series, j, dimension)
  }

  lemma SumMore(series: seq<Point>, j: nat, dimension: nat, n: nat)
    requires Uniform(series, dimension) && j < dimension && n < |series|
    ensures Sum(series[..n + 1], j, dimension) == Sum(series[..n], j, dimension) + series[n][j]
  {
    assert series[..n + 1][..n] == series[..n];
  }

  /** Halving keeps the mean of a coordinate; an odd frame at the end counts twice. */
  lemma {:induction false} HalvingKeepsSum(series: seq<Point>, shrunken: seq<Point>, j: nat, dimension: nat, n: nat)
    requires IsMidway(series, shrunken, dimension) && j < dimension && n <= |series| / 2
    ensures 2.0 * Sum(shrunken[..n], j, dimension) == Sum(series[..2 * n], j, dimension)
    decreases n
  {
    if n > 0 {
      HalvingKeepsSum(series, shrunken, j, dimension, n - 1);
      SumMore(series, j, dimension, 2 * n - 2);
      SumMore(series, j, dimension, 2 * n - 1);
      SumMore(shrunken, j, dimension, n - 1);
      var k := n - 1;
      assert shrunken[k][j] - series[2 * k][j] == series[2 * k + 1][j] - shrunken[k][j];
    }
  }

  lemma HalvedIsMidway(series: seq<Point>, dimension: nat)
    requires Uniform(series, dimension)
    ensures IsMidway(series, Halved(series, dimension), dimension)
    ensures |series| % 2 == 0 ==> KeepsSum(series, Halved(series, dimension), dimension)
  {
    var shrunken, n := Halved(series, dimension), |series| / 2;
    forall k, j | 0 <= k < n && 0 <= j < dimension
      ensures shrunken[k][j] - series[2 * k][j] == series[2 * k + 1][j] - shrunken[k][j]
    {
      assert shrunken[k] == Average(series[2 * k], series[2 * k + 1]);
    }
    if |series| % 2 == 0 {
      assert shrunken[..n] == shrunken && series[..2 * n] == series;
      forall j | 0 <= j < dimension ensures 2.0 * Sum(shrunken, j, dimension) == Sum(series, j, dimension) {
        HalvingKeepsSum(series, shrunken, j, dimension, n);
      }
    }
  }

  method Downsample(series: seq<Point>, ghost dimension: nat) returns (shrunken: seq<Point>)
    requires Uniform(series, dimension)
    ensures shrunken == Halved(series, dimension)
    ensures IsMidway(series, shrunken, dimension)
    ensures |series| % 2 == 0 ==> KeepsSum(series, shrunken, dimension)
  {
    shrunken := [];
    for i := 0 to |series|
      invariant |shrunken| == (i + 1) / 2
      invariant forall k :: 0 <= k < i / 2 ==> shrunken[k] == Average(series[2 * k], series[2 * k + 1])
      invariant i % 2 == 1 ==> shrunken[i / 2] == series[i - 1]
    {
      if i % 2 == 0 {
        shrunken := shrunken + [series[i]];
      } else {
        var shrunkIndex := i / 2;
        var frame := shrunken[shrunkIndex];
        for j := 0 to |series[i]|
          invariant |frame| == dimension
          invariant forall l :: 0 <= l < j ==> frame[l] == (series[i - 1][l] + series[i][l]) * 0.5
          invariant forall l :: j <= l < dimension ==> frame[l] == series[i - 1][l]
        {
          frame := frame[j := (frame[j] + series[i][j]) * 0.5];
        }
        assert frame == Average(series[2 * shrunkIndex], series[2 * shrunkIndex + 1]);
        shrunken := shrunken[shrunkIndex := frame];
      }
    }
    assert shrunken == Halved(series, dimension);
    HalvedIsMidway(series, dimension);
  }

  // ----- one level

  /** A finite cost and a warp path whose total lies between the optimum and that cost. */
  ghost predicate Sound(P: Problem, info: WarpInfo) {
    && 0 < |P.xs| && 0 < |P.ys|
    && info.cost.Finite?
    && WarpPath(info.path, |P.xs| - 1, |P.ys| - 1)
    && Le(Optimum(P), Finite(Total(P, info.path)))
    && Le(Finite(Total(P, info.path)), info.cost)
  }

  /** The path stays in the window and attains the cost, and nothing in the window is cheaper. */
  ghost predicate Tight(P: Problem, columns: seq<Column>, info: WarpInfo) {
    && 0 < |P.xs| && 0 < |P.ys|
    && Obeys(Window(columns), info.path)
    && info.cost == Finite(Total(P, info.path))
    && forall p :: WarpPath(p, |P.xs| - 1, |P.ys| - 1) && Obeys(Window(columns), p) ==>
      Le(info.cost, Finite(Total(P, p)))
  }

  lemma SoundPath(P: Problem, info: WarpInfo)
    requires Sound(P, info)
    ensures 0 < |P.xs| && 0 < |P.ys| && WarpPath(info.path, |P.xs| - 1, |P.ys| - 1)
  {
  }

  ghost predicate Complete(P: Problem, columns: seq<Column>) {
    && 0 < |P.xs| && 0 < |P.ys| && |columns| == |P.xs|
    && (exists q :: WarpPath(q, |P.xs| - 1, |P.ys| - 1) && Obeys(Window(columns), q))
    && forall c :: 0 <= c < |columns| ==> columns[c].Rows? && columns[c].first <= columns[c].second < |P.ys|
  }

  ghost function Warp(P: Problem, rule: Rule): WarpInfo
    requires 0 < |P.xs| && 0 < |P.ys|
  {
    WarpInfo(TraceOf(P, rule, |P.xs| - 1, |P.ys| - 1), Best(P, rule, |P.xs| - 1, |P.ys| - 1))
  }

  /** dynamicTimeWarp, longer series first. */
  lemma FullWarpIsSound(P: Problem)
    requires 0 < |P.xs| && 0 < |P.ys|
    ensures Sound(P, Warp(P, RowZero))
  {
    hide Best, Obeys;
    OptimumIsMinimum(P);
    RowZeroIsFinite(P, |P.xs| - 1, |P.ys| - 1);
    TraceCostsAtMostBest(P, RowZero, |P.xs| - 1, |P.ys| - 1);
  }

  /** constrainedDTW on a window with a complete path. */
  lemma WindowWarpIsSound(P: Problem, columns: seq<Column>)
    requires Complete(P, columns)
    ensures Sound(P, Warp(P, Window(columns))) && Tight(P, columns, Warp(P, Window(columns)))
  {
    hide Best, Obeys;
    BestIsMinimum(P, Window(columns), |P.xs| - 1, |P.ys| - 1);
    TraceAttainsWindow(P, columns, |P.xs| - 1, |P.ys| - 1);
    OptimumIsBelowEveryRule(P, Window(columns));
  }

  // ----- the recursion

  function Coarse(P: Problem, ghost dimension: nat): (C: Problem)
    requires Uniform(P.xs, dimension) && Uniform(P.ys, dimension)
    ensures |C.xs| == (|P.xs| + 1) / 2 && |C.ys| == (|P.ys| + 1) / 2 && C.dist == P.dist
    ensures Uniform(C.xs, dimension) && Uniform(C.ys, dimension)
  {
    Problem(Halved(P.xs, dimension), Halved(P.ys, dimension), P.dist)
  }

  /** Series short enough to be warped in full. */
  predicate IsBase(P: Problem, radius: int) {
    |P.xs| <= Max2(0, radius) + 2 || |P.ys| <= Max2(0, radius) + 2
  }

  /** fullFastDTW as a function: the swap comes first, then the full program on short series or
      the window around the path of the halved series. */
  ghost function Fast(P: Problem, dimension: nat, radius: int): WarpInfo
    requires 0 < |P.xs| && 0 < |P.ys| && Uniform(P.xs, dimension) && Uniform(P.ys, dimension)
    decreases |P.xs| + |P.ys|, if |P.ys| > |P.xs| then 2 else 1
  {
    if |P.ys| > |P.xs| then Fast(P.Swap(), dimension, radius)
    else if IsBase(P, radius) then Warp(P, RowZero)
    else Warp(P, Window(FastWindow(P, dimension, radius)))
  }

  /** The window of one level: built from the path found one level down. */
  ghost function FastWindow(P: Problem, dimension: nat, radius: int): (columns: seq<Column>)
    requires 0 < |P.ys| <= |P.xs| && Uniform(P.xs, dimension) && Uniform(P.ys, dimension) && !IsBase(P, radius)
    ensures |columns| == |P.xs|
    decreases |P.xs| + |P.ys|, 0
  {
    var path := Fast(Coarse(P, dimension), dimension, radius).path;
    Build(|P.xs|, |P.ys|, if |path| > 0 then path else [Cell(0, 0)], Max2(0, radius))
  }

  /** The orientation in which the recursion works: the longer series first. */
  function Oriented(P: Problem): (Q: Problem)
    ensures |Q.ys| <= |Q.xs| && (Q == P || Q == P.Swap())
  {
    if |P.ys| > |P.xs| then P.Swap() else P
  }

  /** Halving keeps the longer series first, so the swap can only happen at the top. */
  lemma SwapOnlyAtTheTop(P: Problem, dimension: nat)
    requires Uniform(P.xs, dimension) && Uniform(P.ys, dimension) && |P.ys| <= |P.xs|
    ensures Oriented(Coarse(P, dimension)) == Coarse(P, dimension)
  {
  }

  /** Main result. For every radius the cost is finite and never below the optimum over all warp
      paths, and the path is a warp path whose total lies between the two. Series of at most two points
      more than the radius are warped in full; above that the path attains the cost, which is the
      least total of the warp paths inside the window. */
  lemma {:induction false} FastIsSound(P: Problem, dimension: nat, radius: int)
    requires P.Valid() && Uniform(P.xs, dimension) && Uniform(P.ys, dimension)
    ensures Sound(Oriented(P), Fast(P, dimension, radius)) && Optimum(Oriented(P)) == Optimum(P)
    ensures var shortest := if |P.xs| < |P.ys| then |P.xs| else |P.ys|;
      if shortest <= 2 || shortest <= radius + 2 then Fast(P, dimension, radius) == Warp(Oriented(P), RowZero)
      else Tight(Oriented(P), FastWindow(Oriented(P), dimension, radius), Fast(P, dimension, radius))
    decreases |P.xs| + |P.ys|, if |P.ys| > |P.xs| then 2 else 1
  {
    hide Sound, Tight, Warp, Optimum;
    if |P.ys| > |P.xs| {
      FastIsSound(P.Swap(), dimension, radius);
      OptimumIsSymmetric(P);
    } else if IsBase(P, radius) {
      FullWarpIsSound(P);
    } else {
      FastWindowIsComplete(P, dimension, radius);
      WindowWarpIsSound(P, FastWindow(P, dimension, radius));
    }
  }

  /** Each level's window contains a complete warp path and has a row of the grid in every column. */
  lemma {:induction false} FastWindowIsComplete(P: Problem, dimension: nat, radius: int)
    requires P.Valid() && Uniform(P.xs, dimension) && Uniform(P.ys, dimension) && |P.ys| <= |P.xs| && !IsBase(P, radius)
    ensures Complete(P, FastWindow(P, dimension, radius))
    decreases |P.xs| + |P.ys|, 0
  {
    hide Obeys, Build, Tight, Sound, Warp, Optimum, Halved;
    var C := Coarse(P, dimension);
    FastIsSound(C, dimension, radius);
    SoundPath(C, Fast(C, dimension, radius));
    var path := Fast(C, dimension, radius).path;
    var q := WindowContainsWarpPath(|P.xs|, |P.ys|, path, Max2(0, radius));
    forall c | 0 <= c < |P.xs|
      ensures var column := FastWindow(P, dimension, radius)[c]; column.Rows? && column.first <= column.second < |P.ys|
    {
      EveryColumnIsVisited(|P.xs|, |P.ys|, path, Max2(0, radius), c);
    }
  }

  // ----- the methods

  const INT_MAX := 0x7FFF_FFFF

  method FullFastDtw(seriesX: seq<Point>, seriesY: seq<Point>, radius: int, dist: (Point, Point) -> real,
      ghost dimension: nat)
      returns (info: WarpInfo)
    requires 0 < |seriesX| && 0 < |seriesY| && radius <= INT_MAX - 2
    requires Problem(seriesX, seriesY, dist).Valid() && Uniform(seriesX, dimension) && Uniform(seriesY, dimension)
    ensures info == Fast(Problem(seriesX, seriesY, dist), dimension, radius)
    decreases |seriesX| + |seriesY|, if |seriesY| > |seriesX| then 2 else 1
  {
    hide Build, Best, TraceOf, Table, IsMidway, KeepsSum, Halved, Sound, Tight, Complete;
    if |seriesY| > |seriesX| {
      info := FullFastDtw(seriesY, seriesX, radius, dist, dimension);
      return;
    }
    var dtw := new DtwMatrix(dist);
    var searchRadius := Max2(0, radius);
    var minSeries := searchRadius + 2;
    if |seriesX| <= minSeries || |seriesY| <= minSeries {
      info := dtw.DynamicTimeWarp(seriesX, seriesY);
      return;
    }
    ghost var P := Problem(seriesX, seriesY, dist);
    var shrunkenX := Downsample(seriesX, dimension);
    var shrunkenY := Downsample(seriesY, dimension);
    var path := GetWarpPath(shrunkenX, shrunkenY, searchRadius, dist, dimension);
    CoarsePath(P, dimension, radius);
    var window := new Window2D(|seriesX|, |seriesY|, path, searchRadius);
    WindowFits(P, dimension, radius);
    info := dtw.ConstrainedDtw(seriesX, seriesY, window.minMaxValues);
  }

  lemma WindowFits(P: Problem, dimension: nat, radius: int)
    requires P.Valid() && Uniform(P.xs, dimension) && Uniform(P.ys, dimension) && |P.ys| <= |P.xs| && !IsBase(P, radius)
    ensures forall c :: 0 <= c < |P.xs| ==>
      var column := FastWindow(P, dimension, radius)[c]; column.Rows? && column.first <= column.second < |P.ys|
  {
    hide FastWindow, IsBase;
    FastWindowIsComplete(P, dimension, radius);
  }

  lemma CoarsePath(P: Problem, dimension: nat, radius: int)
    requires P.Valid() && Uniform(P.xs, dimension) && Uniform(P.ys, dimension) && |P.ys| <= |P.xs| && !IsBase(P, radius)
    ensures var path := Fast(Coarse(P, dimension), dimension, Max2(0, radius)).path;
      0 < |path| && FastWindow(P, dimension, radius) == Build(|P.xs|, |P.ys|, path, Max2(0, radius))
  {
    hide Build, Optimum, Warp;
    FastIsSound(Coarse(P, dimension), dimension, radius);
    RadiusBelowZeroIsZero(Coarse(P, dimension), dimension, radius);
  }

  method GetWarpPath(seriesX: seq<Point>, seriesY: seq<Point>, radius: int, dist: (Point, Point) -> real,
      ghost dimension: nat)
      returns (path: seq<Cell>)
    requires 0 < |seriesX| && 0 < |seriesY| && radius <= INT_MAX - 2
    requires Problem(seriesX, seriesY, dist).Valid() && Uniform(seriesX, dimension) && Uniform(seriesY, dimension)
    ensures path == Fast(Problem(seriesX, seriesY, dist), dimension, radius).path
    decreases |seriesX| + |seriesY|, 3
  {
    var info := FullFastDtw(seriesX, seriesY, radius, dist, dimension);
    path := info.path;
  }

  /** The public entry: a finite cost, at least the optimum, for every radius. */
  method GetCost(seriesX: seq<Point>, seriesY: seq<Point>, radius: int, dist: (Point, Point) -> real,
      ghost dimension: nat)
      returns (cost: Cost)
    requires 0 < |seriesX| && 0 < |seriesY| && radius <= INT_MAX - 2
    requires Problem(seriesX, seriesY, dist).Valid() && Uniform(seriesX, dimension) && Uniform(seriesY, dimension)
    ensures cost.Finite? && Le(Optimum(Problem(seriesX, seriesY, dist)), cost)
    ensures var optimum := Optimum(Problem(seriesX, seriesY, dist)); optimum.Finite? && optimum.v <= cost.v
    ensures cost == Fast(Problem(seriesX, seriesY, dist), dimension, radius).cost
  {
    FastIsSound(Problem(seriesX, seriesY, dist), dimension, radius);
    OptimumIsMinimum(Problem(seriesX, seriesY, dist));
    var info := FullFastDtw(seriesX, seriesY, radius, dist, dimension);
    cost := info.cost;
  }

  /** A negative radius acts as radius zero. */
  lemma {:induction false} RadiusBelowZeroIsZero(P: Problem, dimension: nat, radius: int)
    requires 0 < |P.xs| && 0 < |P.ys| && Uniform(P.xs, dimension) && Uniform(P.ys, dimension)
    ensures Fast(P, dimension, radius) == Fast(P, dimension, Max2(0, radius))
    decreases |P.xs| + |P.ys|, if |P.ys| > |P.xs| then 2 else 1
  {
    if |P.ys| > |P.xs| {
      RadiusBelowZeroIsZero(P.Swap(), dimension, radius);
    } else if !IsBase(P, radius) {
      RadiusBelowZeroIsZero(Coarse(P, dimension), dimension, radius);
    }
  }
}
