/** searchWindow.h promises the cells within the search radius of the projected path. When
    searchWindow.cpp keeps that promise. */
module SearchRadius {
  import opened WarpPaths
  import opened SearchWindow

  /** At most `radius` columns and rows apart. */
  predicate Near(t: Target, u: Target, radius: int) {
    -radius <= u.col - t.col <= radius && -radius <= u.row - t.row <= radius
  }

  ghost predicate IsCoarsePath(width: nat, height: nat, path: seq<Cell>) {
    0 < width && 0 < height && WarpPath(path, (width + 1) / 2 - 1, (height + 1) / 2 - 1)
  }

  /** The promise for one grid cell t that the projection marks and one grid cell u near it. */
  ghost predicate Covered(width: nat, height: nat, path: seq<Cell>, radius: int, t: Target, u: Target) {
    IsCoarsePath(width, height, path) && t in Projection(path, |path|) && InGrid(t, width, height - 1)
    && InGrid(u, width, height - 1) && Near(t, u, radius) ==>
      Holds(Build(width, height, path, radius), u)
  }

  // ----- up to three

  /** A move that needs no clipping is made. */
  lemma MoveIsMade(c: Cell, dx: int, dy: int, radius: nat, maxX: nat, maxY: nat)
    requires 0 < radius && -1 <= dx <= 1 && -1 <= dy <= 1 && (dx != 0 || dy != 0)
    requires c.x <= maxX && c.y <= maxY
    requires InGrid(Target(c.x + Along(dx, radius), c.y + Along(dy, radius)), maxX + 1, maxY)
    ensures Target(c.x + Along(dx, radius), c.y + Along(dy, radius)) in Neighbours(c, radius, maxX, maxY)
  {
    var u := Target(c.x + Along(dx, radius), c.y + Along(dy, radius));
    if dy > 0 {
      assert u in Above(c, radius, maxX, maxY);
    } else if dy == 0 {
      assert u in Beside(c, radius, maxX, maxY);
    } else {
      assert u in Below(c, radius, maxX, maxY);
    }
  }

  /** Expansion takes in what lies exactly `radius` away in one of the eight directions. */
  lemma ExpandCoversMoves(w: seq<Column>, maxY: nat, radius: nat, t: Target, dx: int, dy: int)
    requires WellFormed(w, maxY) && 0 < |w| && Holds(w, t) && 0 < radius && -1 <= dx <= 1 && -1 <= dy <= 1
    requires InGrid(Target(t.col + Along(dx, radius), t.row + Along(dy, radius)), |w|, maxY)
    ensures Holds(Expand(w, maxY, radius), Target(t.col + Along(dx, radius), t.row + Along(dy, radius)))
  {
    hide Mark, MarkAll, AllNeighbours, WindowCells, Neighbours;
    var u := Target(t.col + Along(dx, radius), t.row + Along(dy, radius));
    var cells := WindowCells(w, |w|);
    var all := AllNeighbours(cells, |cells|, radius, |w| - 1, maxY);
    if dx != 0 || dy != 0 {
      var c := Cell(t.col, t.row);
      WindowCellsAreHeld(w, |w|, c);
      assert cells[..|cells|] == cells;
      MoveIsMade(c, dx, dy, radius, |w| - 1, maxY);
      NeighboursAreListed(cells, |cells|, radius, |w| - 1, maxY, c, u);
    }
    MarkAllIsHull(w, maxY, all, u);
    assert Seed(w, maxY, all, u);
  }

  /** Which way to go on after one step towards a cell. */
  function Direction(d: int): int {
    if d > 1 then 1 else if d < -1 then -1 else 0
  }

  lemma SmallRadiusCovers(width: nat, height: nat, path: seq<Cell>, radius: int, t: Target, u: Target)
    requires 0 <= radius <= 3
    ensures Covered(width, height, path, radius, t, u)
  {
    hide Projection, Build, Expand;
    if IsCoarsePath(width, height, path) && t in Projection(path, |path|) && InGrid(t, width, height - 1)
      && InGrid(u, width, height - 1) && Near(t, u, radius) {
      var maxY := height - 1;
      var projected := MarkAll(seq(width, _ => Unvisited), maxY, Projection(path, |path|));
      ProjectionIsMarked(width, height, path, radius, t);
      if radius > 0 {
        var first := Expand(projected, maxY, 1);
        ExpandEnlarges(projected, maxY, 1);
        var sx, sy := Direction(u.col - t.col), Direction(u.row - t.row);
        var c := Target(u.col - Along(sx, radius - 1), u.row - Along(sy, radius - 1));
        ExpandByOneCoversNeighbours(projected, maxY, t, c);
        if radius > 1 {
          ExpandCoversMoves(first, maxY, radius - 1, c, sx, sy);
        } else {
          NoExpansion(first, maxY);
        }
      }
    }
  }

  lemma NoExpansion(w: seq<Column>, maxY: nat)
    requires 0 < |w|
    ensures Expand(w, maxY, 0) == w
  {
  }

  /** The window before any expansion, and how Build goes on from it. */
  lemma ProjectionIsMarked(width: nat, height: nat, path: seq<Cell>, radius: int, t: Target)
    requires 0 < width && 0 < height && 0 < |path| && t in Projection(path, |path|) && InGrid(t, width, height - 1)
    ensures var projected := MarkAll(seq(width, _ => Unvisited), height - 1, Projection(path, |path|));
      && WellFormed(projected, height - 1) && Holds(projected, t)
      && Build(width, height, path, radius) ==
        if radius > 0 then Expand(Expand(projected, height - 1, 1), height - 1, radius - 1) else projected
  {
    hide Projection, Expand, MarkAll;
    var blank: seq<Column> := seq(width, _ => Unvisited);
    MarkAllKeepsWellFormed(blank, height - 1, Projection(path, |path|));
    MarkAllCovers(blank, height - 1, Projection(path, |path|));
  }

  // ----- from four on

  /** The coarse path along the bottom and then up the last column. */
  function Elbow(m: nat): (path: seq<Cell>)
    requires 0 < m
    ensures |path| == 2 * m - 1
  {
    seq(2 * m - 1, i requires 0 <= i < 2 * m - 1 => if i < m then Cell(i, 0) else Cell(m - 1, i - (m - 1)))
  }

  lemma ElbowIsWarpPath(m: nat)
    requires 0 < m
    ensures WarpPath(Elbow(m), m - 1, m - 1)
  {
  }

  /** Cells low in the grid or to the right of column x. */
  predicate InElbow(t: Target, x: int, y: int) {
    x <= t.col || t.row <= y
  }

  predicate AllInElbow(targets: seq<Target>, x: int, y: int) {
    forall t <- targets :: InElbow(t, x, y)
  }

  ghost predicate Within(w: seq<Column>, x: int, y: int) {
    forall t :: Holds(w, t) ==> InElbow(t, x, y)
  }

  /** Marking cells of an elbow leaves a window of that elbow within it. */
  lemma MarkAllStaysWithin(w: seq<Column>, maxY: nat, targets: seq<Target>, x: int, y: int)
    requires WellFormed(w, maxY) && Within(w, x, y)
    requires forall t :: t in targets && InGrid(t, |w|, maxY) ==> InElbow(t, x, y)
    ensures Within(MarkAll(w, maxY, targets), x, y)
  {
    forall t | Holds(MarkAll(w, maxY, targets), t) ensures InElbow(t, x, y) {
      MarkAllIsHull(w, maxY, targets, t);
    }
  }

  lemma {:induction false} ProjectionIsWithin(path: seq<Cell>, n: nat, x: int, y: int)
    requires n <= |path|
    requires forall i :: 0 <= i < n ==> AllInElbow(Projected(path, i), x, y)
    ensures AllInElbow(Projection(path, n), x, y)
    decreases n
  {
    if n > 0 { ProjectionIsWithin(path, n - 1, x, y); }
  }

  lemma ElbowProjection(m: nat)
    requires 1 < m
    ensures AllInElbow(Projection(Elbow(m), 2 * m - 1), 2 * m - 2, 1)
    ensures Target(2 * m - 2, 2 * m - 2) in Projection(Elbow(m), 2 * m - 1)
    ensures Target(2 * m - 1, 2 * m - 1) in Projection(Elbow(m), 2 * m - 1)
  {
    var path := Elbow(m);
    ElbowIsWarpPath(m);
    forall i | 0 <= i < |path| ensures AllInElbow(Projected(path, i), 2 * m - 2, 1) {
      CursorDoubles(path, m - 1, m - 1, i);
    }
    ProjectionIsWithin(path, |path|, 2 * m - 2, 1);
    CursorDoubles(path, m - 1, m - 1, 2 * m - 2);
    ProjectionContains(path, |path|, 2 * m - 2, Target(2 * m - 2, 2 * m - 2));
    ProjectionContains(path, |path|, 2 * m - 2, Target(2 * m - 1, 2 * m - 1));
  }

  lemma {:induction false} NeighboursComeFrom(cells: seq<Cell>, n: nat, radius: nat, maxX: nat, maxY: nat, t: Target)
      returns (c: Cell)
    requires n <= |cells| && t in AllNeighbours(cells, n, radius, maxX, maxY)
    ensures c in cells && t in Neighbours(c, radius, maxX, maxY)
    decreases n
  {
    hide Neighbours;
    if t in Neighbours(cells[n - 1], radius, maxX, maxY) {
      c := cells[n - 1];
    } else {
      c := NeighboursComeFrom(cells, n - 1, radius, maxX, maxY, t);
    }
  }

  /** Expanding by one widens the elbow by one. */
  lemma ExpandByOneStaysWithin(w: seq<Column>, maxY: nat, x: int, y: int)
    requires WellFormed(w, maxY) && 0 < |w| && Within(w, x, y)
    ensures Within(Expand(w, maxY, 1), x - 1, y + 1)
  {
    hide Neighbours, MarkAll, AllNeighbours, WindowCells;
    var cells := WindowCells(w, |w|);
    var all := AllNeighbours(cells, |cells|, 1, |w| - 1, maxY);
    forall t | t in all && InGrid(t, |w|, maxY) ensures InElbow(t, x - 1, y + 1) {
      var c := NeighboursComeFrom(cells, |cells|, 1, |w| - 1, maxY, t);
      WindowCellsAreHeld(w, |w|, c);
      NeighboursOfOneAreNear(c, |w| - 1, maxY, t);
      assert InElbow(Target(c.x, c.y), x, y);
    }
    MarkAllStaysWithin(w, maxY, all, x - 1, y + 1);
  }

  lemma NeighboursOfOneAreNear(c: Cell, maxX: nat, maxY: nat, t: Target)
    requires c.x <= maxX && c.y <= maxY && t in Neighbours(c, 1, maxX, maxY)
    ensures Near(Target(c.x, c.y), t, 1)
  {
    assert t in Above(c, 1, maxX, maxY) ==> Near(Target(c.x, c.y), t, 1);
    assert t in Beside(c, 1, maxX, maxY) ==> Near(Target(c.x, c.y), t, 1);
    assert t in Below(c, 1, maxX, maxY) ==> Near(Target(c.x, c.y), t, 1);
  }

  /** From an elbow of three rows no move of the second expansion reaches the missing cell: neither
      upwards nor otherwise. */
  lemma NoMoveUpReaches(c: Cell, n: nat, x: nat)
    requires 7 <= n && 5 <= x && n - 3 <= x && c.x < n && c.y < n && InElbow(Target(c.x, c.y), x, 2)
    ensures Target(4, n - 1) !in Above(c, n - 4, n - 1, n - 1)
  {
  }

  lemma NoMoveReaches(c: Cell, n: nat, x: nat)
    requires 7 <= n && 5 <= x && n - 3 <= x && c.x < n && c.y < n && InElbow(Target(c.x, c.y), x, 2)
    ensures Target(4, n - 1) !in Neighbours(c, n - 4, n - 1, n - 1)
  {
    hide Above;
    NoMoveUpReaches(c, n, x);
    assert Target(4, n - 1) !in Below(c, n - 4, n - 1, n - 1);
  }

  /** The missing cell of a square grid for radius n - 3, near the marked far corner. */
  lemma LargeRadiusMisses(radius: int)
    requires 4 <= radius
    ensures var n := radius + 3;
      var m := (n + 1) / 2;
      !Covered(n, n, Elbow(m), radius, Target(n - 1, n - 1), Target(4, n - 1))
  {
    hide Projection, Build, Expand, Elbow, MarkAll;
    var n := radius + 3;
    var m, u := (n + 1) / 2, Target(4, n - 1);
    var path := Elbow(m);
    ElbowIsWarpPath(m);
    ElbowProjection(m);
    assert Target(n - 1, n - 1) in Projection(path, |path|);
    ProjectionIsMarked(n, n, path, radius, Target(n - 1, n - 1));
    var blank: seq<Column> := seq(n, _ => Unvisited);
    var projected := MarkAll(blank, n - 1, Projection(path, |path|));
    MarkAllStaysWithin(blank, n - 1, Projection(path, |path|), 2 * m - 2, 1);
    var first := Expand(projected, n - 1, 1);
    ExpandEnlarges(projected, n - 1, 1);
    ExpandByOneStaysWithin(projected, n - 1, 2 * m - 2, 1);
    SecondExpansionMisses(first, n, 2 * m - 3);
  }

  lemma SecondExpansionMisses(first: seq<Column>, n: nat, x: nat)
    requires 7 <= n == |first| && 5 <= x && n - 3 <= x && WellFormed(first, n - 1) && Within(first, x, 2)
    ensures !Holds(Expand(first, n - 1, n - 4), Target(4, n - 1))
  {
    hide Neighbours, MarkAll, AllNeighbours, WindowCells;
    var u := Target(4, n - 1);
    var cells := WindowCells(first, n);
    var all := AllNeighbours(cells, |cells|, n - 4, n - 1, n - 1);
    if u in all {
      var c := NeighboursComeFrom(cells, |cells|, n - 4, n - 1, n - 1, u);
      WindowCellsAreHeld(first, n, c);
      assert InElbow(Target(c.x, c.y), x, 2);
      NoMoveReaches(c, n, x);
    }
    MarkAllIsHull(first, n - 1, all, u);
    forall high | Seed(first, n - 1, all, high) && high.col == 4 ensures high.row < n - 1 {
      if Holds(first, high) { assert InElbow(high, x, 2); }
    }
  }

  /** Main result: the window holds every grid cell within the search radius of a marked one, for all
      grids and paths, if and only if the radius is at most three. */
  lemma RadiusIsKept(radius: int)
    requires 0 <= radius
    ensures (forall width: nat, height: nat, path, t, u :: Covered(width, height, path, radius, t, u)) <==> radius <= 3
  {
    hide Covered;
    if radius <= 3 {
      forall width: nat, height: nat, path, t, u ensures Covered(width, height, path, radius, t, u) {
        SmallRadiusCovers(width, height, path, radius, t, u);
      }
    } else {
      LargeRadiusMisses(radius);
    }
  }
}
