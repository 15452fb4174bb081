/** searchWindow.cpp: the cells of the fine grid that a coarse warp path leads to. */
module SearchWindow {
  import opened WarpPaths

  /** A cell to mark. Coordinates are C++ ints: a negative one becomes a std::size_t beyond any
      series, so it is ignored like one past the far edge. */
  datatype Target = Target(col: int, row: int)

  predicate InGrid(t: Target, width: nat, maxY: nat) {
    0 <= t.col < width && 0 <= t.row <= maxY
  }

  ghost predicate WellFormed(w: seq<Column>, maxY: nat) {
    forall c :: 0 <= c < |w| && w[c].Rows? ==> w[c].first <= w[c].second <= maxY
  }

  predicate Holds(w: seq<Column>, t: Target) {
    0 <= t.col < |w| && InColumn(w[t.col], t.row)
  }

  ghost predicate Enlarges(small: seq<Column>, large: seq<Column>) {
    |large| == |small| && forall t :: Holds(small, t) ==> Holds(large, t)
  }

  // ----- marking

  function Mark(w: seq<Column>, maxY: nat, t: Target): (r: seq<Column>)
    ensures |r| == |w|
  {
    if !InGrid(t, |w|, maxY) then w
    else
      var c := w[t.col];
      w[t.col := if c.Unvisited? then Rows(t.row, t.row)
                 else if c.first > t.row then Rows(t.row, c.second)
                 else if c.second < t.row then Rows(c.first, t.row)
                 else c]
  }

  function MarkAll(w: seq<Column>, maxY: nat, targets: seq<Target>): (r: seq<Column>)
    ensures |r| == |w|
    decreases |targets|
  {
    if |targets| == 0 then w
    else Mark(MarkAll(w, maxY, targets[..|targets| - 1]), maxY, targets[|targets| - 1])
  }

  lemma MarkAllKeepsWellFormed(w: seq<Column>, maxY: nat, targets: seq<Target>)
    requires WellFormed(w, maxY)
    ensures WellFormed(MarkAll(w, maxY, targets), maxY)
    decreases |targets|
  {
  }

  lemma {:induction false} MarkAllConcat(w: seq<Column>, maxY: nat, a: seq<Target>, b: seq<Target>)
    ensures MarkAll(w, maxY, a + b) == MarkAll(MarkAll(w, maxY, a), maxY, b)
    decreases |b|
  {
    if |b| == 0 {
      assert a + b == a;
    } else {
      assert (a + b)[..|a + b| - 1] == a + b[..|b| - 1];
      MarkAllConcat(w, maxY, a, b[..|b| - 1]);
    }
  }

  /** Marking is exact: a column ends up as the hull of its old rows and the rows marked in it
      inside the grid, nothing more and nothing less. */
  lemma {:induction false} MarkAllIsHull(w: seq<Column>, maxY: nat, targets: seq<Target>, t: Target)
    requires WellFormed(w, maxY)
    ensures Holds(MarkAll(w, maxY, targets), t) <==>
      exists low: Target, high: Target ::
        && Seed(w, maxY, targets, low) && Seed(w, maxY, targets, high)
        && low.col == t.col == high.col && low.row <= t.row <= high.row
    decreases |targets|
  {
    if |targets| > 0 {
      var n := |targets| - 1;
      var init, last := targets[..n], targets[n];
      assert forall s :: Seed(w, maxY, targets, s) <==> Seed(w, maxY, init, s) || (s == last && InGrid(s, |w|, maxY));
      var before, after := MarkAll(w, maxY, init), MarkAll(w, maxY, targets);
      MarkAllKeepsWellFormed(w, maxY, init);
      if Holds(after, t) {
        if Holds(before, t) {
          MarkAllIsHull(w, maxY, init, t);
        } else if t == last {
          assert Seed(w, maxY, targets, last);
        } else {
          var c := before[t.col];
          var edge := Target(t.col, if c.first > t.row then c.first else c.second);
          MarkAllIsHull(w, maxY, init, edge);
          assert Seed(w, maxY, targets, last);
        }
      }
      forall low, high |
        Seed(w, maxY, targets, low) && Seed(w, maxY, targets, high)
        && low.col == t.col == high.col && low.row <= t.row <= high.row
        ensures Holds(after, t)
      {
        if low != last { MarkAllIsHull(w, maxY, init, low); assert Holds(before, low); }
        if high != last { MarkAllIsHull(w, maxY, init, high); assert Holds(before, high); }
      }
    } else {
      forall low, high |
        Seed(w, maxY, targets, low) && Seed(w, maxY, targets, high)
        && low.col == t.col == high.col && low.row <= t.row <= high.row
        ensures Holds(w, t)
      {
      }
      assert Holds(w, t) ==> Seed(w, maxY, targets, t);
    }
  }

  ghost predicate Seed(w: seq<Column>, maxY: nat, targets: seq<Target>, t: Target) {
    Holds(w, t) || (t in targets && InGrid(t, |w|, maxY))
  }

  lemma MarkAllCovers(w: seq<Column>, maxY: nat, targets: seq<Target>)
    requires WellFormed(w, maxY)
    ensures Enlarges(w, MarkAll(w, maxY, targets))
    ensures forall t :: t in targets && InGrid(t, |w|, maxY) ==> Holds(MarkAll(w, maxY, targets), t)
  {
    forall t | Seed(w, maxY, targets, t)
      ensures Holds(MarkAll(w, maxY, targets), t)
    {
      MarkAllIsHull(w, maxY, targets, t);
    }
  }

  // ----- projecting the coarse path

  const BLOCK_SIZE := 2

  /** Where the fine cursor stands when coarse cell i is projected. */
  function Cursor(path: seq<Cell>, i: nat): Cell
    requires i < |path|
  {
    if i == 0 then path[0]
    else
      var last := Cursor(path, i - 1);
      Cell(if path[i].x > path[i - 1].x then last.x + BLOCK_SIZE else last.x,
           if path[i].y > path[i - 1].y then last.y + BLOCK_SIZE else last.y)
  }

  function Block(x: int, y: int, diagonal: bool): seq<Target> {
    (if diagonal then [Target(x - 1, y), Target(x, y - 1)] else [])
    + [Target(x, y), Target(x, y + 1), Target(x + 1, y), Target(x + 1, y + 1)]
  }

  function Projected(path: seq<Cell>, i: nat): seq<Target>
    requires i < |path|
  {
    var c := Cursor(path, i);
    Block(c.x, c.y, i > 0 && path[i].x > path[i - 1].x && path[i].y > path[i - 1].y)
  }

  function Projection(path: seq<Cell>, n: nat): seq<Target>
    requires n <= |path|
  {
    if n == 0 then [] else Projection(path, n - 1) + Projected(path, n - 1)
  }

  lemma {:induction false} ProjectionContains(path: seq<Cell>, n: nat, i: nat, t: Target)
    requires i < n <= |path| && t in Projected(path, i)
    ensures t in Projection(path, n)
    decreases n
  {
    if i < n - 1 { ProjectionContains(path, n - 1, i, t); }
  }

  // ----- expanding

  function WindowCells(w: seq<Column>, n: nat): seq<Cell>
    requires n <= |w|
  {
    if n == 0 then []
    else
      var column := w[n - 1];
      WindowCells(w, n - 1) + (if column.Rows? then ColumnCells(n - 1, column.first, column.second + 1) else [])
  }

  function ColumnCells(x: nat, from: nat, to: nat): seq<Cell>
  {
    if to <= from then [] else ColumnCells(x, from, to - 1) + [Cell(x, to - 1)]
  }

  function Max2(a: int, b: int): int { if a < b then b else a }

  function Along(direction: int, n: int): int {
    if direction < 0 then -n else if direction > 0 then n else 0
  }

  /** Moves (dx, dy) * radius, pulled back along the diagonal by the larger overshoot. */
  function Clipped(c: Cell, dx: int, dy: int, radius: nat, maxX: nat, maxY: nat): Target {
    var tx, ty := c.x + Along(dx, radius), c.y + Along(dy, radius);
    var past := Max2(if dx < 0 then -tx else if dx > 0 then tx - maxX else 0,
                     if dy < 0 then -ty else if dy > 0 then ty - maxY else 0);
    if past <= 0 then Target(tx, ty) else Target(tx - Along(dx, past), ty - Along(dy, past))
  }

  /** The upper left move; its row is pushed further up by the overshoot instead of being pulled back. */
  function UpperLeft(c: Cell, radius: nat, maxY: nat): Target {
    var tx, ty := c.x - radius, c.y + radius;
    var past := Max2(-tx, ty - maxY);
    if past <= 0 then Target(tx, ty) else Target(tx + past, ty + past)
  }

  /** The cells expandWindow marks around one window cell. Straight left is never clipped: a
      target left of the grid is dropped. */
  function Neighbours(c: Cell, radius: nat, maxX: nat, maxY: nat): seq<Target> {
    Above(c, radius, maxX, maxY) + Beside(c, radius, maxX, maxY) + Below(c, radius, maxX, maxY)
  }

  function Above(c: Cell, radius: nat, maxX: nat, maxY: nat): seq<Target> {
    (if c.x != 0 && c.y != maxY then [UpperLeft(c, radius, maxY)] else [])
    + (if c.y != maxY then [Clipped(c, 0, 1, radius, maxX, maxY)] else [])
    + (if c.x != maxX && c.y != maxY then [Clipped(c, 1, 1, radius, maxX, maxY)] else [])
  }

  function Beside(c: Cell, radius: nat, maxX: nat, maxY: nat): seq<Target> {
    (if c.x != 0 then [Target(c.x - radius, c.y)] else [])
    + (if c.x != maxX then [Clipped(c, 1, 0, radius, maxX, maxY)] else [])
  }

  function Below(c: Cell, radius: nat, maxX: nat, maxY: nat): seq<Target> {
    (if c.x != 0 && c.y != 0 then [Clipped(c, -1, -1, radius, maxX, maxY)] else [])
    + (if c.y != 0 then [Clipped(c, 0, -1, radius, maxX, maxY)] else [])
    + (if c.x != maxX && c.y != 0 then [Clipped(c, 1, -1, radius, maxX, maxY)] else [])
  }

  /** Six of the eight moves always land in the grid; straight left and upper left do so exactly
      under the conditions given. They land where the clipped move would exactly when nothing has to
      be clipped. */
  lemma MovesThatLandInGrid(c: Cell, dx: int, dy: int, radius: nat, width: nat, maxY: nat)
    requires 0 < radius && c.x < width && c.y <= maxY && -1 <= dx <= 1 && -1 <= dy <= 1
    ensures InGrid(Clipped(c, dx, dy, radius, width - 1, maxY), width, maxY)
    ensures InGrid(Target(c.x - radius, c.y), width, maxY) <==> radius <= c.x
    ensures InGrid(UpperLeft(c, radius, maxY), width, maxY) <==> c.y + radius + Max2(0, radius - c.x) <= maxY
    ensures Target(c.x - radius, c.y) == Clipped(c, -1, 0, radius, width - 1, maxY) <==> radius <= c.x
    ensures UpperLeft(c, radius, maxY) == Clipped(c, -1, 1, radius, width - 1, maxY) <==>
      radius <= c.x && c.y + radius <= maxY
  {
  }

  /** Upper left can land in the grid and still miss: from (1, 0) by two it marks (0, 3), not (0, 1). */
  lemma UpperLeftCanMiss()
    ensures UpperLeft(Cell(1, 0), 2, 5) == Target(0, 3) && InGrid(Target(0, 3), 7, 5)
    ensures Clipped(Cell(1, 0), -1, 1, 2, 6, 5) == Target(0, 1)
  {
  }

  function AllNeighbours(cells: seq<Cell>, n: nat, radius: nat, maxX: nat, maxY: nat): seq<Target>
    requires n <= |cells|
  {
    if n == 0 then []
    else AllNeighbours(cells, n - 1, radius, maxX, maxY) + Neighbours(cells[n - 1], radius, maxX, maxY)
  }

  function Expand(w: seq<Column>, maxY: nat, radius: int): (r: seq<Column>)
    requires 0 < |w|
    ensures |r| == |w|
  {
    if radius <= 0 then w
    else
      var cells := WindowCells(w, |w|);
      MarkAll(w, maxY, AllNeighbours(cells, |cells|, radius, |w| - 1, maxY))
  }

  /** The window of the constructor. */
  function Build(width: nat, height: nat, path: seq<Cell>, radius: int): (r: seq<Column>)
    requires 0 < width && 0 < height && 0 < |path|
    ensures |r| == width
  {
    var projected := MarkAll(seq(width, _ => Unvisited), height - 1, Projection(path, |path|));
    if radius > 0 then Expand(Expand(projected, height - 1, 1), height - 1, radius - 1) else projected
  }

  // ----- properties

  /** Expansion at any radius keeps every cell and stays inside the grid. */
  lemma ExpandEnlarges(w: seq<Column>, maxY: nat, radius: int)
    requires WellFormed(w, maxY) && 0 < |w|
    ensures WellFormed(Expand(w, maxY, radius), maxY) && Enlarges(w, Expand(w, maxY, radius))
  {
    if radius > 0 {
      var cells := WindowCells(w, |w|);
      MarkAllKeepsWellFormed(w, maxY, AllNeighbours(cells, |cells|, radius, |w| - 1, maxY));
      MarkAllCovers(w, maxY, AllNeighbours(cells, |cells|, radius, |w| - 1, maxY));
    }
  }

  lemma {:induction false} WindowCellsAreHeld(w: seq<Column>, n: nat, c: Cell)
    requires n <= |w|
    ensures c in WindowCells(w, n) <==> c.x < n && Holds(w, Target(c.x, c.y))
    decreases n
  {
    if n > 0 {
      WindowCellsAreHeld(w, n - 1, c);
      if w[n - 1].Rows? { ColumnCellsAreRows(n - 1, w[n - 1].first, w[n - 1].second + 1, c); }
    }
  }

  lemma ColumnCellsAreRows(x: nat, from: nat, to: nat, c: Cell)
    ensures c in ColumnCells(x, from, to) <==> c.x == x && from <= c.y < to
  {
  }

  lemma {:induction false} NeighboursAreListed(cells: seq<Cell>, n: nat, radius: nat, maxX: nat, maxY: nat, c: Cell,
      t: Target)
    requires n <= |cells| && c in cells[..n] && t in Neighbours(c, radius, maxX, maxY)
    ensures t in AllNeighbours(cells, n, radius, maxX, maxY)
    decreases n
  {
    if c != cells[n - 1] {
      assert c in cells[..n - 1];
      NeighboursAreListed(cells, n - 1, radius, maxX, maxY, c, t);
    }
  }

  /** Expanding by one takes in all eight neighbours of every window cell that lie in the grid. */
  lemma ExpandByOneCoversNeighbours(w: seq<Column>, maxY: nat, t: Target, u: Target)
    requires WellFormed(w, maxY) && 0 < |w| && Holds(w, t) && InGrid(u, |w|, maxY)
    requires -1 <= u.col - t.col <= 1 && -1 <= u.row - t.row <= 1
    ensures Holds(Expand(w, maxY, 1), u)
  {
    hide Mark, MarkAll, AllNeighbours, WindowCells, Neighbours;
    var cells := WindowCells(w, |w|);
    var all := AllNeighbours(cells, |cells|, 1, |w| - 1, maxY);
    if u != t {
      var c := Cell(t.col, t.row);
      WindowCellsAreHeld(w, |w|, c);
      assert cells[..|cells|] == cells;
      NeighboursOfOne(c, |w| - 1, maxY, u);
      NeighboursAreListed(cells, |cells|, 1, |w| - 1, maxY, c, u);
    }
    MarkAllIsHull(w, maxY, all, u);
    assert Seed(w, maxY, all, u);
  }

  lemma NeighboursOfOne(c: Cell, maxX: nat, maxY: nat, u: Target)
    requires c.x <= maxX && c.y <= maxY && InGrid(u, maxX + 1, maxY) && u != Target(c.x, c.y)
    requires -1 <= u.col - c.x <= 1 && -1 <= u.row - c.y <= 1
    ensures u in Neighbours(c, 1, maxX, maxY)
  {
    if u.row > c.y {
      assert u in Above(c, 1, maxX, maxY);
    } else if u.row == c.y {
      assert u in Beside(c, 1, maxX, maxY);
    } else {
      assert u in Below(c, 1, maxX, maxY);
    }
  }

  lemma {:induction false} CursorDoubles(path: seq<Cell>, x: nat, y: nat, i: nat)
    requires WarpPath(path, x, y) && i < |path|
    ensures Cursor(path, i) == Cell(2 * path[i].x, 2 * path[i].y)
    decreases i
  {
    if i > 0 {
      CursorDoubles(path, x, y, i - 1);
      assert Step(path[i - 1], path[i]);
    }
  }

  ghost predicate Marked(path: seq<Cell>, q: seq<Cell>) {
    forall k :: 0 <= k < |q| ==> Target(q[k].x, q[k].y) in Projection(path, |path|)
  }

  /** The fine path that follows the coarse one up to coarse cell i, through marked cells only. */
  lemma {:induction false} RefinedPath(path: seq<Cell>, x: nat, y: nat, i: nat) returns (q: seq<Cell>)
    requires WarpPath(path, x, y) && i < |path|
    ensures WarpPath(q, 2 * path[i].x, 2 * path[i].y) && Marked(path, q)
    decreases i
  {
    hide Projection, Cursor;
    CursorDoubles(path, x, y, i);
    var b := Cell(2 * path[i].x, 2 * path[i].y);
    ProjectionContains(path, |path|, i, Target(b.x, b.y));
    if i == 0 {
      q := [Cell(0, 0)];
    } else {
      assert Step(path[i - 1], path[i]);
      CursorDoubles(path, x, y, i - 1);
      var r := RefinedPath(path, x, y, i - 1);
      var a := Cell(2 * path[i - 1].x, 2 * path[i - 1].y);
      var m := Cell((a.x + b.x) / 2, (a.y + b.y) / 2);
      assert Target(m.x, m.y) in Projected(path, i - 1);
      ProjectionContains(path, |path|, i - 1, Target(m.x, m.y));
      AppendStep(r, a, m);
      AppendStep(r + [m], m, b);
      q := (r + [m]) + [b];
    }
  }

  /** The refined path, completed to the far corner of a grid of odd or even size. */
  lemma CompletedPath(path: seq<Cell>, width: nat, height: nat) returns (q: seq<Cell>)
    requires 0 < width && 0 < height && WarpPath(path, (width + 1) / 2 - 1, (height + 1) / 2 - 1)
    ensures WarpPath(q, width - 1, height - 1) && Marked(path, q)
  {
    var n := |path| - 1;
    q := RefinedPath(path, path[n].x, path[n].y, n);
    CursorDoubles(path, path[n].x, path[n].y, n);
    var a, b := Cell(2 * path[n].x, 2 * path[n].y), Cell(width - 1, height - 1);
    if a != b {
      assert Target(b.x, b.y) in Projected(path, n);
      ProjectionContains(path, |path|, n, Target(b.x, b.y));
      AppendStep(q, a, b);
      q := q + [b];
    }
  }

  /** The window built from a warp path of the halved grid, odd lengths included, contains a whole
      warp path of the fine grid. */
  lemma WindowContainsWarpPath(width: nat, height: nat, path: seq<Cell>, radius: int) returns (q: seq<Cell>)
    requires 0 < width && 0 < height && WarpPath(path, (width + 1) / 2 - 1, (height + 1) / 2 - 1)
    ensures WarpPath(q, width - 1, height - 1) && Obeys(Window(Build(width, height, path, radius)), q)
  {
    q := CompletedPath(path, width, height);
    PathStaysBelow(q, width - 1, height - 1);
    forall k | 0 <= k < |q|
      ensures Window(Build(width, height, path, radius)).Allows(q[k].x, q[k].y)
    {
      BuildHoldsProjection(width, height, path, radius, Target(q[k].x, q[k].y));
    }
  }

  lemma BuildHoldsProjection(width: nat, height: nat, path: seq<Cell>, radius: int, t: Target)
    requires 0 < width && 0 < height && 0 < |path|
    ensures WellFormed(Build(width, height, path, radius), height - 1)
    ensures t in Projection(path, |path|) && InGrid(t, width, height - 1) ==>
      Holds(Build(width, height, path, radius), t)
  {
    hide Mark, MarkAll, Expand, Projection;
    var empty: seq<Column> := seq(width, _ => Unvisited);
    var projected := MarkAll(empty, height - 1, Projection(path, |path|));
    MarkAllKeepsWellFormed(empty, height - 1, Projection(path, |path|));
    MarkAllCovers(empty, height - 1, Projection(path, |path|));
    if radius > 0 {
      ExpandEnlarges(projected, height - 1, 1);
      ExpandEnlarges(Expand(projected, height - 1, 1), height - 1, radius - 1);
    }
  }

  /** Every column of that window has a non-empty interval of rows inside the grid. */
  lemma EveryColumnIsVisited(width: nat, height: nat, path: seq<Cell>, radius: int, column: nat)
    requires 0 < width && 0 < height && WarpPath(path, (width + 1) / 2 - 1, (height + 1) / 2 - 1) && column < width
    ensures var c := Build(width, height, path, radius)[column]; c.Rows? && c.first <= c.second < height
  {
    var q := WindowContainsWarpPath(width, height, path, radius);
    PathVisitsColumn(q, width - 1, height - 1, column);
    var i :| 0 <= i < |q| && q[i].x == column;
    assert Window(Build(width, height, path, radius)).Allows(q[i].x, q[i].y);
    BuildHoldsProjection(width, height, path, radius, Target(0, 0));
  }

  // ----- the class

  class Window2D {
    var minMaxValues: seq<Column>
    const maxY: nat

    ghost predicate Valid()
      reads this
    {
      0 < |minMaxValues|
    }

    constructor (seriesXSize: nat, seriesYSize: nat, shrunken: seq<Cell>, searchRadius: int)
      requires 0 < seriesXSize && 0 < seriesYSize && 0 < |shrunken|
      ensures Valid() && maxY == seriesYSize - 1
      ensures minMaxValues == Build(seriesXSize, seriesYSize, shrunken, searchRadius)
    {
      minMaxValues := seq(seriesXSize, _ => Unvisited);
      maxY := seriesYSize - 1;
      new;
      ProjectPath(shrunken);
      if searchRadius > 0 {
        ExpandWindow(1);
        ExpandWindow(searchRadius - 1);
      }
    }

    /** Projects each cell of the coarse path to the fine cells under it. */
    method ProjectPath(shrunken: seq<Cell>)
      requires Valid() && 0 < |shrunken|
      modifies this
      ensures Valid() && minMaxValues == MarkAll(old(minMaxValues), maxY, Projection(shrunken, |shrunken|))
    {
      hide Mark, Block;
      var currentX: nat, currentY: nat := shrunken[0].x, shrunken[0].y;
      for i := 0 to |shrunken|
        invariant Valid()
        invariant minMaxValues == MarkAll(old(minMaxValues), maxY, Projection(shrunken, i))
        invariant Cell(currentX, currentY) == Cursor(shrunken, if i == 0 then 0 else i - 1)
      {
        // the first coarse cell is compared with numeric_limits<int>::max() and moves nothing
        var right := i > 0 && shrunken[i].x > shrunken[i - 1].x;
        var up := i > 0 && shrunken[i].y > shrunken[i - 1].y;
        if right { currentX := currentX + BLOCK_SIZE; }
        if up { currentY := currentY + BLOCK_SIZE; }
        assert Cell(currentX, currentY) == Cursor(shrunken, i);
        ProjectBlock(currentX, currentY, right && up);
        MarkAllConcat(old(minMaxValues), maxY, Projection(shrunken, i), Block(currentX, currentY, right && up));
      }
    }

    /** Marks the block under the cursor, and the two cells beside a diagonal move. */
    method ProjectBlock(currentX: nat, currentY: nat, diagonal: bool)
      requires Valid()
      modifies this
      ensures Valid() && minMaxValues == MarkAll(old(minMaxValues), maxY, Block(currentX, currentY, diagonal))
    {
      hide Mark, MarkAll;
      ghost var w: seq<Column>, marks: seq<Target> := minMaxValues, [];
      if diagonal {
        MarkVisited(currentX - 1, currentY);
        MarkVisited(currentX, currentY - 1);
        marks := [Target(currentX - 1, currentY), Target(currentX, currentY - 1)];
      }
      MarkAllTwo(w, maxY, marks);
      for j := 0 to BLOCK_SIZE
        invariant Valid() && |minMaxValues| == |w|
        invariant |marks| == (if diagonal then 2 else 0) + 2 * j
        invariant marks == Block(currentX, currentY, diagonal)[..|marks|]
        invariant minMaxValues == MarkAll(w, maxY, marks)
      {
        MarkVisited(currentX + j, currentY);
        MarkVisited(currentX + j, currentY + BLOCK_SIZE - 1);
        ghost var two := [Target(currentX + j, currentY), Target(currentX + j, currentY + 1)];
        MarkAllTwo(MarkAll(w, maxY, marks), maxY, two);
        MarkAllConcat(w, maxY, marks, two);
        marks := marks + two;
      }
      assert marks == Block(currentX, currentY, diagonal);
    }

    method MarkVisited(col: int, row: int)
      requires Valid()
      modifies this
      ensures Valid() && minMaxValues == Mark(old(minMaxValues), maxY, Target(col, row))
    {
      if 0 <= row <= maxY && 0 <= col < |minMaxValues| {
        var c := minMaxValues[col];
        if c.Unvisited? {
          minMaxValues := minMaxValues[col := Rows(row, row)];
        } else if c.first > row {
          minMaxValues := minMaxValues[col := c.(first := row)];
        } else if c.second < row {
          minMaxValues := minMaxValues[col := c.(second := row)];
        }
      }
    }

    /** All cells of the current window, column by column. */
    method CollectCells() returns (cells: seq<Cell>)
      requires Valid()
      ensures cells == WindowCells(minMaxValues, |minMaxValues|)
    {
      cells := [];
      for currentX := 0 to |minMaxValues|
        invariant cells == WindowCells(minMaxValues, currentX)
      {
        if minMaxValues[currentX].Rows? {
          ghost var before := cells;
          var currentY := minMaxValues[currentX].first;
          while currentY <= minMaxValues[currentX].second
            invariant currentY <= Max2(minMaxValues[currentX].first, minMaxValues[currentX].second + 1)
            invariant cells == before + ColumnCells(currentX, minMaxValues[currentX].first, currentY)
          {
            cells := cells + [Cell(currentX, currentY)];
            currentY := currentY + 1;
          }
        }
      }
    }

    method ExpandWindow(radius: int)
      requires Valid()
      modifies this
      ensures Valid() && minMaxValues == Expand(old(minMaxValues), maxY, radius)
    {
      if radius > 0 {
        var cells := CollectCells();
        var maxX := |minMaxValues| - 1;
        for n := 0 to |cells|
          invariant Valid() && |minMaxValues| == maxX + 1
          invariant minMaxValues == MarkAll(old(minMaxValues), maxY, AllNeighbours(cells, n, radius, maxX, maxY))
        {
          ExpandCell(cells[n], radius, maxX);
          MarkAllConcat(old(minMaxValues), maxY, AllNeighbours(cells, n, radius, maxX, maxY),
            Neighbours(cells[n], radius, maxX, maxY));
        }
      }
    }

    /** The body of the loop over the window cells, in three parts. */
    method ExpandCell(c: Cell, radius: nat, maxX: nat)
      requires Valid() && 0 < radius
      modifies this
      ensures Valid() && minMaxValues == MarkAll(old(minMaxValues), maxY, Neighbours(c, radius, maxX, maxY))
    {
      ghost var w := minMaxValues;
      ghost var above, beside := Above(c, radius, maxX, maxY), Beside(c, radius, maxX, maxY);
      ghost var below := Below(c, radius, maxX, maxY);
      ExpandAbove(c, radius, maxX);
      ExpandBeside(c, radius, maxX);
      MarkAllConcat(w, maxY, above, beside);
      ExpandBelow(c, radius, maxX);
      MarkAllConcat(w, maxY, above + beside, below);
    }

    /** Upper left, up and upper right. */
    method ExpandAbove(c: Cell, radius: nat, maxX: nat)
      requires Valid() && 0 < radius
      modifies this
      ensures Valid() && minMaxValues == MarkAll(old(minMaxValues), maxY, Above(c, radius, maxX, maxY))
    {
      hide Mark, MarkAll;
      ghost var w: seq<Column>, done: seq<Target> := minMaxValues, [];
      MarkAllTwo(w, maxY, done);
      if c.x != 0 && c.y != maxY {
        var tx, ty := c.x - radius, c.y + radius;
        if !(tx >= 0 && ty <= maxY) {
          var past := Max2(0 - tx, ty - maxY);
          tx, ty := tx + past, ty + past;
        }
        ghost var t := UpperLeft(c, radius, maxY);
        assert t == Target(tx, ty);
        MarkVisited(tx, ty);
        MarkAllPush(w, maxY, done, t);
        done := done + [t];
      }
      assert minMaxValues == MarkAll(w, maxY, done);
      if c.y != maxY {
        var tx, ty := c.x, c.y + radius;
        if !(ty <= maxY) {
          var past := ty - maxY;
          tx, ty := tx, ty - past;
        }
        ghost var t := Clipped(c, 0, 1, radius, maxX, maxY);
        assert t == Target(tx, ty);
        MarkVisited(tx, ty);
        MarkAllPush(w, maxY, done, t);
        done := done + [t];
      }
      assert minMaxValues == MarkAll(w, maxY, done);
      if c.x != maxX && c.y != maxY {
        var tx, ty := c.x + radius, c.y + radius;
        if !(tx <= maxX && ty <= maxY) {
          var past := Max2(tx - maxX, ty - maxY);
          tx, ty := tx - past, ty - past;
        }
        ghost var t := Clipped(c, 1, 1, radius, maxX, maxY);
        assert t == Target(tx, ty);
        MarkVisited(tx, ty);
        MarkAllPush(w, maxY, done, t);
        done := done + [t];
      }
      assert minMaxValues == MarkAll(w, maxY, done);
      assert done == Above(c, radius, maxX, maxY);
    }

    /** Left and right. */
    method ExpandBeside(c: Cell, radius: nat, maxX: nat)
      requires Valid() && 0 < radius
      modifies this
      ensures Valid() && minMaxValues == MarkAll(old(minMaxValues), maxY, Beside(c, radius, maxX, maxY))
    {
      hide Mark, MarkAll;
      ghost var w: seq<Column>, done: seq<Target> := minMaxValues, [];
      MarkAllTwo(w, maxY, done);
      if c.x != 0 {
        var tx, ty := c.x - radius, c.y;
        if !(tx != 0) {
          var past := 0 - tx;
          tx, ty := tx + past, ty;
        }
        ghost var t := Target(c.x - radius, c.y);
        assert t == Target(tx, ty);
        MarkVisited(tx, ty);
        MarkAllPush(w, maxY, done, t);
        done := done + [t];
      }
      assert minMaxValues == MarkAll(w, maxY, done);
      if c.x != maxX {
        var tx, ty := c.x + radius, c.y;
        if !(tx <= maxX) {
          var past := tx - maxX;
          tx, ty := tx - past, ty;
        }
        ghost var t := Clipped(c, 1, 0, radius, maxX, maxY);
        assert t == Target(tx, ty);
        MarkVisited(tx, ty);
        MarkAllPush(w, maxY, done, t);
        done := done + [t];
      }
      assert minMaxValues == MarkAll(w, maxY, done);
      assert done == Beside(c, radius, maxX, maxY);
    }

    /** Lower left, down and lower right. */
    method ExpandBelow(c: Cell, radius: nat, maxX: nat)
      requires Valid() && 0 < radius
      modifies this
      ensures Valid() && minMaxValues == MarkAll(old(minMaxValues), maxY, Below(c, radius, maxX, maxY))
    {
      hide Mark, MarkAll;
      ghost var w: seq<Column>, done: seq<Target> := minMaxValues, [];
      MarkAllTwo(w, maxY, done);
      if c.x != 0 && c.y != 0 {
        var tx, ty := c.x - radius, c.y - radius;
        if !(tx >= 0 && ty >= 0) {
          var past := Max2(0 - tx, 0 - ty);
          tx, ty := tx + past, ty + past;
        }
        ghost var t := Clipped(c, -1, -1, radius, maxX, maxY);
        assert t == Target(tx, ty);
        MarkVisited(tx, ty);
        MarkAllPush(w, maxY, done, t);
        done := done + [t];
      }
      assert minMaxValues == MarkAll(w, maxY, done);
      if c.y != 0 {
        var tx, ty := c.x, c.y - radius;
        if !(ty >= 0) {
          var past := 0 - ty;
          tx, ty := tx, ty + past;
        }
        ghost var t := Clipped(c, 0, -1, radius, maxX, maxY);
        assert t == Target(tx, ty);
        MarkVisited(tx, ty);
        MarkAllPush(w, maxY, done, t);
        done := done + [t];
      }
      assert minMaxValues == MarkAll(w, maxY, done);
      if c.x != maxX && c.y != 0 {
        var tx, ty := c.x + radius, c.y - radius;
        if !(tx <= maxX && ty >= 0) {
          var past := Max2(tx - maxX, 0 - ty);
          tx, ty := tx - past, ty + past;
        }
        ghost var t := Clipped(c, 1, -1, radius, maxX, maxY);
        assert t == Target(tx, ty);
        MarkVisited(tx, ty);
        MarkAllPush(w, maxY, done, t);
        done := done + [t];
      }
      assert minMaxValues == MarkAll(w, maxY, done);
      assert done == Below(c, radius, maxX, maxY);
    }
  }

  lemma MarkAllPush(w: seq<Column>, maxY: nat, done: seq<Target>, t: Target)
    ensures MarkAll(w, maxY, done + [t]) == Mark(MarkAll(w, maxY, done), maxY, t)
  {
    assert (done + [t])[..|done|] == done;
  }

  lemma MarkAllTwo(w: seq<Column>, maxY: nat, two: seq<Target>)
    requires |two| <= 2
    ensures |two| == 0 ==> MarkAll(w, maxY, two) == w
    ensures |two| == 1 ==> MarkAll(w, maxY, two) == Mark(w, maxY, two[0])
    ensures |two| == 2 ==> MarkAll(w, maxY, two) == Mark(Mark(w, maxY, two[0]), maxY, two[1])
  {
    if |two| == 2 {
      assert two[..1] == [two[0]];
      assert two[..1][..0] == [];
    }
  }
}
