/** searchWindow.cpp: exactly which cells a projected path and one step of the expansion mark. */
module SearchCells {
  import opened WarpPaths
  import opened SearchWindow

  // ----- the projection

  /** t is one of the four fine cells of coarse cell i, or lies beside the corner of a diagonal step
      into it: it shares an edge with a fine cell of both ends. */
  predicate IsOf(path: seq<Cell>, i: nat, t: Target)
    requires i < |path|
  {
    var x, y := 2 * path[i].x, 2 * path[i].y;
    || (x <= t.col <= x + 1 && y <= t.row <= y + 1)
    || (0 < i && path[i] == Cell(path[i - 1].x + 1, path[i - 1].y + 1)
        && (t == Target(x - 1, y) || t == Target(x, y - 1)))
  }

  lemma ProjectedIsOf(path: seq<Cell>, x: nat, y: nat, i: nat, t: Target)
    requires WarpPath(path, x, y) && i < |path|
    ensures t in Projected(path, i) <==> IsOf(path, i, t)
  {
    hide Cursor;
    CursorDoubles(path, x, y, i);
    if 0 < i { assert Step(path[i - 1], path[i]); }
  }

  /** The projection of a warp path marks these cells and no others. */
  lemma {:induction false} ProjectionIsExact(path: seq<Cell>, x: nat, y: nat, n: nat, t: Target)
    requires WarpPath(path, x, y) && n <= |path|
    ensures t in Projection(path, n) <==> exists i :: 0 <= i < n && IsOf(path, i, t)
    decreases n
  {
    hide Projected, IsOf;
    if 0 < n {
      ProjectionIsExact(path, x, y, n - 1, t);
      ProjectedIsOf(path, x, y, n - 1, t);
    }
  }

  // ----- the moves of expandWindow

  /** s steps from c in one direction. */
  function At(c: Cell, dx: int, dy: int, s: nat): Target {
    var d: int := s;
    Target(c.x + (if dx < 0 then -d else if dx > 0 then d else 0),
           c.y + (if dy < 0 then -d else if dy > 0 then d else 0))
  }

  /** As far as the radius and the grid allow. */
  predicate Farthest(c: Cell, dx: int, dy: int, s: nat, radius: nat, maxX: nat, maxY: nat) {
    && s <= radius && InGrid(At(c, dx, dy, s), maxX + 1, maxY)
    && (s == radius || !InGrid(At(c, dx, dy, s + 1), maxX + 1, maxY))
  }

  predicate IsMove(dx: int, dy: int) {
    -1 <= dx <= 1 && -1 <= dy <= 1 && (dx != 0 || dy != 0)
  }

  function Least(a: nat, b: nat, c: nat): nat {
    if a <= b && a <= c then a else if b <= c then b else c
  }

  /** A clipped move goes as far as it can in its own direction. */
  lemma ClippedIsFarthest(c: Cell, dx: int, dy: int, radius: nat, maxX: nat, maxY: nat) returns (s: nat)
    requires 0 < radius && c.x <= maxX && c.y <= maxY && IsMove(dx, dy)
    ensures Farthest(c, dx, dy, s, radius, maxX, maxY) && Clipped(c, dx, dy, radius, maxX, maxY) == At(c, dx, dy, s)
  {
    s := Least(radius, if dx < 0 then c.x else if dx > 0 then maxX - c.x else radius,
      if dy < 0 then c.y else if dy > 0 then maxY - c.y else radius);
  }

  /** There is only one such cell. */
  lemma FarthestIsUnique(c: Cell, dx: int, dy: int, s: nat, u: nat, radius: nat, maxX: nat, maxY: nat)
    requires c.x <= maxX && c.y <= maxY
    requires Farthest(c, dx, dy, s, radius, maxX, maxY) && Farthest(c, dx, dy, u, radius, maxX, maxY)
    ensures s == u
  {
  }

  /** The upper left move goes to the right column, and as many rows too far as it was clipped. */
  lemma UpperLeftOvershoots(c: Cell, radius: nat, maxX: nat, maxY: nat, s: nat)
    requires c.x <= maxX && c.y <= maxY && Farthest(c, -1, 1, s, radius, maxX, maxY)
    ensures UpperLeft(c, radius, maxY) == Target(c.x - s, c.y + s + 2 * (radius - s))
  {
  }

  /** A move that leads away from c to the cell t, other than upper left and straight left. */
  ghost predicate MovesTo(c: Cell, radius: nat, maxX: nat, maxY: nat, t: Target) {
    exists dx, dy, s: nat ::
      IsMove(dx, dy) && (dx == -1 ==> dy == -1) && 0 < s && Farthest(c, dx, dy, s, radius, maxX, maxY)
      && t == At(c, dx, dy, s)
  }

  /** One window cell marks the farthest cells of six directions, the cell straight left without
      clipping, and the upper left one as it is. */
  lemma NeighboursAreExact(c: Cell, radius: nat, maxX: nat, maxY: nat, t: Target)
    requires 0 < radius && c.x <= maxX && c.y <= maxY
    ensures t in Neighbours(c, radius, maxX, maxY) <==>
      || MovesTo(c, radius, maxX, maxY, t)
      || (0 < c.x && t == Target(c.x - radius, c.y))
      || (0 < c.x && c.y < maxY && t == UpperLeft(c, radius, maxY))
  {
    hide Clipped, UpperLeft, Farthest, At;
    forall dx, dy | IsMove(dx, dy) && (dx == -1 ==> dy == -1)
      ensures t == Clipped(c, dx, dy, radius, maxX, maxY) && CanMove(c, dx, dy, maxX, maxY) ==>
        MovesTo(c, radius, maxX, maxY, t)
      ensures forall s: nat :: 0 < s && Farthest(c, dx, dy, s, radius, maxX, maxY) && t == At(c, dx, dy, s) ==>
        t == Clipped(c, dx, dy, radius, maxX, maxY) && CanMove(c, dx, dy, maxX, maxY)
    {
      var u := ClippedIsFarthest(c, dx, dy, radius, maxX, maxY);
      MovesWhenItCan(c, dx, dy, u, radius, maxX, maxY);
      forall s: nat | Farthest(c, dx, dy, s, radius, maxX, maxY) ensures s == u {
        FarthestIsUnique(c, dx, dy, s, u, radius, maxX, maxY);
      }
    }
    if MovesTo(c, radius, maxX, maxY, t) { ClippedIsListed(c, radius, maxX, maxY, t); }
  }

  predicate CanMove(c: Cell, dx: int, dy: int, maxX: nat, maxY: nat) {
    && (dx < 0 ==> 0 < c.x) && (dx > 0 ==> c.x < maxX) && (dy < 0 ==> 0 < c.y) && (dy > 0 ==> c.y < maxY)
  }

  lemma MovesWhenItCan(c: Cell, dx: int, dy: int, s: nat, radius: nat, maxX: nat, maxY: nat)
    requires 0 < radius && c.x <= maxX && c.y <= maxY && IsMove(dx, dy) && Farthest(c, dx, dy, s, radius, maxX, maxY)
    ensures 0 < s <==> CanMove(c, dx, dy, maxX, maxY)
  {
  }

  lemma ClippedIsListed(c: Cell, radius: nat, maxX: nat, maxY: nat, t: Target)
    requires exists dx, dy ::
      IsMove(dx, dy) && (dx == -1 ==> dy == -1) && CanMove(c, dx, dy, maxX, maxY)
      && t == Clipped(c, dx, dy, radius, maxX, maxY)
    requires c.x <= maxX && c.y <= maxY
    ensures t in Neighbours(c, radius, maxX, maxY)
  {
    hide Clipped, UpperLeft;
    var dx, dy :| IsMove(dx, dy) && (dx == -1 ==> dy == -1) && CanMove(c, dx, dy, maxX, maxY)
      && t == Clipped(c, dx, dy, radius, maxX, maxY);
    if dy == 1 {
      assert t in Above(c, radius, maxX, maxY);
    } else if dy == 0 {
      assert t in Beside(c, radius, maxX, maxY);
    } else {
      assert t in Below(c, radius, maxX, maxY);
    }
  }
}
