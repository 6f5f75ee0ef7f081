/**
 The chart renderer's line drawing: an integer error accumulator walks from one end point
 to the other, and stays within half a pixel of the true line all the way.
 */
module Line {

  type Point = (int, int)

  type Color = int

  class Image {
    const width: nat
    const height: nat
    var pixels: map<Point, Color>

    constructor (width: nat, height: nat)
      ensures this.width == width && this.height == height && pixels == map[]
    {
      this.width, this.height, pixels := width, height, map[];
    }

    predicate Inside(p: Point) { 0 <= p.0 < width && 0 <= p.1 < height }

    /** Writing outside the image does nothing. */
    method Set(x: int, y: int, c: Color)
      modifies this
      ensures pixels == if Inside((x, y)) then old(pixels)[(x, y) := c] else old(pixels)
    {
      if Inside((x, y)) { pixels := pixels[(x, y) := c]; }
    }
  }

  function Abs(n: int): (r: int)
    ensures r >= 0
  {
    if n < 0 then -n else n
  }

  function Max(a: int, b: int): int { if a < b then b else a }

  /** The points of a path that are inside, painted over what was there. */
  function Painted(img: Image, before: map<Point, Color>, path: seq<Point>, c: Color): map<Point, Color> {
    if path == [] then before
    else
      var rest := Painted(img, before, path[..|path| - 1], c);
      var p := path[|path| - 1];
      if img.Inside(p) then rest[p := c] else rest
  }

  /** Twice the distance from the line through the end points, scaled by the longer axis. */
  function Deviation(x0: int, y0: int, x1: int, y1: int, p: Point): int {
    2 * ((p.1 - y0) * (x1 - x0) - (p.0 - x0) * (y1 - y0))
  }

  /** How far off the line the point i along x and j along y is, scaled by the axes. */
  function Off(dx: int, dy: int, i: int, j: int): int { j * dx - i * dy }

  lemma OffSteps(dx: int, dy: int, i: int, j: int)
    ensures Off(dx, dy, i + 1, j) == Off(dx, dy, i, j) - dy
    ensures Off(dx, dy, i, j + 1) == Off(dx, dy, i, j) + dx
    ensures Off(dx, dy, i + 1, j + 1) == Off(dx, dy, i, j) + dx - dy
  {
    assert (i + 1) * dy == i * dy + dy && (j + 1) * dx == j * dx + dx;
  }

  /** i steps along x and j along y from the start, with the error the walk has there. */
  ghost predicate Walked(dx: int, dy: int, i: nat, j: nat, err: int) {
    0 <= dx && 0 <= dy && err == Off(dx, dy, i, j) + dx - dy
    && -Max(dx, dy) <= 2 * Off(dx, dy, i, j) <= Max(dx, dy)
    && i <= dx && j <= dy
    && (if dx >= dy then i >= j else j >= i)
  }

  lemma Grows(x: int, y: int, a: int)
    requires x <= y && 0 <= a
    ensures x * a <= y * a
  {
  }

  lemma Bounded(a: int, b: int, m: int, n: int)
    requires 0 <= b <= a && a > 0 && 0 <= m <= a
    requires -a <= 2 * (n * a - m * b) <= a
    ensures n <= b
    ensures m == a ==> n == b
  {
    assert (b + 1) * a == a * b + a && (b - 1) * a == a * b - a;
    Grows(m, a, b);
    if n > b { Grows(b + 1, n, a); }
    if n < b { Grows(n, b - 1, a); }
  }

  lemma WithinWide(dx: int, dy: int, i: int, j: int)
    requires 0 <= dy <= dx && dx > 0 && 0 <= i <= dx && -dx <= 2 * Off(dx, dy, i, j) <= dx
    ensures j <= dy && (i == dx ==> j == dy)
  {
    Bounded(dx, dy, i, j);
  }

  lemma WithinTall(dx: int, dy: int, i: int, j: int)
    requires 0 <= dx <= dy && dy > 0 && 0 <= j <= dy && -dy <= 2 * Off(dx, dy, i, j) <= dy
    ensures i <= dx && (j == dy ==> i == dx)
  {
    Bounded(dy, dx, j, i);
  }

  /** One turn of the loop with x the longer axis: x always moves, y when the error says so. */
  lemma StepWide(dx: int, dy: int, i: nat, j: nat, err: int)
    requires dx >= dy && dx > 0 && i < dx && Walked(dx, dy, i, j, err)
    ensures 2 * err > -dy
    ensures 2 * err < dx ==> Walked(dx, dy, i + 1, j + 1, err - dy + dx)
    ensures 2 * err >= dx ==> Walked(dx, dy, i + 1, j, err - dy)
  {
    hide Off;
    OffSteps(dx, dy, i, j);
    if dx == dy { Diagonal(dx, i, j); }
    if 2 * err < dx { WithinWide(dx, dy, i + 1, j + 1); }
  }

  lemma Diagonal(d: int, i: int, j: int)
    requires d > 0 && -d <= 2 * Off(d, d, i, j) <= d
    ensures i == j && Off(d, d, i, j) == 0
  {
    assert (i + 1) * d == i * d + d && (j + 1) * d == j * d + d;
    if j > i { Grows(i + 1, j, d); }
    if j < i { Grows(j + 1, i, d); }
  }

  /** And with y the longer axis. */
  lemma StepTall(dx: int, dy: int, i: nat, j: nat, err: int)
    requires dx < dy && j < dy && Walked(dx, dy, i, j, err)
    ensures 2 * err < dx
    ensures 2 * err > -dy ==> Walked(dx, dy, i + 1, j + 1, err - dy + dx)
    ensures 2 * err <= -dy ==> Walked(dx, dy, i, j + 1, err + dx)
  {
    hide Off;
    OffSteps(dx, dy, i, j);
    if 2 * err > -dy { WithinTall(dx, dy, i + 1, j + 1); }
  }

  /** The longer axis reaches its end exactly when the shorter one does. */
  lemma EndTogether(dx: int, dy: int, i: nat, j: nat, err: int)
    requires Walked(dx, dy, i, j, err)
    ensures Max(i, j) <= Max(dx, dy)
    ensures Max(i, j) == Max(dx, dy) <==> i == dx && j == dy
  {
    if dx >= dy {
      if dx > 0 && i == dx { WithinWide(dx, dy, i, j); }
    } else {
      if j == dy { WithinTall(dx, dy, i, j); }
    }
  }

  /** What is true of the k-th point plotted: where it is on the longer axis, and how far off the line. */
  ghost predicate OnLine(x0: int, y0: int, x1: int, y1: int, p: Point, k: nat) {
    Max(Abs(p.0 - x0), Abs(p.1 - y0)) == k
    && Abs(p.0 - x0) + Abs(x1 - p.0) == Abs(x1 - x0)
    && Abs(p.1 - y0) + Abs(y1 - p.1) == Abs(y1 - y0)
    && Abs(Deviation(x0, y0, x1, y1, p)) <= Max(Abs(x1 - x0), Abs(y1 - y0))
  }

  lemma WalkedOnLine(x0: int, y0: int, x1: int, y1: int, sx: int, sy: int, i: nat, j: nat, err: int)
    requires sx == (if x0 > x1 then -1 else 1) && sy == (if y0 > y1 then -1 else 1)
    requires Walked(Abs(x1 - x0), Abs(y1 - y0), i, j, err)
    ensures OnLine(x0, y0, x1, y1, (x0 + sx * i, y0 + sy * j), Max(i, j))
  {
    var dx, dy := Abs(x1 - x0), Abs(y1 - y0);
    var p := (x0 + sx * i, y0 + sy * j);
    assert Abs(sx * i) == i && Abs(sy * j) == j;
    Signs(sx, sy, i, j, dx, dy);
    assert x1 - x0 == sx * dx && y1 - y0 == sy * dy;
  }

  lemma Signs(sx: int, sy: int, i: int, j: int, dx: int, dy: int)
    requires (sx == 1 || sx == -1) && (sy == 1 || sy == -1)
    ensures Abs((sy * j) * (sx * dx) - (sx * i) * (sy * dy)) == Abs(j * dx - i * dy)
  {
    var a, b := j * dx, i * dy;
    if sx == sy {
      assert (sy * j) * (sx * dx) == a && (sx * i) * (sy * dy) == b;
    } else {
      assert (sy * j) * (sx * dx) == -a && (sx * i) * (sy * dy) == -b;
    }
  }

  /**
   drawLine plots one point per step along the longer axis, from end point to end point,
   never past either, each within half a pixel of the true line along the shorter axis.
   */
  method DrawLine(img: Image, x0: int, y0: int, x1: int, y1: int, c: Color) returns (ghost path: seq<Point>)
    modifies img
    ensures img.pixels == Painted(img, old(img.pixels), path, c)
    ensures |path| == Max(Abs(x1 - x0), Abs(y1 - y0)) + 1
    ensures path[0] == (x0, y0) && path[|path| - 1] == (x1, y1)
    ensures forall k :: 0 <= k < |path| ==> OnLine(x0, y0, x1, y1, path[k], k)
  {
    hide Walked, OnLine, Painted, Deviation;
    var dx, dy := Abs(x1 - x0), Abs(y1 - y0);
    var sx, sy := if x0 > x1 then -1 else 1, if y0 > y1 then -1 else 1;
    var err: int := dx - dy;
    var x, y := x0, y0;
    ghost var i: nat, j: nat := 0, 0;
    path := [];
    Begin(img, img.pixels, dx, dy, c);
    while true
      invariant x == x0 + sx * i && y == y0 + sy * j
      invariant Walked(dx, dy, i, j, err)
      invariant |path| == Max(i, j) && (|path| > 0 ==> path[0] == (x0, y0))
      invariant |path| == 0 ==> x == x0 && y == y0
      invariant forall k :: 0 <= k < |path| ==> OnLine(x0, y0, x1, y1, path[k], k)
      invariant img.pixels == Painted(img, old(img.pixels), path, c)
      decreases Max(dx, dy) - Max(i, j)
    {
      img.Set(x, y, c);
      WalkedOnLine(x0, y0, x1, y1, sx, sy, i, j, err);
      PaintOne(img, old(img.pixels), path, (x, y), c);
      path := path + [(x, y)];
      EndTogether(dx, dy, i, j, err);
      AtEnd(x0, x1, sx, i);
      AtEnd(y0, y1, sy, j);
      if x == x1 && y == y1 { return; }
      Turn(dx, dy, i, j, err);
      var e2 := 2 * err;
      if e2 > -dy {
        err := err - dy;
        x := x + sx;
        i := i + 1;
      }
      if e2 < dx {
        err := err + dx;
        y := y + sy;
        j := j + 1;
      }
    }
  }

  lemma Begin(img: Image, before: map<Point, Color>, dx: int, dy: int, c: Color)
    requires dx >= 0 && dy >= 0
    ensures Walked(dx, dy, 0, 0, dx - dy) && Painted(img, before, [], c) == before
  {
    assert 0 * dx == 0 && 0 * dy == 0;
  }

  lemma AtEnd(a: int, b: int, s: int, i: nat)
    requires s == (if a > b then -1 else 1)
    ensures a + s * i == b <==> i == Abs(b - a)
  {
  }

  lemma PaintOne(img: Image, before: map<Point, Color>, path: seq<Point>, p: Point, c: Color)
    ensures Painted(img, before, path + [p], c)
         == if img.Inside(p) then Painted(img, before, path, c)[p := c] else Painted(img, before, path, c)
  {
    assert (path + [p])[..|path|] == path;
  }

  /** Both tests of a turn read the error as it was; whichever axes move, the walk goes on. */
  lemma Turn(dx: int, dy: int, i: nat, j: nat, err: int)
    requires Walked(dx, dy, i, j, err) && !(i == dx && j == dy)
    ensures var mx, my := 2 * err > -dy, 2 * err < dx;
            var i' := if mx then i + 1 else i;
            var j' := if my then j + 1 else j;
            Walked(dx, dy, i', j', err - (if mx then dy else 0) + (if my then dx else 0))
            && Max(i', j') == Max(i, j) + 1
  {
    EndTogether(dx, dy, i, j, err);
    if dx >= dy { StepWide(dx, dy, i, j, err); } else { StepTall(dx, dy, i, j, err); }
  }
}
