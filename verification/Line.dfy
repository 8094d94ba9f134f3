/** `draw_line` on the 320 x 200 framebuffer: which pixels change, in 16-bit arithmetic. */
module Line {
  import opened Bytes
  import opened LineRange
  import opened LineWalk

  const SCREEN_WIDTH: int := 320
  const SCREEN_HEIGHT: int := 200

  datatype Point = Point(x: int, y: int)

  function Distance(p: int, q: int): nat {
    if p <= q then q - p else p - q
  }

  function Sign(p: int, q: int): int {
    if p < q then 1 else -1
  }

  function PointAt(from: Point, to: Point, k: nat): Point {
    var p := Walk(Distance(from.x, to.x), Distance(from.y, to.y), k);
    Point(from.x + Sign(from.x, to.x) * p.i, from.y + Sign(from.y, to.y) * p.j)
  }

  function Length(from: Point, to: Point): nat {
    Longer(Distance(from.x, to.x), Distance(from.y, to.y))
  }

  /** The points of the line, in drawing order. */
  function LinePoints(from: Point, to: Point): (r: seq<Point>)
    ensures |r| == Length(from, to) + 1
    ensures forall k :: 0 <= k < |r| ==> r[k] == PointAt(from, to, k)
  {
    seq(Length(from, to) + 1, k requires 0 <= k => PointAt(from, to, k))
  }

  predicate OnScreen(p: Point) {
    0 <= p.x < SCREEN_WIDTH && 0 <= p.y < SCREEN_HEIGHT
  }

  class Framebuffer {
    const buffer: array<byte>

    ghost predicate Valid() {
      buffer.Length == SCREEN_WIDTH * SCREEN_HEIGHT
    }

    constructor ()
      ensures Valid() && fresh(buffer)
    {
      buffer := new byte[SCREEN_WIDTH * SCREEN_HEIGHT](_ => 0);
    }

    ghost function PixelAt(p: Point): byte
      requires Valid() && OnScreen(p)
      reads buffer
    {
      buffer[p.y * SCREEN_WIDTH + p.x]
    }

    /** Points off the screen are ignored. */
    method SetPixel(x: i16, y: i16, color: byte)
      requires Valid()
      modifies buffer
      ensures forall p :: OnScreen(p) ==> PixelAt(p) == if p == Point(x, y) then color else old(PixelAt(p))
      ensures buffer[..]
           == if 0 <= x < 320 && 0 <= y < 200 then old(buffer[..])[320 * y + x := color] else old(buffer[..])
    {
      if x >= 0 && x < SCREEN_WIDTH && y >= 0 && y < SCREEN_HEIGHT {
        buffer[y * SCREEN_WIDTH + x] := color;
      }
    }

    /** Exactly the points of the line that lie on the screen take the colour, for every line whose
        arithmetic fits into 16 bits. */
    method DrawLine(x0: i16, y0: i16, x1: i16, y1: i16, color: byte)
      requires Valid()
      requires SafeLine(Distance(x0, x1), Distance(y0, y1))
      modifies buffer
      ensures forall p :: OnScreen(p) ==>
        PixelAt(p) == if p in LinePoints(Point(x0, y0), Point(x1, y1)) then color else old(PixelAt(p))
    {
      hide Walk, PointAt, OnScreen, LineFits, Advance;
      ghost var from, to := Point(x0, y0), Point(x1, y1);
      ghost var a, b := Distance(x0, x1), Distance(y0, y1);
      ghost var k: nat := 0;
      LineFitsIff(a, b);
      hide SafeLine;
      ExtentsFit(a, b);
      assert InI16(x0) && InI16(y0) && InI16(x1) && InI16(y1);
      var x: i16, y: i16 := x0, y0;
      var dx: i16 := if x1 - x0 >= 0 then x1 - x0 else -(x1 - x0);
      var dy: i16 := if y1 - y0 >= 0 then -(y1 - y0) else y1 - y0;
      var sx: i16 := if x < x1 then 1 else -1;
      var sy: i16 := if y < y1 then 1 else -1;
      var err: i16 := dx + dy;
      FirstPoint(from, to);
      assert dx == a && dy == -(b as int) && sx == Sign(x0, x1) && sy == Sign(y0, y1);
      hide Sign, Distance, Length;
      while true
        invariant k <= Length(from, to)
        invariant Point(x, y) == PointAt(from, to, k) && err == Walk(a, b, k).err
        invariant forall p :: OnScreen(p) ==>
          PixelAt(p) == if p in LinePoints(from, to)[..k] then color else old(PixelAt(p))
        decreases Length(from, to) - k
      {
        SetPixel(x, y, color);
        assert LinePoints(from, to)[..k + 1] == LinePoints(from, to)[..k] + [Point(x, y)];
        ArrivesAt(from, to, k);
        if x == x1 && y == y1 {
          assert LinePoints(from, to)[..k + 1] == LinePoints(from, to);
          break;
        }
        NextPoint(from, to, k);
        var e2: i16 := 2 * err;
        assert (e2 >= dy <==> GoesAcross(b, err)) && (e2 <= dx <==> GoesDown(a, err));
        if e2 >= dy {
          err := err + dy;
          x := x + sx;
        }
        if e2 <= dx {
          err := err + dx;
          y := y + sy;
        }
        k := k + 1;
      }
    }
  }

  lemma ExtentsFit(a: nat, b: nat)
    requires LineFits(a, b)
    ensures a <= 32767 && b <= 32767 && InI16(a - b)
  {
  }

  lemma FirstPoint(from: Point, to: Point)
    ensures PointAt(from, to, 0) == from
    ensures var a, b := Distance(from.x, to.x), Distance(from.y, to.y); Walk(a, b, 0).err == a - b
  {
  }

  lemma ArrivesAt(from: Point, to: Point, k: nat)
    requires k <= Length(from, to)
    ensures PointAt(from, to, k) == to <==> k == Length(from, to)
  {
    WalkArrives(Distance(from.x, to.x), Distance(from.y, to.y), k);
  }

  ghost predicate Between(lo: int, v: int, hi: int) {
    lo <= v <= hi || hi <= v <= lo
  }

  /** One turn of the loop, on points: nothing it computes leaves 16 bits or the line's bounding box. */
  lemma NextPoint(from: Point, to: Point, k: nat)
    requires k < Length(from, to)
    requires LineFits(Distance(from.x, to.x), Distance(from.y, to.y))
    ensures var a, b, p := Distance(from.x, to.x), Distance(from.y, to.y), PointAt(from, to, k);
            var err := Walk(a, b, k).err;
            var across, down := GoesAcross(b, err), GoesDown(a, err);
            var next, err' := PointAt(from, to, k + 1), Walk(a, b, k + 1).err;
            && InI16(2 * err) && InI16(if across then err - b else err) && InI16(err')
            && next.x == (if across then p.x + Sign(from.x, to.x) else p.x)
            && next.y == (if down then p.y + Sign(from.y, to.y) else p.y)
            && err' == (if across then err - b else err) + (if down then a else 0)
            && Between(from.x, next.x, to.x) && Between(from.y, next.y, to.y)
  {
    var a, b := Distance(from.x, to.x), Distance(from.y, to.y);
    assert TurnFits(a, b, Walk(a, b, k).err);
    WalkArrives(a, b, k + 1);
  }

  // ---------- the line that is drawn ----------

  /** It starts and ends where it should, and is at the end at no earlier point. */
  lemma LineReachesBothEnds(from: Point, to: Point, k: nat)
    requires k <= Length(from, to)
    ensures LinePoints(from, to)[0] == from
    ensures LinePoints(from, to)[k] == to <==> k == Length(from, to)
  {
    WalkArrives(Distance(from.x, to.x), Distance(from.y, to.y), k);
  }

  ghost predicate Neighbours(p: Point, q: Point) {
    p != q && Distance(p.x, q.x) <= 1 && Distance(p.y, q.y) <= 1
  }

  lemma LineIsConnected(from: Point, to: Point, k: nat)
    requires k < Length(from, to)
    ensures Neighbours(LinePoints(from, to)[k], LinePoints(from, to)[k + 1])
  {
    WalkStepsToNeighbour(Distance(from.x, to.x), Distance(from.y, to.y), k);
  }

  /** Twice the cross product of a point with the line's direction: half a pixel is the longer
      distance. */
  lemma LineIsClose(from: Point, to: Point, k: nat)
    requires k <= Length(from, to)
    ensures var p, w, h := LinePoints(from, to)[k], to.x - from.x, to.y - from.y;
            var cross := w * (p.y - from.y) - h * (p.x - from.x);
            0 <= 2 * cross + Length(from, to) <= 2 * Length(from, to)
  {
    hide Walk, Longer;
    var a, b := Distance(from.x, to.x), Distance(from.y, to.y);
    WalkIsClose(a, b, k);
    var q := Walk(a, b, k);
    var sx, sy := Sign(from.x, to.x), Sign(from.y, to.y);
    SignedExtent(from.x, to.x);
    SignedExtent(from.y, to.y);
    hide Sign, Distance;
    SignedCross(to.x - from.x, to.y - from.y, sx, sy, a, b, q.i, q.j, Length(from, to));
  }

  lemma SignedExtent(p: int, q: int)
    ensures q - p == Sign(p, q) * Distance(p, q) && (Sign(p, q) == 1 || Sign(p, q) == -1)
  {
  }

  /** Mirroring an axis changes at most the sign of the cross product. */
  lemma SignedCross(w: int, h: int, sx: int, sy: int, a: nat, b: nat, i: nat, j: nat, m: nat)
    requires (sx == 1 || sx == -1) && (sy == 1 || sy == -1) && w == sx * a && h == sy * b
    requires 0 <= 2 * (a * j - b * i) + m <= 2 * m
    ensures 0 <= 2 * (w * (sy * j) - h * (sx * i)) + m <= 2 * m
  {
    SignedProducts(w, sx, a, sy, j);
    SignedProducts(h, sy, b, sx, i);
  }

  lemma SignedProducts(w: int, sx: int, a: nat, sy: int, j: nat)
    requires (sx == 1 || sx == -1) && (sy == 1 || sy == -1) && w == sx * a
    ensures w * (sy * j) == sx * sy * (a * j)
  {
  }

  /** Two short lines in numbers, each with a tie. */
  lemma {:induction false} ShortLines()
    ensures LinePoints(Point(0, 0), Point(2, 1)) == [Point(0, 0), Point(1, 1), Point(2, 1)]
    ensures LinePoints(Point(5, 7), Point(4, 5)) == [Point(5, 7), Point(4, 6), Point(4, 5)]
  {
    FlatWalk();
    SteepWalk();
    hide Walk;
  }

  lemma FlatWalk()
    ensures Walk(2, 1, 0) == Pos(0, 0, 1) && Walk(2, 1, 1) == Pos(1, 1, 2) && Walk(2, 1, 2) == Pos(2, 1, 1)
  {
  }

  lemma SteepWalk()
    ensures Walk(1, 2, 0) == Pos(0, 0, -1) && Walk(1, 2, 1) == Pos(1, 1, -2) && Walk(1, 2, 2) == Pos(1, 2, -1)
  {
  }
}
