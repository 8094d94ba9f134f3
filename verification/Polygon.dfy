/** `fill_polygon`: the loops over rows, edges and pixel pairs, on the flat pixel buffer. */
module Polygon {
  import opened Arithmetic
  import opened Bytes
  import opened Scanline

  const MAX_CROSSINGS: nat := 64

  /** What a row's buffer of crossings holds: the first 64 in edge order. */
  function Recorded(vs: seq<Vertex>, y: int, k: nat): (r: seq<int>)
    requires k <= |vs|
    ensures |r| <= 64
  {
    var all := Crossings(vs, y, k);
    if |all| <= 64 then all else all[..64]
  }

  /** Coordinates are 16 bits wide. */
  ghost predicate IsShort(vs: seq<Vertex>) {
    forall i :: 0 <= i < |vs| ==> InI16(vs[i].x) && InI16(vs[i].y)
  }

  /** The one product computed where the row crosses the edge stays in 32 bits. */
  ghost predicate ProductFits(y: int, v: Vertex, w: Vertex) {
    Crosses(y, v, w) ==> InI32((y - v.y) * (w.x - v.x))
  }

  ghost predicate RowFits(vs: seq<Vertex>, y: int) {
    forall i :: 0 <= i < |vs| ==> ProductFits(y, vs[i], Next(vs, i))
  }

  /** On every row of the screen the arithmetic is exact. */
  ghost predicate Representable(vs: seq<Vertex>, height: nat) {
    IsShort(vs) && forall y :: 0 <= y < height ==> RowFits(vs, y)
  }

  // ---------- how large coordinates may be ----------

  ghost predicate Within(vs: seq<Vertex>, limit: nat) {
    forall i :: 0 <= i < |vs| ==> Abs(vs[i].x) <= limit && Abs(vs[i].y) <= limit
  }

  /** The greatest height at which a row of the screen can cut an edge within `limit`. */
  function Reach(limit: nat, height: nat): int {
    limit + (if height <= limit then height else limit) - 1
  }

  /** That height times the greatest width of an edge is below 2^31. */
  predicate SafeLimit(limit: nat, height: nat) {
    if height == 0 then limit < 0x8000 else 2 * limit * Reach(limit, height) < 0x8000_0000
  }

  /** A bound on the coordinates makes every polygon exact on a screen of this height if and only if
      it is safe. */
  lemma {:induction false} SafeLimitIsExact(limit: nat, height: nat)
    ensures (forall vs: seq<Vertex> :: Within(vs, limit) ==> Representable(vs, height)) <==> SafeLimit(limit, height)
  {
    if SafeLimit(limit, height) {
      forall vs: seq<Vertex> | Within(vs, limit) ensures Representable(vs, height) {
        SafeIsRepresentable(vs, limit, height);
      }
    } else {
      var vs := TooLarge(limit, height);
    }
  }

  lemma {:induction false} SafeIsRepresentable(vs: seq<Vertex>, limit: nat, height: nat)
    requires Within(vs, limit) && SafeLimit(limit, height)
    ensures Representable(vs, height)
  {
    if limit >= 0x8000 && height > 0 { LargeIsUnsafe(limit, height); }
    forall y, i | 0 <= y < height && 0 <= i < |vs| ensures ProductFits(y, vs[i], Next(vs, i)) {
      if Crosses(y, vs[i], Next(vs, i)) {
        SafeProduct(y, vs[i], Next(vs, i), limit, height);
      }
    }
  }

  lemma LargeIsUnsafe(limit: nat, height: nat)
    requires limit >= 0x8000 && height > 0
    ensures !SafeLimit(limit, height)
  {
    var reach := Reach(limit, height);
    MulMono(0x8000, limit, reach);
    assert 2 * limit * reach == 2 * (limit * reach);
  }

  lemma {:induction false} SafeProduct(y: int, v: Vertex, w: Vertex, limit: nat, height: nat)
    requires 0 <= y < height && Crosses(y, v, w) && SafeLimit(limit, height)
    requires Abs(v.x) <= limit && Abs(v.y) <= limit && Abs(w.x) <= limit && Abs(w.y) <= limit
    ensures InI32((y - v.y) * (w.x - v.x))
  {
    var t, dx, reach := y - v.y, w.x - v.x, Reach(limit, height);
    assert Abs(t) <= reach && Abs(dx) <= 2 * limit;
    SignOfProduct(t, dx);
    MulMono(Abs(t), reach, Abs(dx));
    MulMono(Abs(dx), 2 * limit, reach);
    assert reach * Abs(dx) == Abs(dx) * reach;
  }

  /** A diagonal through the largest square overflows on the last row it crosses. */
  lemma {:induction false} TooLarge(limit: nat, height: nat) returns (vs: seq<Vertex>)
    requires !SafeLimit(limit, height)
    ensures |vs| == 3 && Within(vs, limit) && !Representable(vs, height)
  {
    hide SafeLimit, ProductFits;
    vs := [Vertex(0 - limit, 0 - limit), Vertex(limit, limit), Vertex(limit, limit)];
    var y := (if height <= limit then height else limit) - 1;
    DiagonalOverflows(limit, height, y, vs[0], Next(vs, 0));
    if height > 0 {
      assert !RowFits(vs, y);
    } else {
      assert !InI16(vs[1].x);
    }
  }

  lemma DiagonalOverflows(limit: nat, height: nat, y: int, v: Vertex, w: Vertex)
    requires !SafeLimit(limit, height) && y == (if height <= limit then height else limit) - 1
    requires v == Vertex(0 - limit, 0 - limit) && w == Vertex(limit, limit)
    ensures if height == 0 then limit >= 0x8000 else 0 <= y < height && !ProductFits(y, v, w)
  {
    if height > 0 {
      assert limit > 0;
      assert (y - v.y) * (w.x - v.x) == Reach(limit, height) * (2 * limit) == 2 * limit * Reach(limit, height);
    }
  }

  /** Every polygon within 23170 pixels of the origin qualifies, whatever the height of the screen. */
  lemma {:induction false} ModestIsRepresentable(vs: seq<Vertex>, height: nat)
    requires forall i :: 0 <= i < |vs| ==> -23170 <= vs[i].x <= 23170 && -23170 <= vs[i].y <= 23170
    ensures Representable(vs, height)
  {
    SafeIsRepresentable(vs, 23170, height);
  }

  /** One crossing in the source's types: every intermediate result is exact. */
  method Intersect(y: i16, v: Vertex, w: Vertex) returns (x: i16)
    requires Crosses(y, v, w) && ProductFits(y, v, w)
    requires InI16(v.x) && InI16(w.x) && InI16(v.y) && InI16(w.y)
    ensures x == CrossingX(y, v, w) && MeetsAt(y, v, w, x)
  {
    var dy: i32 := w.y - v.y;
    var dx: i32 := w.x - v.x;
    var t: i32 := y - v.y;
    CrossingBetween(y, v, w);
    var product: i32 := t * dx;
    var offset: int := Quotient(product, dy);
    x := v.x + offset;
    CrossingIsExact(y, v, w, x);
  }

  /** The crossings of one row, in edge order. */
  method CollectCrossings(vs: seq<Vertex>, y: i16, ix: array<i16>) returns (n: nat)
    requires vs != [] && IsShort(vs) && RowFits(vs, y) && ix.Length == MAX_CROSSINGS
    modifies ix
    ensures n <= MAX_CROSSINGS && ix[..n] == Recorded(vs, y, |vs|)
  {
    n := 0;
    for i := 0 to |vs|
      invariant n <= MAX_CROSSINGS && ix[..n] == Recorded(vs, y, i)
    {
      var v, w := vs[i], vs[if i + 1 == |vs| then 0 else i + 1];
      assert w == Next(vs, i) && ProductFits(y, vs[i], Next(vs, i));
      RecordedStep(vs, y, i);
      if v.y != w.y && Crosses(y, v, w) {
        var x := Intersect(y, v, w);
        if n < MAX_CROSSINGS {
          ix[n] := x;
          n := n + 1;
        }
      }
    }
  }

  lemma RecordedStep(vs: seq<Vertex>, y: int, i: nat)
    requires i < |vs|
    ensures Recorded(vs, y, i + 1)
         == if EdgeCrosses(vs, y, i) && |Recorded(vs, y, i)| < 64
            then Recorded(vs, y, i) + [EdgeX(vs, y, i)] else Recorded(vs, y, i)
  {
    var before, after := Crossings(vs, y, i), Crossings(vs, y, i + 1);
    if |after| > 64 {
      assert before[..64] == after[..64];
    }
  }

  /** Insertion sort of the first `n` entries, in place. */
  method SortCrossings(ix: array<i16>, n: nat)
    requires n <= ix.Length
    modifies ix
    ensures Sorted(ix[..n]) && multiset(ix[..n]) == multiset(old(ix[..n]))
  {
    if n == 0 { return; }
    for i := 1 to n
      invariant Sorted(ix[..i])
      invariant multiset(ix[..i]) == multiset(old(ix[..i]))
      invariant ix[i..] == old(ix[i..])
    {
      ghost var before := ix[..];
      Insert(ix, i);
      assert ix[..i + 1] == ix[..][..i + 1];
      assert before[..i + 1] == before[..i] + [before[i]];
      assert old(ix[..i + 1]) == old(ix[..i]) + [old(ix[i])];
      assert before[i] == old(ix[i..])[0];
    }
  }

  /** Moves entry `i` down to its place among the sorted entries before it. */
  method Insert(ix: array<i16>, i: nat)
    requires i < ix.Length && Sorted(ix[..i])
    modifies ix
    ensures Sorted(ix[..i + 1]) && multiset(ix[..i + 1]) == multiset(old(ix[..i + 1]))
    ensures ix[i + 1..] == old(ix[i + 1..])
  {
    var key := ix[i];
    var j := i;
    while j > 0 && ix[j - 1] > key
      invariant j <= i
      invariant forall k :: 0 <= k < j ==> ix[k] == old(ix[k])
      invariant forall k :: j < k <= i ==> ix[k] == old(ix[k - 1])
      invariant forall k :: j <= k < i ==> old(ix[k]) > key
      invariant ix[i + 1..] == old(ix[i + 1..])
    {
      ix[j] := ix[j - 1];
      j := j - 1;
    }
    ix[j] := key;
    ghost var s, r := old(ix[..i]), ix[..i + 1];
    assert (forall k :: 0 <= k < j ==> r[k] == s[k]) && forall k :: j < k <= i ==> r[k] == s[k - 1];
    Inserted(s, key, j, r);
    assert old(ix[..i + 1]) == s + [key];
  }

  lemma {:induction false} Inserted(s: seq<int>, key: int, j: nat, r: seq<int>)
    requires Sorted(s) && j <= |s| && |r| == |s| + 1
    requires r[j] == key && (forall k :: 0 <= k < j ==> r[k] == s[k]) && forall k :: j < k <= |s| ==> r[k] == s[k - 1]
    requires (forall k :: j <= k < |s| ==> s[k] > key) && (j > 0 ==> s[j - 1] <= key)
    ensures Sorted(r) && multiset(r) == multiset(s) + multiset{key}
  {
    InsertedElements(s, key, j, r);
  }

  lemma {:induction false} InsertedElements(s: seq<int>, key: int, j: nat, r: seq<int>)
    requires j <= |s| && |r| == |s| + 1
    requires r[j] == key && (forall k :: 0 <= k < j ==> r[k] == s[k]) && forall k :: j < k <= |s| ==> r[k] == s[k - 1]
    ensures multiset(r) == multiset(s) + multiset{key}
  {
    assert r == s[..j] + ([key] + s[j..]);
    assert s == s[..j] + s[j..];
    assert multiset(r) == multiset(s[..j]) + (multiset{key} + multiset(s[j..]));
  }

  // ---------- painting ----------

  ghost predicate CoveredBy(xs: seq<int>, pairs: nat, x: nat) {
    exists k: nat :: k < pairs && 2 * k + 1 < |xs| && InPair(xs, k, x)
  }

  /** Index of the x-th pixel of a row that starts at `base`. */
  function Cell(base: nat, x: nat): nat {
    base + x
  }

  /** One row: exactly the covered pixels take the colour. */
  method FillRow(buffer: array<byte>, width: nat, y: nat, ix: array<i16>, n: nat, color: byte)
    requires width >= 1 && y * width + width <= buffer.Length && n <= ix.Length
    requires buffer as object != ix as object
    modifies buffer
    ensures forall x: nat :: x < width ==>
      buffer[Cell(y * width, x)] == if Covered(ix[..n], x) then color else old(buffer[Cell(y * width, x)])
    ensures forall i: nat :: i < buffer.Length && (i < y * width || y * width + width <= i) ==>
      buffer[i] == old(buffer[i])
  {
    ghost var base := y * width;
    ghost var xs: seq<int> := ix[..n];
    hide InPair;
    var i := 0;
    ghost var k: nat := 0;
    while i + 1 < n
      invariant i == 2 * k <= n && ix[..n] == xs
      invariant forall x: nat :: x < width ==>
        buffer[Cell(base, x)] == if CoveredBy(xs, k, x) then color else old(buffer[Cell(base, x)])
      invariant forall j: nat :: j < buffer.Length && (j < base || base + width <= j) ==> buffer[j] == old(buffer[j])
    {
      var xStart := AtLeastZero(ix[i]);
      var xEnd := if AtLeastZero(ix[i + 1]) < width - 1 then AtLeastZero(ix[i + 1]) else width - 1;
      OneMorePair(xs, k, width, xStart, xEnd);
      FillSpan(buffer, y * width, width, xStart, xEnd, color);
      i := i + 2;
      k := k + 1;
    }
    forall x: nat ensures Covered(xs, x) <==> CoveredBy(xs, k, x) {
    }
  }

  lemma OneMorePair(xs: seq<int>, k: nat, width: nat, xStart: nat, xEnd: nat)
    requires 2 * k + 1 < |xs| && width >= 1 && xStart == AtLeastZero(xs[2 * k])
    requires xEnd == if AtLeastZero(xs[2 * k + 1]) < width - 1 then AtLeastZero(xs[2 * k + 1]) else width - 1
    ensures forall x: nat :: x < width ==> (CoveredBy(xs, k + 1, x) <==> CoveredBy(xs, k, x) || xStart <= x <= xEnd)
  {
    forall x: nat | x < width ensures CoveredBy(xs, k + 1, x) <==> CoveredBy(xs, k, x) || xStart <= x <= xEnd {
      assert InPair(xs, k, x) <==> xStart <= x <= xEnd;
    }
  }

  method FillSpan(buffer: array<byte>, base: nat, width: nat, xStart: nat, xEnd: nat, color: byte)
    requires base + width <= buffer.Length && xEnd < width
    modifies buffer
    ensures forall x: nat :: x < width ==>
      buffer[Cell(base, x)] == if xStart <= x <= xEnd then color else old(buffer[Cell(base, x)])
    ensures forall j: nat :: j < buffer.Length && (j < base || base + width <= j) ==> buffer[j] == old(buffer[j])
  {
    var x := xStart;
    while x <= xEnd
      invariant xStart <= x
      invariant forall j: nat :: j < buffer.Length ==>
        buffer[j] == if base + xStart <= j < base + x && j <= base + xEnd then color else old(buffer[j])
    {
      buffer[base + x] := color;
      x := x + 1;
    }
  }

  // ---------- the whole polygon ----------

  /** Index of pixel (x, y) in a buffer of `height` rows. */
  function At(width: nat, height: nat, y: nat, x: nat): (i: nat)
    requires y < height && x < width
    ensures i == y * width + x < width * height
  {
    RowsFit(width, height, y);
    Cell(y * width, x)
  }

  lemma {:induction false} RowsFit(width: nat, height: nat, y: nat)
    requires y < height
    ensures y * width + width <= width * height
  {
    MulMono(y + 1, height, width);
    assert (y + 1) * width == y * width + width;
    assert width * height == height * width;
  }

  lemma {:induction false} RowsApart(width: nat, y: nat, z: nat)
    requires y < z
    ensures y * width + width <= z * width
  {
    MulMono(y + 1, z, width);
    assert (y + 1) * width == y * width + width;
  }

  /** The pixels `fill_polygon` paints: the even-odd rule on the recorded crossings of the row, and
      in column 0 every row with a crossing at or left of the screen's edge. */
  ghost predicate Painted(vs: seq<Vertex>, y: int, x: nat) {
    var xs := Recorded(vs, y, |vs|);
    |vs| >= 3 && if x >= 1 then EvenOdd(xs, x) else exists i :: 0 <= i < |xs| && xs[i] <= 0
  }

  /** Sorting the recorded crossings and filling between pairs paints exactly that. */
  lemma {:induction false} CoveredIsPainted(vs: seq<Vertex>, y: int, xs: seq<int>, x: nat)
    requires |vs| >= 3 && Sorted(xs) && multiset(xs) == multiset(Recorded(vs, y, |vs|))
    ensures Covered(xs, x) <==> Painted(vs, y, x)
  {
    hide Crossings, Covered, EvenOdd;
    var recorded := Recorded(vs, y, |vs|);
    CrossingsAreEven(vs, y);
    assert |xs| == |multiset(xs)| == |multiset(recorded)| == |recorded|;
    EvenOddPermuted(xs, recorded, x);
    if x >= 1 {
      PairsAreEvenOdd(xs, x);
    } else {
      ColumnZero(xs);
    }
  }

  /** Rows the loop visits: from the topmost to the bottommost vertex, as far as on screen. */
  method RowRange(vs: seq<Vertex>, height: nat) returns (minY: nat, maxY: int)
    requires vs != [] && height < 0x8000
    ensures maxY < height
    ensures forall i :: 0 <= i < |vs| ==> (minY == 0 || minY <= vs[i].y) && (vs[i].y <= maxY || maxY == height - 1)
  {
    var lo, hi := vs[0].y, vs[0].y;
    for i := 1 to |vs|
      invariant forall k :: 0 <= k < i ==> lo <= vs[k].y <= hi
    {
      if vs[i].y < lo { lo := vs[i].y; }
      if vs[i].y > hi { hi := vs[i].y; }
    }
    minY := if lo > 0 then lo else 0;
    maxY := if hi < height - 1 then hi else height - 1;
  }

  lemma {:induction false} NoCrossings(vs: seq<Vertex>, y: int, k: nat)
    requires k <= |vs|
    requires (forall i :: 0 <= i < |vs| ==> vs[i].y > y) || (forall i :: 0 <= i < |vs| ==> vs[i].y <= y)
    ensures Crossings(vs, y, k) == []
  {
    if k > 0 {
      NoCrossings(vs, y, k - 1);
    }
  }

  lemma {:induction false} UnvisitedIsUnpainted(vs: seq<Vertex>, y: nat, x: nat, minY: nat, maxY: int, height: nat)
    requires vs != [] && y < height && !(minY <= y <= maxY)
    requires forall i :: 0 <= i < |vs| ==> (minY == 0 || minY <= vs[i].y) && (vs[i].y <= maxY || maxY == height - 1)
    ensures !Painted(vs, y, x)
  {
    NoCrossings(vs, y, |vs|);
  }

  method FillPolygonRow(buffer: array<byte>, width: nat, height: nat, vs: seq<Vertex>, y: nat, color: byte)
    requires width >= 1 && y < height < 0x8000 && buffer.Length == width * height
    requires |vs| >= 3 && IsShort(vs) && RowFits(vs, y)
    modifies buffer
    ensures forall r: nat, x: nat :: r < height && x < width ==>
      buffer[At(width, height, r, x)]
      == if r == y && Painted(vs, y, x) then color else old(buffer[At(width, height, r, x)])
  {
    hide Painted, Covered, IsShort, RowFits, Crossings, Recorded, Sorted;
    var ix := new i16[MAX_CROSSINGS](_ => 0);
    var n := CollectCrossings(vs, y, ix);
    SortCrossings(ix, n);
    ghost var xs: seq<int> := ix[..n];
    forall x: nat ensures Covered(xs, x) <==> Painted(vs, y, x) {
      CoveredIsPainted(vs, y, xs, x);
    }
    RowsFit(width, height, y);
    FillRow(buffer, width, y, ix, n, color);
    forall r: nat, x: nat | r < height && x < width
      ensures buffer[At(width, height, r, x)]
           == if r == y && Painted(vs, y, x) then color else old(buffer[At(width, height, r, x)])
    {
      if r < y {
        RowsApart(width, r, y);
        assert At(width, height, r, x) < y * width;
      } else if y < r {
        RowsApart(width, y, r);
        assert At(width, height, r, x) >= y * width + width;
      } else {
        assert At(width, height, r, x) == Cell(y * width, x);
      }
    }
  }

  method FillPolygon(buffer: array<byte>, width: nat, height: nat, vs: seq<Vertex>, color: byte)
    requires width >= 1 && height < 0x8000 && buffer.Length == width * height
    requires |vs| >= 3 ==> Representable(vs, height)
    modifies buffer
    ensures forall y: nat, x: nat :: y < height && x < width ==>
      buffer[At(width, height, y, x)] == if Painted(vs, y, x) then color else old(buffer[At(width, height, y, x)])
  {
    hide Painted, RowFits, IsShort;
    if |vs| < 3 {
      forall y: nat, x: nat ensures !Painted(vs, y, x) { TooFewVertices(vs, y, x); }
      return;
    }
    var minY, maxY := RowRange(vs, height);
    var y := minY;
    while y <= maxY
      invariant minY <= y
      invariant forall r: nat, x: nat :: r < height && x < width ==>
        buffer[At(width, height, r, x)]
        == if minY <= r < y && Painted(vs, r, x) then color else old(buffer[At(width, height, r, x)])
    {
      FillPolygonRow(buffer, width, height, vs, y, color);
      y := y + 1;
    }
    forall r: nat, x: nat | r < height && !(minY <= r < y) ensures !Painted(vs, r, x) {
      UnvisitedIsUnpainted(vs, r, x, minY, maxY, height);
    }
  }

  lemma TooFewVertices(vs: seq<Vertex>, y: int, x: nat)
    requires |vs| < 3
    ensures !Painted(vs, y, x)
  {
  }

  // ---------- against the even-odd rule on edges ----------

  /** Edge `i`, the last one back to the first vertex, meets row `y` at pixel `x`. */
  ghost predicate EdgeMeets(vs: seq<Vertex>, y: int, i: nat, x: int)
    requires i < |vs|
  {
    MeetsAt(y, vs[i], vs[if i + 1 == |vs| then 0 else i + 1], x)
  }

  ghost predicate MeetsLeftOf(vs: seq<Vertex>, y: int, i: nat, x: int)
    requires i < |vs|
  {
    exists c :: c < x && EdgeMeets(vs, y, i, c)
  }

  /** Edges among the first `k` that meet row `y` strictly left of `x`. */
  ghost function EdgesLeft(vs: seq<Vertex>, y: int, x: int, k: nat): nat
    requires k <= |vs|
  {
    if k == 0 then 0 else EdgesLeft(vs, y, x, k - 1) + if MeetsLeftOf(vs, y, k - 1, x) then 1 else 0
  }

  ghost predicate OnEdge(vs: seq<Vertex>, y: int, x: int) {
    exists i :: 0 <= i < |vs| && EdgeMeets(vs, y, i, x)
  }

  /** What the fill computes for an edge is where it meets the row. */
  lemma EdgeIsExact(vs: seq<Vertex>, y: int, i: nat, x: int)
    requires i < |vs|
    ensures EdgeMeets(vs, y, i, x) <==> EdgeCrosses(vs, y, i) && EdgeX(vs, y, i) == x
    ensures MeetsLeftOf(vs, y, i, x) <==> EdgeCrosses(vs, y, i) && EdgeX(vs, y, i) < x
  {
    hide MeetsAt, Crosses, CrossingX;
    forall c ensures EdgeMeets(vs, y, i, c) <==> EdgeCrosses(vs, y, i) && EdgeX(vs, y, i) == c {
      CrossingIsExact(y, vs[i], Next(vs, i), c);
    }
    assert EdgeCrosses(vs, y, i) ==> EdgeMeets(vs, y, i, EdgeX(vs, y, i));
  }

  lemma {:induction false} EdgesAreCounted(vs: seq<Vertex>, y: int, x: int, k: nat)
    requires k <= |vs|
    ensures EdgesLeft(vs, y, x, k) == CountBelow(Crossings(vs, y, k), x)
  {
    hide EdgeCrosses, EdgeX, CountBelow, Crossings, MeetsLeftOf;
    if k == 0 {
      NoEdgesYet(vs, y, x);
    } else {
      EdgesAreCounted(vs, y, x, k - 1);
      OneMoreEdge(vs, y, x, k - 1);
      EdgeIsExact(vs, y, k - 1, x);
    }
  }

  lemma NoEdgesYet(vs: seq<Vertex>, y: int, x: int)
    ensures CountBelow(Crossings(vs, y, 0), x) == 0
  {
  }

  lemma {:induction false} OneMoreEdge(vs: seq<Vertex>, y: int, x: int, k: nat)
    requires k < |vs|
    ensures CountBelow(Crossings(vs, y, k + 1), x)
         == CountBelow(Crossings(vs, y, k), x) + if EdgeCrosses(vs, y, k) && EdgeX(vs, y, k) < x then 1 else 0
  {
    hide CountBelow, EdgeCrosses, EdgeX;
    var before := Crossings(vs, y, k);
    if EdgeCrosses(vs, y, k) {
      var at := EdgeX(vs, y, k);
      assert Crossings(vs, y, k + 1) == before + [at];
      CountConcat(before, [at], x);
      CountOne(at, x);
    } else {
      assert Crossings(vs, y, k + 1) == before;
    }
  }

  lemma CountOne(v: int, x: int)
    ensures CountBelow([v], x) == if v < x then 1 else 0
  {
    assert [v][1..] == [];
  }

  lemma {:induction false} EdgesAreMembers(vs: seq<Vertex>, y: int, x: int, k: nat)
    requires k <= |vs|
    ensures x in Crossings(vs, y, k) <==> exists i :: 0 <= i < k && EdgeCrosses(vs, y, i) && EdgeX(vs, y, i) == x
  {
    hide EdgeCrosses, EdgeX;
    if k > 0 {
      EdgesAreMembers(vs, y, x, k - 1);
    }
  }

  /** Crossings of a row that do not fit into the buffer. */
  ghost function Dropped(vs: seq<Vertex>, y: int): seq<int> {
    var all := Crossings(vs, y, |vs|);
    if |all| <= 64 then [] else all[64..]
  }

  /** The even-odd rule on edges: an odd number of them crosses the row to the left, or one here. */
  ghost predicate Inside(vs: seq<Vertex>, y: int, x: int) {
    EdgesLeft(vs, y, x, |vs|) % 2 == 1 || OnEdge(vs, y, x)
  }

  lemma {:induction false} InsideCounts(vs: seq<Vertex>, y: int, x: int)
    ensures var kept, lost := Recorded(vs, y, |vs|), Dropped(vs, y);
            && EdgesLeft(vs, y, x, |vs|) == CountBelow(kept, x) + CountBelow(lost, x)
            && (OnEdge(vs, y, x) <==> x in kept || x in lost)
  {
    hide EdgeCrosses, EdgeX, Crossings, CountBelow, EdgesLeft, OnEdge;
    var kept, lost, all := Recorded(vs, y, |vs|), Dropped(vs, y), Crossings(vs, y, |vs|);
    EdgesAreCounted(vs, y, x, |vs|);
    OnEdgeIsMember(vs, y, x);
    assert all == kept + lost;
    CountConcat(kept, lost, x);
  }

  /** The pixel is on no recorded crossing, and either on a lost one with an even number of recorded
      ones to its left, or on none with an odd number of lost ones to its left. */
  predicate LossShows(kept: seq<int>, lost: seq<int>, x: int) {
    x !in kept && if x in lost then CountBelow(kept, x) % 2 == 0 else CountBelow(lost, x) % 2 == 1
  }

  /** Right of column 0 exactly these pixels are painted against the even-odd rule. */
  lemma {:induction false} CrowdedRowBreaksIff(vs: seq<Vertex>, y: int, x: nat)
    requires |vs| >= 3 && x >= 1
    ensures Painted(vs, y, x) != Inside(vs, y, x) <==> LossShows(Recorded(vs, y, |vs|), Dropped(vs, y), x)
  {
    hide Recorded, Dropped, CountBelow, EdgesLeft, OnEdge;
    InsideCounts(vs, y, x);
  }

  /** With at most 64 crossings in its row it is never: it is painted exactly when an odd number of
      edges cross the row to its left, or one crosses it on the pixel. */
  lemma {:induction false} PaintedIsEvenOdd(vs: seq<Vertex>, y: int, x: nat)
    requires |vs| >= 3 && x >= 1 && |Crossings(vs, y, |vs|)| <= 64
    ensures Painted(vs, y, x) <==> Inside(vs, y, x)
  {
    CrowdedRowBreaksIff(vs, y, x);
    hide Painted, Inside, Crossings;
    assert Dropped(vs, y) == [] && CountBelow([], x) == 0;
  }

  /** No recorded crossing is on column 0; some are to its left, but an even number with the lost ones,
      none of which is on it; or none is to its left, but an odd number of the lost, or one on it. */
  predicate ClampShows(kept: seq<int>, lost: seq<int>) {
    && 0 !in kept
    && (CountBelow(kept, 0) > 0 <==> (CountBelow(kept, 0) + CountBelow(lost, 0)) % 2 == 0 && 0 !in lost)
  }

  /** In column 0 the rule is broken in exactly these rows. */
  lemma {:induction false} ColumnZeroBreaksIff(vs: seq<Vertex>, y: int)
    requires |vs| >= 3
    ensures Painted(vs, y, 0) != Inside(vs, y, 0) <==> ClampShows(Recorded(vs, y, |vs|), Dropped(vs, y))
  {
    hide Recorded, Dropped, CountBelow, EdgesLeft, OnEdge;
    InsideCounts(vs, y, 0);
    var kept := Recorded(vs, y, |vs|);
    assert Painted(vs, y, 0) <==> exists i :: 0 <= i < |kept| && kept[i] <= 0;
    AtOrLeft(kept, 0);
  }

  /** In a row of at most 64 crossings: a positive even number of edges cross left of the screen, and
      none crosses on the column. */
  lemma {:induction false} ColumnZeroBreaksPlainlyIff(vs: seq<Vertex>, y: int)
    requires |vs| >= 3 && |Crossings(vs, y, |vs|)| <= 64
    ensures Painted(vs, y, 0) != Inside(vs, y, 0)
       <==> EdgesLeft(vs, y, 0, |vs|) > 0 && EdgesLeft(vs, y, 0, |vs|) % 2 == 0 && !OnEdge(vs, y, 0)
  {
    ColumnZeroBreaksIff(vs, y);
    InsideCounts(vs, y, 0);
    hide Painted, Inside, Crossings, EdgesLeft, OnEdge;
    assert Dropped(vs, y) == [] && CountBelow([], 0) == 0;
  }

  lemma OnEdgeIsMember(vs: seq<Vertex>, y: int, x: int)
    ensures OnEdge(vs, y, x) <==> x in Crossings(vs, y, |vs|)
  {
    hide EdgeCrosses, EdgeX, EdgeMeets, Crossings;
    EdgesAreMembers(vs, y, x, |vs|);
    forall i: nat | i < |vs| ensures EdgeMeets(vs, y, i, x) <==> EdgeCrosses(vs, y, i) && EdgeX(vs, y, i) == x {
      EdgeIsExact(vs, y, i, x);
    }
  }

  lemma {:induction false} AtOrLeft(xs: seq<int>, x: int)
    ensures (exists i :: 0 <= i < |xs| && xs[i] <= x) <==> CountBelow(xs, x) > 0 || x in xs
  {
    if xs != [] {
      AtOrLeft(xs[1..], x);
      if i :| 0 <= i < |xs| && xs[i] <= x {
        assert i > 0 ==> xs[i] == xs[1..][i - 1];
      }
      if xs[0] > x && (CountBelow(xs, x) > 0 || x in xs) {
        var i :| 0 <= i < |xs[1..]| && xs[1..][i] <= x;
        assert xs[i + 1] <= x;
      }
    }
  }

  lemma {:induction false} TwoOfThreeEdges(vs: seq<Vertex>, y: int)
    requires |vs| == 3 && EdgeCrosses(vs, y, 0) && !EdgeCrosses(vs, y, 1) && EdgeCrosses(vs, y, 2)
    ensures Crossings(vs, y, 3) == [EdgeX(vs, y, 0), EdgeX(vs, y, 2)]
  {
    hide EdgeCrosses, EdgeX;
    assert Crossings(vs, y, 1) == [EdgeX(vs, y, 0)] && Crossings(vs, y, 2) == [EdgeX(vs, y, 0)];
  }

  /** A triangle wholly left of the screen paints a pixel of column 0. */
  lemma {:induction false} ColumnZeroCounterexample() returns (vs: seq<Vertex>)
    ensures |vs| == 3 && forall i :: 0 <= i < 3 ==> vs[i].x < 0
    ensures Painted(vs, 1, 0) && EdgesLeft(vs, 1, 0, 3) == 2 && !OnEdge(vs, 1, 0)
  {
    vs := LeftTriangle();
    hide EdgeCrosses, EdgeX, EdgesLeft, OnEdge, Crossings, CountBelow;
    TwoOfThreeEdges(vs, 1);
    EdgesAreCounted(vs, 1, 0, 3);
    OnEdgeIsMember(vs, 1, 0);
    CountTwo(-8, -10, 0);
    assert Recorded(vs, 1, 3)[0] == -8;
  }

  lemma CountTwo(p: int, q: int, x: int)
    ensures CountBelow([p, q], x) == (if p < x then 1 else 0) + if q < x then 1 else 0
  {
    assert [p, q][1..] == [q];
    CountOne(q, x);
  }

  lemma {:induction false} LeftTriangle() returns (vs: seq<Vertex>)
    ensures |vs| == 3 && forall i :: 0 <= i < 3 ==> vs[i].x < 0
    ensures EdgeCrosses(vs, 1, 0) && EdgeX(vs, 1, 0) == -8
    ensures !EdgeCrosses(vs, 1, 1)
    ensures EdgeCrosses(vs, 1, 2) && EdgeX(vs, 1, 2) == -10
  {
    vs := [Vertex(-10, 0), Vertex(-2, 4), Vertex(-10, 4)];
  }

  /** One row in numbers: the triangle (0, 0), (8, 8), (0, 8) paints columns 0 to 2 of row 2. */
  lemma {:induction false} SlopedEdge(vs: seq<Vertex>, x: nat)
    requires vs == [Vertex(0, 0), Vertex(8, 8), Vertex(0, 8)]
    ensures Painted(vs, 2, x) <==> x <= 2
  {
    SlopedTriangle(vs);
    hide EdgeCrosses, EdgeX, Crossings, CountBelow;
    TwoOfThreeEdges(vs, 2);
    PaintsBetween(vs, 2, 2, 0, x);
  }

  lemma PaintsBetween(vs: seq<Vertex>, y: int, p: int, q: int, x: nat)
    requires |vs| == 3 && Crossings(vs, y, 3) == [p, q] && 0 <= q <= p
    ensures Painted(vs, y, x) <==> q <= x <= p
  {
    var xs := Recorded(vs, y, 3);
    assert xs == [p, q];
    hide Recorded, CountBelow;
    CountTwo(p, q, x);
    assert xs[0] == p && xs[1] == q;
  }

  lemma {:induction false} SlopedTriangle(vs: seq<Vertex>)
    requires vs == [Vertex(0, 0), Vertex(8, 8), Vertex(0, 8)]
    ensures EdgeCrosses(vs, 2, 0) && EdgeX(vs, 2, 0) == 2
    ensures !EdgeCrosses(vs, 2, 1)
    ensures EdgeCrosses(vs, 2, 2) && EdgeX(vs, 2, 2) == 0
  {
  }
}
