/** The geometry of `fill_polygon`: where a row meets the edges of a closed polygon, and which
    pixels the sorted crossings enclose. */
module Scanline {
  import opened Arithmetic

  datatype Vertex = Vertex(x: int, y: int)

  // ---------- one edge ----------

  /** Half-open in y: an edge meets the row of its upper end but not that of its lower end. */
  predicate Crosses(y: int, v: Vertex, w: Vertex) {
    (v.y <= y && w.y > y) || (w.y <= y && v.y > y)
  }

  function Abs(x: int): nat {
    if x < 0 then -x else x
  }

  /** Integer division of the source: the quotient is truncated towards zero. */
  function Quotient(p: int, d: int): int
    requires d != 0
  {
    if (p >= 0) == (d > 0) then Abs(p) / Abs(d) else -(Abs(p) / Abs(d))
  }

  function CrossingX(y: int, v: Vertex, w: Vertex): int
    requires v.y != w.y
  {
    v.x + Quotient((y - v.y) * (w.x - v.x), w.y - v.y)
  }

  /** `q` is `p / d` cut off towards zero. */
  ghost predicate CutOff(q: int, p: int, d: int) {
    && Abs(q) * Abs(d) <= Abs(p) < (Abs(q) + 1) * Abs(d)
    && (q > 0 ==> (p > 0) == (d > 0)) && (q < 0 ==> (p > 0) != (d > 0))
  }

  lemma {:induction false} DivisionBounds(n: nat, d: nat) returns (q: nat)
    requires d > 0
    ensures q == n / d && q * d <= n < (q + 1) * d
  {
    q := n / d;
    var r := n % d;
    assert n == q * d + r;
    assert (q + 1) * d == q * d + d;
  }

  lemma {:induction false} QuotientCutsOff(p: int, d: int)
    requires d != 0
    ensures CutOff(Quotient(p, d), p, d)
  {
    AbsOf(d);
    hide Abs, CutOff;
    var q := DivisionBounds(Abs(p), Abs(d));
    SignedQuotient(q, p, d);
  }

  lemma SignedQuotient(n: int, p: int, d: int)
    requires d != 0 && n >= 0 && n * Abs(d) <= Abs(p) < (n + 1) * Abs(d)
    ensures CutOff(if (p >= 0) == (d > 0) then n else -n, p, d)
  {
    AbsOf(n);
    AbsOf(-n);
    AbsOf(p);
    AbsOf(d);
    hide Abs;
    NotPositive(Abs(d), n);
  }

  lemma AbsOf(n: int)
    ensures Abs(n) == if n < 0 then -n else n
  {
  }

  /** The crossing is the exact intersection rounded towards the first vertex, so it lies between
      the edge's end points. */
  lemma {:induction false} CrossingBetween(y: int, v: Vertex, w: Vertex)
    requires Crosses(y, v, w)
    ensures v.x <= CrossingX(y, v, w) <= w.x || w.x <= CrossingX(y, v, w) <= v.x
  {
    var t, dx, dy := y - v.y, w.x - v.x, w.y - v.y;
    var q := Quotient(t * dx, dy);
    hide Quotient;
    QuotientCutsOff(t * dx, dy);
    SignOfProduct(t, dx);
    QuotientBounded(Abs(q), Abs(t), Abs(dx), Abs(dy));
  }

  lemma {:induction false} SignOfProduct(a: int, b: int)
    ensures a > 0 && b > 0 ==> a * b > 0
    ensures a > 0 && b < 0 ==> a * b < 0
    ensures a < 0 && b > 0 ==> a * b < 0
    ensures a < 0 && b < 0 ==> a * b > 0
    ensures Abs(a * b) == Abs(a) * Abs(b)
  {
  }

  lemma {:induction false} QuotientBounded(q: nat, t: nat, x: nat, d: nat)
    requires t <= d && d > 0 && q * d <= t * x
    ensures q <= x
  {
    assert t * x <= d * x by { MulMono(t, d, x); }
    assert q * d - d * x == d * (q - x);
    NotPositive(d, q - x);
  }

  /** The exact point where the edge cuts the row, cut off to a pixel towards the edge's first vertex:
      what is cut off is less than a pixel, and lies on the far side. */
  ghost predicate MeetsAt(y: int, v: Vertex, w: Vertex, x: int) {
    var n, d := (y - v.y) * (w.x - v.x), w.y - v.y;
    var r := n - (x - v.x) * d;
    && (v.y <= y < w.y || w.y <= y < v.y)
    && (if d > 0 then -d < r < d else d < r < -d) && (r == 0 || (r > 0) == (n > 0))
  }

  lemma {:induction false} CrossingIsExact(y: int, v: Vertex, w: Vertex, x: int)
    ensures MeetsAt(y, v, w, x) <==> Crosses(y, v, w) && x == CrossingX(y, v, w)
  {
    if Crosses(y, v, w) {
      var n, d := (y - v.y) * (w.x - v.x), w.y - v.y;
      QuotientCutsOff(n, d);
      var q := Quotient(n, d);
      hide Quotient;
      CutOffRemainder(q, n, d, q * d);
      if MeetsAt(y, v, w, x) {
        SameQuotient(q, x - v.x, n, d);
      }
    }
  }

  lemma CutOffRemainder(q: int, n: int, d: int, qd: int)
    requires d != 0 && CutOff(q, n, d) && qd == q * d
    ensures var r := n - qd; (if d > 0 then -d < r < d else d < r < -d) && (r == 0 || (r > 0) == (n > 0))
  {
    SignOfProduct(q, d);
    assert (Abs(q) + 1) * Abs(d) == Abs(q) * Abs(d) + Abs(d);
  }

  lemma SameQuotient(q: int, q': int, n: int, d: int)
    requires d != 0
    requires var r := n - q * d; (if d > 0 then -d < r < d else d < r < -d) && (r == 0 || (r > 0) == (n > 0))
    requires var r := n - q' * d; (if d > 0 then -d < r < d else d < r < -d) && (r == 0 || (r > 0) == (n > 0))
    ensures q == q'
  {
    var gap := q - q';
    assert d * gap == q * d - q' * d;
    if d > 0 {
      NotPositive(d, gap);
      NotPositive(d, -gap);
    } else {
      NotPositive(-d, gap);
      NotPositive(-d, -gap);
    }
  }

  // ---------- all edges ----------

  function Next(vs: seq<Vertex>, i: nat): Vertex
    requires i < |vs|
  {
    if i + 1 == |vs| then vs[0] else vs[i + 1]
  }

  predicate EdgeCrosses(vs: seq<Vertex>, y: int, i: nat)
    requires i < |vs|
  {
    Crosses(y, vs[i], Next(vs, i))
  }

  function EdgeX(vs: seq<Vertex>, y: int, i: nat): int
    requires i < |vs| && EdgeCrosses(vs, y, i)
  {
    CrossingX(y, vs[i], Next(vs, i))
  }

  /** The x of every edge that crosses row `y`, among the first `k` edges, in edge order. */
  function Crossings(vs: seq<Vertex>, y: int, k: nat): seq<int>
    requires k <= |vs|
  {
    if k == 0 then []
    else
      Crossings(vs, y, k - 1) +
      if EdgeCrosses(vs, y, k - 1) then [EdgeX(vs, y, k - 1)] else []
  }

  /** A closed polygon crosses every row an even number of times. */
  lemma {:induction false} CrossingsAreEven(vs: seq<Vertex>, y: int)
    requires vs != []
    ensures |Crossings(vs, y, |vs|)| % 2 == 0
  {
    CrossingParity(vs, y, |vs|);
  }

  lemma {:induction false} CrossingParity(vs: seq<Vertex>, y: int, k: nat)
    requires vs != [] && k <= |vs|
    ensures |Crossings(vs, y, k)| % 2 == 1 <==> (vs[0].y <= y) != ((if k == |vs| then vs[0] else vs[k]).y <= y)
  {
    if k > 0 {
      CrossingParity(vs, y, k - 1);
    }
  }

  // ---------- pixels between sorted crossings ----------

  ghost predicate Sorted(xs: seq<int>) {
    forall i, j :: 0 <= i <= j < |xs| ==> xs[i] <= xs[j]
  }

  function AtLeastZero(x: int): nat {
    if x < 0 then 0 else x
  }

  /** Pixel `x` lies in the k-th pair, with both ends clamped as the source clamps them. */
  predicate InPair(xs: seq<int>, k: nat, x: nat)
    requires 2 * k + 1 < |xs|
  {
    AtLeastZero(xs[2 * k]) <= x <= AtLeastZero(xs[2 * k + 1])
  }

  ghost predicate Covered(xs: seq<int>, x: nat) {
    exists k: nat :: 2 * k + 1 < |xs| && InPair(xs, k, x)
  }

  function CountBelow(xs: seq<int>, x: int): nat {
    if xs == [] then 0 else (if xs[0] < x then 1 else 0) + CountBelow(xs[1..], x)
  }

  /** The even-odd rule on crossings in any order: an odd number of them to the left, or one here. */
  predicate EvenOdd(xs: seq<int>, x: int) {
    CountBelow(xs, x) % 2 == 1 || x in xs
  }

  lemma {:induction false} CountSorted(xs: seq<int>, x: int)
    requires Sorted(xs)
    ensures CountBelow(xs, x) <= |xs|
    ensures forall i :: 0 <= i < |xs| ==> (xs[i] < x <==> i < CountBelow(xs, x))
  {
    if xs != [] {
      assert Sorted(xs[1..]);
      CountSorted(xs[1..], x);
      forall i | 0 <= i < |xs| ensures xs[i] < x <==> i < CountBelow(xs, x) {
        if i > 0 {
          assert xs[i] == xs[1..][i - 1];
        } else if xs[0] >= x && |xs| > 1 {
          assert xs[1] == xs[1..][0];
        }
      }
    }
  }

  /** Right of column 0, filling between pairs of sorted crossings is the even-odd rule. */
  lemma {:induction false} PairsAreEvenOdd(xs: seq<int>, x: nat)
    requires Sorted(xs) && |xs| % 2 == 0 && x >= 1
    ensures Covered(xs, x) <==> EvenOdd(xs, x)
  {
    var c := CountBelow(xs, x);
    CountSorted(xs, x);
    if Covered(xs, x) {
      var k: nat :| 2 * k + 1 < |xs| && InPair(xs, k, x);
      if xs[2 * k] < x {
        assert c == 2 * k + 1;
      }
    }
    if c % 2 == 1 {
      assert InPair(xs, c / 2, x);
    } else if x in xs {
      var i :| 0 <= i < |xs| && xs[i] == x;
      assert c <= i && xs[c] <= xs[i];
      assert InPair(xs, c / 2, x);
    }
  }

  /** Column 0 takes whatever is clamped to it: it is covered as soon as any crossing is at or left
      of it. */
  lemma {:induction false} ColumnZero(xs: seq<int>)
    requires Sorted(xs) && |xs| % 2 == 0
    ensures Covered(xs, 0) <==> exists i :: 0 <= i < |xs| && xs[i] <= 0
  {
    if xs != [] && xs[0] <= 0 {
      assert InPair(xs, 0, 0);
    }
  }

  /** So column 0 is wrong exactly when a positive even number of crossings lie left of the screen
      and none on the column itself. */
  lemma {:induction false} ColumnZeroWrongIff(xs: seq<int>)
    requires Sorted(xs) && |xs| % 2 == 0
    ensures Covered(xs, 0) != EvenOdd(xs, 0) <==> CountBelow(xs, 0) > 0 && CountBelow(xs, 0) % 2 == 0 && 0 !in xs
  {
    ColumnZero(xs);
    CountSorted(xs, 0);
  }

  // ---------- order does not matter ----------

  lemma {:induction false} CountConcat(a: seq<int>, b: seq<int>, x: int)
    ensures CountBelow(a + b, x) == CountBelow(a, x) + CountBelow(b, x)
  {
    if a == [] {
      assert a + b == b;
    } else {
      CountConcat(a[1..], b, x);
      assert (a + b)[1..] == a[1..] + b;
    }
  }

  lemma {:induction false} CountPermuted(a: seq<int>, b: seq<int>, x: int)
    requires multiset(a) == multiset(b)
    ensures CountBelow(a, x) == CountBelow(b, x)
    decreases |a|
  {
    if a == [] {
      assert |multiset(b)| == |b|;
    } else {
      var rest := FindAndRemove(b, a[0], x);
      assert a == [a[0]] + a[1..];
      assert multiset(a[1..]) == multiset(a) - multiset{a[0]};
      CountPermuted(a[1..], rest, x);
    }
  }

  lemma {:induction false} FindAndRemove(b: seq<int>, v: int, x: int) returns (rest: seq<int>)
    requires v in multiset(b)
    ensures multiset(rest) == multiset(b) - multiset{v}
    ensures CountBelow(b, x) == CountBelow(rest, x) + if v < x then 1 else 0
  {
    var i :| 0 <= i < |b| && b[i] == v;
    rest := b[..i] + b[i + 1..];
    assert b == b[..i] + ([v] + b[i + 1..]);
    CountConcat(b[..i], b[i + 1..], x);
    CountConcat(b[..i], [v] + b[i + 1..], x);
    assert multiset(b) == multiset(b[..i]) + (multiset{v} + multiset(b[i + 1..]));
  }

  lemma {:induction false} EvenOddPermuted(a: seq<int>, b: seq<int>, x: int)
    requires multiset(a) == multiset(b)
    ensures EvenOdd(a, x) <==> EvenOdd(b, x)
    ensures (exists i :: 0 <= i < |a| && a[i] <= x) <==> (exists i :: 0 <= i < |b| && b[i] <= x)
  {
    CountPermuted(a, b, x);
    assert x in a <==> x in multiset(a);
    assert x in b <==> x in multiset(b);
    forall i | 0 <= i < |a| ensures a[i] in b {
      assert a[i] in multiset(a);
    }
    forall i | 0 <= i < |b| ensures b[i] in a {
      assert b[i] in multiset(b);
    }
  }
}
