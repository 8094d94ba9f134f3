/** The exact condition on the two distances of a line under which its arithmetic fits into 16 bits. */
module LineRange {
  import opened Arithmetic
  import opened Bytes
  import opened LineWalk

  function Gcd(m: nat, s: nat): nat
    decreases m + s
  {
    if m == 0 then s else if s == 0 then m else if m >= s then Gcd(m - s, s) else Gcd(m, s - m)
  }

  /** `m : s` in lowest terms. */
  function Ratio(m: nat, s: nat): (nat, nat)
    decreases m + s
  {
    if m == 0 then (0, 1)
    else if s == 0 then (1, 0)
    else if m >= s then
      var (p, q) := Ratio(m - s, s);
      (p + q, q)
    else
      var (p, q) := Ratio(m, s - m);
      (p, p + q)
  }

  lemma {:induction false} Bezout(m: nat, s: nat) returns (u: int, v: int)
    ensures var (p, q) := Ratio(m, s); m == Gcd(m, s) * p && s == Gcd(m, s) * q
    ensures m * u + s * v == Gcd(m, s)
    decreases m + s
  {
    if m == 0 {
      u, v := 0, 1;
    } else if s == 0 {
      u, v := 1, 0;
    } else if m >= s {
      u, v := Bezout(m - s, s);
      var (p, q) := Ratio(m - s, s);
      BezoutStep(m - s, s, Gcd(m, s), p, q, u, v);
      v := v - u;
    } else {
      u, v := Bezout(m, s - m);
      var (p, q) := Ratio(m, s - m);
      BezoutStep(s - m, m, Gcd(m, s), q, p, v, u);
      u := u - v;
    }
  }

  lemma BezoutStep(d: int, s: int, g: int, p: int, q: int, u: int, v: int)
    requires d == g * p && s == g * q && d * u + s * v == g
    ensures d + s == g * (p + q) && (d + s) * u + s * (v - u) == g
  {
  }

  /** In how many different places, relative to the pixels, the line passes them. */
  function Places(m: nat, s: nat): nat {
    Ratio(m, s).0
  }

  lemma Parts(m: nat, s: nat) returns (q: nat, u: int, v: int)
    requires m > 0
    ensures var g := Gcd(m, s);
            g > 0 && m == g * Places(m, s) && s == g * q && m * u + s * v == g && Places(m, s) > 0
  {
    u, v := Bezout(m, s);
    q := Ratio(m, s).1;
  }

  lemma DivMod(x: int, m: nat) returns (w: int, k: nat)
    requires m > 0
    ensures x == m * w + k && k < m
  {
    w, k := x / m, x % m;
    assert x == m * w + k;
  }

  // ---------- the distances of the line from its pixels ----------

  /** `t` is one of them, in units of the greatest common divisor. */
  predicate IsPlace(p: nat, t: int) {
    0 <= 2 * t + p < 2 * p
  }

  /** Nearest pixels and places are the same thing in different units. */
  lemma PlaceRange(g: nat, p: nat, t: int, m: int, r: int)
    requires g > 0 && m == g * p && r == g * t
    ensures IsPlace(p, t) <==> 0 <= 2 * r + m < 2 * m
  {
    assert g * (2 * t + p) == 2 * r + m && g * (2 * p) == 2 * m;
    ScaledRange(g, 2 * t + p, 2 * p);
  }

  lemma ScaledRange(g: nat, x: int, y: int)
    requires g > 0
    ensures 0 <= g * x < g * y <==> 0 <= x < y
  {
    if x < 0 { assert g * x < 0; }
    if x >= y { assert g * x >= g * y; }
  }

  /** Every point of the walk is at one of the places ... */
  lemma PointIsAtPlace(m: nat, s: nat, k: nat, n: int) returns (t: int)
    requires m > 0 && Rounds(n, s * k, m)
    ensures s * k - m * n == Gcd(m, s) * t && IsPlace(Places(m, s), t)
  {
    var q, u, v := Parts(m, s);
    t := q * k - Places(m, s) * n;
    PlaceOf(m, s, Gcd(m, s), Places(m, s), q, k, n);
    PlaceRange(Gcd(m, s), Places(m, s), t, m, s * k - m * n);
  }

  lemma PlaceOf(m: int, s: int, g: int, p: int, q: int, k: int, n: int)
    requires m == g * p && s == g * q
    ensures s * k - m * n == g * (q * k - p * n)
  {
  }

  /** ... and every place is reached before the walk ends. */
  lemma PlaceIsReached(m: nat, s: nat, t: int) returns (k: nat, n: int)
    requires m > 0 && IsPlace(Places(m, s), t)
    ensures k < m && Rounds(n, s * k, m) && s * k - m * n == Gcd(m, s) * t
  {
    var q, u, v := Parts(m, s);
    var w;
    w, k := DivMod(v * t, m);
    n := 0 - u * t - s * w;
    ReachedAt(m, s, u, v, t, w, k, Gcd(m, s));
    PlaceRange(Gcd(m, s), Places(m, s), t, m, s * k - m * n);
  }

  lemma ReachedAt(m: int, s: int, u: int, v: int, t: int, w: int, k: int, g: int)
    requires m * u + s * v == g && v * t == m * w + k
    ensures s * k - m * (0 - u * t - s * w) == g * t
  {
    assert s * (v * t) == s * (m * w) + s * k;
    assert s * (m * w) == m * (s * w);
    assert m * (0 - u * t - s * w) == 0 - m * u * t - m * (s * w);
    assert g * t == m * u * t + s * (v * t);
  }

  // ---------- the condition ----------

  /** The greatest distance of a point from the line on one side, and on the other. */
  function Ahead(m: nat, s: nat): int {
    Gcd(m, s) * (Places(m, s) / 2)
  }

  function Behind(m: nat, s: nat): int {
    Gcd(m, s) * ((Places(m, s) - 1) / 2)
  }

  /** Half the longer distance, rounded up to a place. */
  function HalfUp(m: nat, s: nat): int {
    Gcd(m, s) * ((Places(m, s) + 1) / 2)
  }

  /** A line at least as wide as high: its greatest doubled error and its least error after a step
      across stay in range. */
  predicate SafeAcross(a: nat, b: nat) {
    a < 0x8000 && 2 * (a - b) + 2 * Ahead(a, b) < 0x8000 && 2 * b - a + Behind(a, b) <= 0x8000
  }

  /** A line higher than wide: its least doubled error, and its least error after a step across if it
      ever takes one. */
  predicate SafeDown(a: nat, b: nat) {
    b < 0x8000 && 2 * (b - a) + 2 * Ahead(b, a) <= 0x8000 && (a == 0 || 2 * b - HalfUp(b, a) <= 0x8000)
  }

  predicate SafeLine(a: nat, b: nat) {
    if a >= b then a == 0 || SafeAcross(a, b) else SafeDown(a, b)
  }

  lemma PlaceBounds(g: nat, p: nat, t: int)
    requires p > 0 && IsPlace(p, t)
    ensures -(g * (p / 2)) <= g * t <= g * ((p - 1) / 2)
  {
    var lo: int, hi: int := p / 2, (p - 1) / 2;
    MulAtMost(g, -lo, t);
    MulAtMost(g, t, hi);
  }

  lemma HalfBounds(g: nat, p: nat)
    requires p > 0
    ensures g * p - g <= 2 * (g * (p / 2)) <= g * p && g <= g * p
  {
    var half: int := p / 2;
    MulAtMost(g, 2 * half, p);
    MulAtMost(g, p - 1, 2 * half);
    MulAtMost(g, 1, p);
  }

  /** The distance of the k-th point is between the extremes, and each extreme is reached. */
  lemma PointBounds(m: nat, s: nat, k: nat, n: int)
    requires m > 0 && Rounds(n, s * k, m)
    ensures var r := s * k - m * n; -Ahead(m, s) <= r <= Behind(m, s) && 0 <= 2 * r + m < 2 * m
    ensures m - Gcd(m, s) <= 2 * Ahead(m, s) <= m && Gcd(m, s) <= m
  {
    var q, u, v := Parts(m, s);
    var t := PointIsAtPlace(m, s, k, n);
    hide Gcd, Places, Rounds;
    PlaceBounds(Gcd(m, s), Places(m, s), t);
    HalfBounds(Gcd(m, s), Places(m, s));
    PlaceRange(Gcd(m, s), Places(m, s), t, m, s * k - m * n);
  }

  lemma AheadOccurs(m: nat, s: nat) returns (k: nat, n: int)
    requires m > 0
    ensures k < m && Rounds(n, s * k, m) && s * k - m * n == -Ahead(m, s)
  {
    var q, u, v := Parts(m, s);
    var half: int := Places(m, s) / 2;
    k, n := PlaceIsReached(m, s, -half);
    assert Gcd(m, s) * -half == -(Gcd(m, s) * half);
  }

  lemma BehindOccurs(m: nat, s: nat) returns (k: nat, n: int)
    requires m > 0
    ensures k < m && Rounds(n, s * k, m) && s * k - m * n == Behind(m, s)
  {
    var q, u, v := Parts(m, s);
    k, n := PlaceIsReached(m, s, (Places(m, s) - 1) / 2);
  }

  lemma AcrossIsSafe(a: nat, b: nat, g: nat, x: int, y: int, t: int, err: int)
    requires b <= a < 0x8000 && g <= a && a - g <= 2 * x <= a && 0 - x <= t <= y && 2 * t < a
    requires 2 * (a - b) + 2 * x < 0x8000 && 2 * b - a + y <= 0x8000 && err == a - b - t
    ensures TurnFits(a, b, err)
  {
  }

  lemma DownIsSafe(a: nat, b: nat, x: int, t: int, err: int)
    requires a < b < 0x8000 && 0 - x <= t && 2 * t < b && 2 * (b - a) + 2 * x <= 0x8000 && err == a - b + t
    requires GoesAcross(b, err) ==> 2 * b - a - t <= 0x8000
    ensures TurnFits(a, b, err)
  {
  }

  lemma ErrorAcross(a: nat, b: nat, k: nat, n: int)
    requires a >= b && a > 0
    ensures Rounds(Walk(a, b, k).j, b * k, a) && Walk(a, b, k).err == a - b - (b * k - a * Walk(a, b, k).j)
    ensures Rounds(n, b * k, a) ==> n == Walk(a, b, k).j
  {
    WalkOnLine(a, b, k);
    if Rounds(n, b * k, a) { RoundsIsUnique(n, Walk(a, b, k).j, b * k, a); }
  }

  lemma ErrorDown(a: nat, b: nat, k: nat, n: int)
    requires b > a
    ensures Rounds(Walk(a, b, k).i, a * k, b) && Walk(a, b, k).err == a - b + (a * k - b * Walk(a, b, k).i)
    ensures Rounds(n, a * k, b) ==> n == Walk(a, b, k).i
  {
    WalkOnLine(a, b, k);
    if Rounds(n, a * k, b) { RoundsIsUnique(n, Walk(a, b, k).i, a * k, b); }
  }

  lemma SafeAcrossFits(a: nat, b: nat, k: nat)
    requires a >= b && a > 0 && SafeAcross(a, b)
    ensures TurnFits(a, b, Walk(a, b, k).err)
  {
    hide Gcd, Walk, TurnFits, Ahead, Behind, Rounds;
    ErrorAcross(a, b, k, 0);
    var n := Walk(a, b, k).j;
    PointBounds(a, b, k, n);
    AcrossIsSafe(a, b, Gcd(a, b), Ahead(a, b), Behind(a, b), b * k - a * n, Walk(a, b, k).err);
  }

  lemma FitsSafeAcross(a: nat, b: nat)
    requires a >= b && a > 0 && LineFits(a, b)
    ensures SafeAcross(a, b)
  {
    hide Gcd, Walk, TurnFits, LineFits, Ahead, Behind, Rounds;
    ExtentsAre16Bit(a, b);
    var k, n := AheadOccurs(a, b);
    ErrorAcross(a, b, k, n);
    FitsThere(a, b, k);
    k, n := BehindOccurs(a, b);
    ErrorAcross(a, b, k, n);
    FitsThere(a, b, k);
  }

  lemma ExtentsAre16Bit(a: nat, b: nat)
    requires LineFits(a, b)
    ensures InI16(a) && InI16(b)
  {
  }

  lemma FitsThere(a: nat, b: nat, k: nat)
    requires LineFits(a, b) && k < Longer(a, b)
    ensures var err := Walk(a, b, k).err; InI16(2 * err) && (GoesAcross(b, err) ==> InI16(err - b))
    ensures a >= b ==> GoesAcross(b, Walk(a, b, k).err)
  {
    assert TurnFits(a, b, Walk(a, b, k).err);
    WalkOnLine(a, b, k);
  }

  lemma SafeDownFits(a: nat, b: nat, k: nat)
    requires b > a && SafeDown(a, b)
    ensures TurnFits(a, b, Walk(a, b, k).err)
  {
    hide Gcd, Walk, TurnFits, Ahead, Behind, HalfUp, Rounds;
    ErrorDown(a, b, k, 0);
    var n := Walk(a, b, k).i;
    PointBounds(b, a, k, n);
    if GoesAcross(b, Walk(a, b, k).err) {
      StepAcrossBounds(a, b, k, n);
    }
    DownIsSafe(a, b, Ahead(b, a), a * k - b * n, Walk(a, b, k).err);
  }

  lemma FitsSafeDown(a: nat, b: nat)
    requires b > a && LineFits(a, b)
    ensures SafeDown(a, b)
  {
    hide Gcd, Walk, TurnFits, LineFits, Ahead, HalfUp, Rounds;
    ExtentsAre16Bit(a, b);
    var k, n := AheadOccurs(b, a);
    ErrorDown(a, b, k, n);
    FitsThere(a, b, k);
    if a > 0 {
      k, n := LeastStepOccurs(a, b);
      ErrorDown(a, b, k, n);
      FitsThere(a, b, k);
    }
  }

  /** Where a high line steps across, it is at least so far. */
  lemma StepAcrossBounds(a: nat, b: nat, k: nat, n: int)
    requires b > a && Rounds(n, a * k, b) && 2 * (a - b + (a * k - b * n)) + b >= 0
    ensures a > 0 && a * k - b * n >= HalfUp(b, a) - a
  {
    var q, u, v := Parts(b, a);
    var t := PointIsAtPlace(b, a, k, n);
    hide Gcd, Places, Rounds;
    LeastAcross(a, b, Gcd(b, a), Places(b, a), q, t, a * k - b * n);
  }

  lemma LeastStepOccurs(a: nat, b: nat) returns (k: nat, n: int)
    requires b > a > 0
    ensures k < b && Rounds(n, a * k, b) && a * k - b * n == HalfUp(b, a) - a && 2 * HalfUp(b, a) >= b
  {
    var q, u, v := Parts(b, a);
    LeastAcrossOccurs(a, b, Gcd(b, a), Places(b, a), q);
    k, n := PlaceIsReached(b, a, (Places(b, a) + 1) / 2 - q);
  }

  lemma LeastAcross(a: nat, b: nat, g: nat, p: nat, q: nat, t: int, r: int)
    requires g > 0 && b == g * p && a == g * q && r == g * t && IsPlace(p, t) && 2 * (a - b + r) + b >= 0
    ensures a > 0 && r >= g * ((p + 1) / 2) - a
  {
    PlacesAcross(g, p, q, t, b, a, r);
    var half: int := (p + 1) / 2;
    MulAtMost(g, half - q, t);
    assert g * (half - q) == g * half - g * q;
    MulAtMost(g, 1, q);
  }

  lemma PlacesAcross(g: nat, p: nat, q: nat, t: int, b: int, a: int, r: int)
    requires g > 0 && b == g * p && a == g * q && r == g * t && 2 * (a - b + r) + b >= 0
    ensures p - 2 * q - 2 * t <= 0
  {
    var short: int := p - 2 * q - 2 * t;
    assert g * short == b - 2 * a - 2 * r;
    NotPositive(g, short);
  }

  lemma LeastAcrossOccurs(a: nat, b: nat, g: nat, p: nat, q: nat)
    requires g > 0 && b == g * p && a == g * q && 0 < a < b
    ensures IsPlace(p, (p + 1) / 2 - q)
    ensures g * ((p + 1) / 2 - q) == g * ((p + 1) / 2) - a && 2 * (g * ((p + 1) / 2)) >= b
  {
    var half: int, gap: int := (p + 1) / 2, q - p;
    assert g * gap == a - b;
    NotPositive(g, gap);
    assert gap != 0 && q > 0;
    assert g * (half - q) == g * half - g * q;
    MulAtMost(g, p, 2 * half);
  }

  /** The arithmetic of one line fits if and only if its two distances satisfy the condition. */
  lemma {:induction false} LineFitsIff(a: nat, b: nat)
    ensures LineFits(a, b) <==> SafeLine(a, b)
  {
    hide Walk, TurnFits, SafeAcross, SafeDown;
    if LineFits(a, b) && a + b > 0 {
      if a < b { FitsSafeDown(a, b); } else { FitsSafeAcross(a, b); }
    }
    if SafeLine(a, b) {
      SafeExtents(a, b);
      forall k: nat | k < Longer(a, b) ensures TurnFits(a, b, Walk(a, b, k).err) {
        if a < b { SafeDownFits(a, b, k); } else { SafeAcrossFits(a, b, k); }
      }
    }
  }

  lemma SafeExtents(a: nat, b: nat)
    requires SafeLine(a, b)
    ensures InI16(a) && InI16(b)
  {
  }

  /** A diagonal may be as long as coordinates go, a level line half as long, a plumb line one more. */
  lemma {:induction false} StraightLines(n: nat)
    ensures LineFits(n, n) <==> n < 0x8000
    ensures LineFits(n, 0) <==> n < 0x4000
    ensures LineFits(0, n) <==> n <= 0x4000
  {
    hide LineFits;
    LineFitsIff(n, n);
    LineFitsIff(n, 0);
    LineFitsIff(0, n);
    if n > 0 { OneTerm(n); }
  }

  lemma OneTerm(n: nat)
    requires n > 0
    ensures Gcd(n, n) == n && Ratio(n, n) == (1, 1) && Gcd(n, 0) == n && Ratio(n, 0) == (1, 0)
  {
    assert Gcd(0, n) == n && Ratio(0, n) == (0, 1);
  }
}
