/** The integer line walk of `draw_line` on distances: `a` across, `b` down, starting at (0, 0). */
module LineWalk {
  import opened Arithmetic
  import opened Bytes

  datatype Pos = Pos(i: nat, j: nat, err: int)

  predicate GoesAcross(b: nat, err: int) { 2 * err + b >= 0 }

  predicate GoesDown(a: nat, err: int) { 2 * err <= a }

  /** One turn of the loop: both tests look at the error term before either move. */
  function Advance(a: nat, b: nat, p: Pos): Pos {
    Pos(if GoesAcross(b, p.err) then p.i + 1 else p.i,
        if GoesDown(a, p.err) then p.j + 1 else p.j,
        p.err - (if GoesAcross(b, p.err) then b else 0) + (if GoesDown(a, p.err) then a else 0))
  }

  function Walk(a: nat, b: nat, k: nat): Pos {
    if k == 0 then Pos(0, 0, a - b) else Advance(a, b, Walk(a, b, k - 1))
  }

  function Longer(a: nat, b: nat): nat {
    if a >= b then a else b
  }

  /** `n` is `p / m` rounded to the nearest integer, halves upwards. */
  predicate Rounds(n: int, p: int, m: int) {
    0 <= 2 * (p - m * n) + m < 2 * m
  }

  lemma {:induction false} RoundsIsUnique(n: int, n': int, p: int, m: int)
    requires m > 0 && Rounds(n, p, m) && Rounds(n', p, m)
    ensures n == n'
  {
    assert m * (n - n') == m * n - m * n' && m * (n' - n) == m * n' - m * n;
    NotPositive(m, n - n');
    NotPositive(m, n' - n);
  }

  /** Where the walk stands after `k` turns: `k` steps along the longer direction, the nearest
      integer along the other, and an error term that measures the distance from the line. */
  ghost predicate OnLine(a: nat, b: nat, k: nat, p: Pos) {
    && p.err == a - b - b * p.i + a * p.j
    && (if a >= b then p.i == k && Rounds(p.j, b * k, a) else p.j == k && Rounds(p.i, a * k, b))
  }

  /** The decision of one turn when `a` is the longer distance, with its products named. */
  lemma AcrossTurn(a: nat, b: nat, bk: int, aj: int, err: int)
    requires a >= b && 0 <= 2 * (bk - aj) + a < 2 * a && err == a - b - bk + aj
    ensures GoesAcross(b, err)
    ensures 0 <= 2 * (bk + b - (if GoesDown(a, err) then aj + a else aj)) + a < 2 * a
  {
  }

  lemma DownTurn(a: nat, b: nat, bi: int, ak: int, err: int)
    requires b > a && 0 <= 2 * (ak - bi) + b < 2 * b && err == a - b - bi + ak
    ensures GoesDown(a, err)
    ensures 0 <= 2 * (ak + a - (if GoesAcross(b, err) then bi + b else bi)) + b < 2 * b
  {
  }

  /** The longer direction always moves, the shorter one exactly when that is nearer. */
  lemma {:induction false} AdvanceOnLine(a: nat, b: nat, k: nat, p: Pos)
    requires Longer(a, b) > 0 && OnLine(a, b, k, p)
    ensures OnLine(a, b, k + 1, Advance(a, b, p))
  {
    hide Advance;
    var q := Advance(a, b, p);
    if a >= b {
      AcrossTurn(a, b, b * k, a * p.j, p.err);
      AdvanceAcross(a, b, p);
      NextMultiple(b, k);
      NextMultiple(a, p.j);
      NamedAcross(a, b, k + 1, q, b * k + b, if GoesDown(a, p.err) then a * p.j + a else a * p.j);
    } else {
      DownTurn(a, b, b * p.i, a * k, p.err);
      AdvanceDown(a, b, p);
      NextMultiple(a, k);
      NextMultiple(b, p.i);
      NamedDown(a, b, k + 1, q, if GoesAcross(b, p.err) then b * p.i + b else b * p.i, a * k + a);
    }
  }

  lemma NextMultiple(m: int, n: int)
    ensures m * (n + 1) == m * n + m
  {
  }

  lemma NamedAcross(a: nat, b: nat, k: nat, p: Pos, bk: int, aj: int)
    requires a >= b && p.i == k && bk == b * k && aj == a * p.j
    requires 0 <= 2 * (bk - aj) + a < 2 * a && p.err == a - b - bk + aj
    ensures OnLine(a, b, k, p)
  {
  }

  lemma NamedDown(a: nat, b: nat, k: nat, p: Pos, bi: int, ak: int)
    requires b > a && p.j == k && bi == b * p.i && ak == a * k
    requires 0 <= 2 * (ak - bi) + b < 2 * b && p.err == a - b - bi + ak
    ensures OnLine(a, b, k, p)
  {
  }

  lemma AdvanceAcross(a: nat, b: nat, p: Pos)
    requires GoesAcross(b, p.err)
    ensures Advance(a, b, p)
         == if GoesDown(a, p.err) then Pos(p.i + 1, p.j + 1, p.err - b + a) else Pos(p.i + 1, p.j, p.err - b)
  {
  }

  lemma AdvanceDown(a: nat, b: nat, p: Pos)
    requires GoesDown(a, p.err)
    ensures Advance(a, b, p)
         == if GoesAcross(b, p.err) then Pos(p.i + 1, p.j + 1, p.err - b + a) else Pos(p.i, p.j + 1, p.err + a)
  {
  }

  lemma {:induction false} WalkOnLine(a: nat, b: nat, k: nat)
    requires Longer(a, b) > 0
    ensures OnLine(a, b, k, Walk(a, b, k))
  {
    if k > 0 {
      WalkOnLine(a, b, k - 1);
      AdvanceOnLine(a, b, k - 1, Walk(a, b, k - 1));
    }
  }

  // ---------- what the walk is for ----------

  /** After as many turns as the longer distance the walk stands at the end, and not before. */
  lemma {:induction false} WalkArrives(a: nat, b: nat, k: nat)
    requires k <= Longer(a, b)
    ensures Walk(a, b, k).i <= a && Walk(a, b, k).j <= b
    ensures Walk(a, b, k).i == a && Walk(a, b, k).j == b <==> k == Longer(a, b)
  {
    if Longer(a, b) > 0 {
      WalkOnLine(a, b, k);
      if a >= b { NearestStaysWithin(Walk(a, b, k).j, b, k, a); } else { NearestStaysWithin(Walk(a, b, k).i, a, k, b); }
    }
  }

  lemma NearestStaysWithin(n: nat, s: nat, k: nat, m: nat)
    requires m > 0 && k <= m && Rounds(n, s * k, m)
    ensures n <= s && (k == m ==> n == s)
  {
    assert s * k <= s * m by { MulMono(k, m, s); }
    assert m * (n - s) == m * n - s * m && m * (s - n) == s * m - m * n;
    NotPositive(m, n - s);
    NotPositive(m, s - n);
  }

  /** Every point is within half a pixel of the ideal line. */
  lemma {:induction false} WalkIsClose(a: nat, b: nat, k: nat)
    requires k <= Longer(a, b)
    ensures var p := Walk(a, b, k); 0 <= 2 * (a * p.j - b * p.i) + Longer(a, b) <= 2 * Longer(a, b)
  {
    if Longer(a, b) > 0 {
      WalkOnLine(a, b, k);
    }
  }

  /** The longer direction advances by one pixel a turn, and the other is at the nearest pixel; where two
      are equally near, at the farther one. */
  lemma {:induction false} WalkIsNearest(a: nat, b: nat, k: nat)
    requires a + b > 0
    ensures var p := Walk(a, b, k);
            if a >= b then p.i == k && 0 <= 2 * (b * k - a * p.j) + a < 2 * a
            else p.j == k && 0 <= 2 * (a * k - b * p.i) + b < 2 * b
  {
    WalkOnLine(a, b, k);
  }

  /** Consecutive points are different neighbours, one of eight directions apart. */
  lemma {:induction false} WalkStepsToNeighbour(a: nat, b: nat, k: nat)
    requires k < Longer(a, b)
    ensures var p, q := Walk(a, b, k), Walk(a, b, k + 1);
            p.i <= q.i <= p.i + 1 && p.j <= q.j <= p.j + 1 && (p.i, p.j) != (q.i, q.j)
  {
    WalkOnLine(a, b, k);
    WalkOnLine(a, b, k + 1);
  }

  // ---------- 16-bit arithmetic ----------

  /** Everything a turn computes fits into 16 bits: the doubled error and both updates of it. */
  ghost predicate TurnFits(a: nat, b: nat, err: int) {
    && InI16(2 * err)
    && InI16(if GoesAcross(b, err) then err - b else err)
    && InI16((if GoesAcross(b, err) then err - b else err) + (if GoesDown(a, err) then a else 0))
  }

  /** The whole line fits: its distances and every turn before the last point. */
  ghost predicate LineFits(a: nat, b: nat) {
    InI16(a) && InI16(b) && InI16(a - b) && forall k: nat :: k < Longer(a, b) ==> TurnFits(a, b, Walk(a, b, k).err)
  }

  const SAFE_DISTANCE: nat := 10923

  lemma {:induction false} TurnFitsWithin(a: nat, b: nat, k: nat)
    requires a <= SAFE_DISTANCE && b <= SAFE_DISTANCE && k < Longer(a, b)
    ensures TurnFits(a, b, Walk(a, b, k).err)
  {
    WalkOnLine(a, b, k);
    var p := Walk(a, b, k);
    if a >= b {
      FlatIsStill(p.j, b, k, a);
      AcrossFits(a, b, b * k, a * p.j, p.err);
    } else {
      FlatIsStill(p.i, a, k, b);
      DownFits(a, b, b * p.i, a * k, p.err);
    }
  }

  /** A line without extent in one direction never moves there. */
  lemma FlatIsStill(n: nat, s: nat, k: nat, m: nat)
    requires m > 0 && Rounds(n, s * k, m)
    ensures s == 0 ==> s * k == 0 && m * n == 0
  {
    NotPositive(m, n);
  }

  lemma AcrossFits(a: nat, b: nat, bk: int, aj: int, err: int)
    requires b <= a <= SAFE_DISTANCE && (b == 0 ==> bk == aj)
    requires 0 <= 2 * (bk - aj) + a < 2 * a && err == a - b - bk + aj
    ensures TurnFits(a, b, err)
  {
  }

  lemma DownFits(a: nat, b: nat, bi: int, ak: int, err: int)
    requires a < b <= SAFE_DISTANCE && (a == 0 ==> bi == ak)
    requires 0 <= 2 * (ak - bi) + b < 2 * b && err == a - b - bi + ak
    ensures TurnFits(a, b, err)
  {
  }

  /** One pixel more and a nearly horizontal line overflows half way. */
  lemma {:induction false} TooLongOverflows()
    ensures 2 * Walk(10924, 1, 5462).err == 32770
    ensures !LineFits(10924, 1)
  {
    WalkOnLine(10924, 1, 5462);
    RoundsIsUnique(Walk(10924, 1, 5462).j, 1, 5462, 10924);
    assert !TurnFits(10924, 1, Walk(10924, 1, 5462).err);
  }

  /** 10923 is the greatest distance for which the 16-bit arithmetic is exact on every line. */
  lemma {:induction false} SafeDistanceIsExact(limit: nat)
    ensures (forall a: nat, b: nat :: a <= limit && b <= limit ==> LineFits(a, b)) <==> limit <= SAFE_DISTANCE
  {
    if limit <= SAFE_DISTANCE {
      forall a: nat, b: nat | a <= limit && b <= limit ensures LineFits(a, b) {
        forall k: nat | k < Longer(a, b) ensures TurnFits(a, b, Walk(a, b, k).err) {
          TurnFitsWithin(a, b, k);
        }
      }
    } else {
      TooLongOverflows();
    }
  }
}
