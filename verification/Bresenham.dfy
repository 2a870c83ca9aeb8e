/** The integer line walk of `Canvas.line`, seen as rounding the ideal line at every step. */
module Bresenham {
  import opened Integers

  /** a*k/m rounded to the nearest integer, halves down. */
  function Round(a: nat, k: nat, m: nat): nat
    requires m > 0
  {
    (2 * (a * k) + m - 1) / (2 * m)
  }

  /** j is the integer nearest to a*k/m. */
  predicate Nearest(a: nat, k: nat, m: nat, j: int) {
    2 * (m * j) <= 2 * (a * k) + m - 1 < 2 * (m * j) + 2 * m
  }

  lemma RoundNearest(a: nat, k: nat, m: nat, j: int)
    requires m > 0
    ensures Nearest(a, k, m, j) <==> j == Round(a, k, m)
  {
    var n, d := 2 * (a * k) + m - 1, 2 * m;
    Divided(n, d, j);
    assert d * j == 2 * (m * j);
  }

  lemma Divided(n: int, d: int, j: int)
    requires d > 0
    ensures d * j <= n < d * j + d <==> j == n / d
  {
    var q := n / d;
    assert n == d * q + n % d;
    Apart(d, j - q);
    assert d * j == d * q + d * (j - q);
  }

  lemma Apart(d: int, e: int)
    requires d > 0
    ensures e >= 1 ==> d * e >= d
    ensures e <= -1 ==> d * e <= -d
  {
  }

  /** The steps of a line: dx and dy units along the axes, the longer one unit by unit. */
  function Steps(dx: nat, dy: nat): nat { if dx >= dy then dx else dy }

  /** How many x units (a = dx) or y units (a = dy) the walk has gone after k steps. */
  function Gone(a: nat, k: nat, m: nat): nat { if m == 0 then 0 else Round(a, k, m) }

  lemma GoneMajor(m: nat, k: nat)
    requires m > 0
    ensures Gone(m, k, m) == k
  {
    assert m * k == m * k;
    RoundNearest(m, k, m, k);
  }

  lemma GoneStart(a: nat, m: nat)
    requires a <= m
    ensures Gone(a, 0, m) == 0
  {
    if m > 0 { RoundNearest(a, 0, m, 0); }
  }

  lemma GoneEnd(a: nat, m: nat)
    requires a <= m
    ensures Gone(a, m, m) == a
  {
    if m > 0 {
      assert a * m == m * a;
      RoundNearest(a, m, m, a);
    }
  }

  /** The error term of the loop in terms of the steps gone. */
  function Err(dx: nat, dy: nat, i: int, j: int): int { dx - dy + dx * j - dy * i }

  /** One round of the loop advances each axis exactly when the nearest point does. */
  lemma OneStep(dx: nat, dy: nat, k: nat)
    requires k < Steps(dx, dy)
    ensures var (m, i, j) := (Steps(dx, dy), Gone(dx, k, Steps(dx, dy)), Gone(dy, k, Steps(dx, dy)));
            var e := Err(dx, dy, i, j);
            && Gone(dx, k + 1, m) == (if 2 * e + dy > 0 then i + 1 else i)
            && Gone(dy, k + 1, m) == (if 2 * e < dx then j + 1 else j)
  {
    var m, i, j := Steps(dx, dy), Gone(dx, k, Steps(dx, dy)), Gone(dy, k, Steps(dx, dy));
    RoundNearest(dx, k, m, i);
    RoundNearest(dy, k, m, j);
    if dx >= dy {
      GoneMajor(m, k);
      GoneMajor(m, k + 1);
      MinorStep(dx, dy, k, j);
    } else {
      GoneMajor(m, k);
      GoneMajor(m, k + 1);
      MinorStep(dy, dx, k, i);
    }
  }

  /** m is the longer axis, walked k units; a the shorter one, walked j units. */
  lemma MinorStep(m: nat, a: nat, k: nat, j: int)
    requires 0 < m && a <= m && j == Round(a, k, m)
    ensures var e := m - a + m * j - a * k;
            && 2 * e + a > 0
            && Round(a, k + 1, m) == (if 2 * e < m then j + 1 else j)
  {
    RoundNearest(a, k, m, j);
    var e := m - a + m * j - a * k;
    assert a * (k + 1) == a * k + a;
    assert m * (j + 1) == m * j + m;
    if a == m { GoneMajor(m, k); }
    RoundNearest(a, k + 1, m, j);
    RoundNearest(a, k + 1, m, j + 1);
  }

  /** Every point of the walk is within half a step of the ideal line. */
  lemma CloseToIdeal(dx: nat, dy: nat, k: nat)
    requires k <= Steps(dx, dy)
    ensures var (m, i, j) := (Steps(dx, dy), Gone(dx, k, Steps(dx, dy)), Gone(dy, k, Steps(dx, dy)));
            2 * Abs(dx * j - dy * i) <= m
  {
    var m := Steps(dx, dy);
    if m > 0 {
      GoneMajor(m, k);
      RoundNearest(dx, k, m, Gone(dx, k, m));
      RoundNearest(dy, k, m, Gone(dy, k, m));
    }
  }

  /** The walk goes one unit along the longer axis each step, at most one along the other,
      starts at the start and ends on the target. */
  lemma WalkShape(dx: nat, dy: nat, k: nat)
    requires k < Steps(dx, dy)
    ensures var (m, i, j) := (Steps(dx, dy), Gone(dx, k, Steps(dx, dy)), Gone(dy, k, Steps(dx, dy)));
            var (i', j') := (Gone(dx, k + 1, m), Gone(dy, k + 1, m));
            && (dx >= dy ==> i' == i + 1) && (dy >= dx ==> j' == j + 1)
            && i <= i' <= i + 1 && j <= j' <= j + 1
            && Gone(dx, 0, m) == 0 && Gone(dy, 0, m) == 0 && Gone(dx, m, m) == dx && Gone(dy, m, m) == dy
  {
    var m := Steps(dx, dy);
    OneStep(dx, dy, k);
    GoneMajor(m, k);
    GoneMajor(m, k + 1);
    GoneStart(dx, m);
    GoneStart(dy, m);
    GoneEnd(dx, m);
    GoneEnd(dy, m);
  }
}
