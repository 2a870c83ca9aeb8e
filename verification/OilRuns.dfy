/** Merging pool cells into horizontal quads: as few as the length limits allow. */
module OilRuns {
  import opened Cells

  datatype Run = Run(x: int, y: int, len: int, top: bool)

  /** Surface quads are at most two cells wide, deep ones four. */
  function Limit(top: bool): (n: nat)
    ensures n > 0
  {
    if top then 2 else 4
  }

  /** A pool cell of the grid of the given kind. */
  predicate IsKind(cells: set<int>, surfaces: set<int>, w: nat, h: nat, x: int, y: int, top: bool) {
    InGrid(w, h, x, y) && Index(w, x, y) in cells && (Index(w, x, y) in surfaces) == top
  }

  /** A quad over cells of one kind, within its limit. */
  predicate IsRun(r: Run, cells: set<int>, surfaces: set<int>, w: nat, h: nat) {
    1 <= r.len <= Limit(r.top) && forall k :: r.x <= k < r.x + r.len ==> IsKind(cells, surfaces, w, h, k, r.y, r.top)
  }

  predicate Covers(r: Run, x: int, y: int) { r.y == y && r.x <= x < r.x + r.len }

  /** Quads that together show every pool cell. They may overlap. */
  ghost predicate IsCover(runs: seq<Run>, cells: set<int>, surfaces: set<int>, w: nat, h: nat) {
    && (forall k :: 0 <= k < |runs| ==> IsRun(runs[k], cells, surfaces, w, h))
    && forall x, y :: InGrid(w, h, x, y) && Index(w, x, y) in cells ==>
        exists k :: 0 <= k < |runs| && Covers(runs[k], x, y)
  }

  /** a lies before b in reading order without overlap. */
  predicate Ahead(a: Run, b: Run) { a.y < b.y || (a.y == b.y && a.x + a.len <= b.x) }

  /** The run could not be longer: its limit is reached, or the next cell is of another kind. */
  predicate Full(r: Run, cells: set<int>, surfaces: set<int>, w: nat, h: nat) {
    r.len == Limit(r.top) || !IsKind(cells, surfaces, w, h, r.x + r.len, r.y, r.top)
  }

  /** What the loop has built when it stands at column x of row y. */
  ghost predicate Merged(runs: seq<Run>, cells: set<int>, surfaces: set<int>, w: nat, h: nat, y: int, x: int) {
    && (forall k :: 0 <= k < |runs| ==> IsRun(runs[k], cells, surfaces, w, h) && Full(runs[k], cells, surfaces, w, h))
    && (forall j, k :: 0 <= j < k < |runs| ==> Ahead(runs[j], runs[k]))
    && (forall k :: 0 <= k < |runs| ==> runs[k].y < y || (runs[k].y == y && runs[k].x + runs[k].len <= x))
    && forall i, j :: InGrid(w, h, i, j) && Index(w, i, j) in cells && (j < y || (j == y && i < x)) ==>
        exists k :: 0 <= k < |runs| && Covers(runs[k], i, j)
  }

  lemma MergedMore(runs: seq<Run>, r: Run, cells: set<int>, surfaces: set<int>, w: nat, h: nat)
    requires Merged(runs, cells, surfaces, w, h, r.y, r.x) && IsRun(r, cells, surfaces, w, h)
        && Full(r, cells, surfaces, w, h)
    ensures Merged(runs + [r], cells, surfaces, w, h, r.y, r.x + r.len)
  {
    hide IsRun, Full, Index, InGrid;
    var more := runs + [r];
    forall i, j | InGrid(w, h, i, j) && Index(w, i, j) in cells && (j < r.y || (j == r.y && i < r.x + r.len))
      ensures exists k :: 0 <= k < |more| && Covers(more[k], i, j)
    {
      if j == r.y && i >= r.x {
        assert Covers(more[|runs|], i, j);
      } else {
        var k :| 0 <= k < |runs| && Covers(runs[k], i, j);
        assert more[k] == runs[k];
      }
    }
    assert 1 <= r.len by { RunLength(r, cells, surfaces, w, h); }
  }

  lemma RunLength(r: Run, cells: set<int>, surfaces: set<int>, w: nat, h: nat)
    requires IsRun(r, cells, surfaces, w, h)
    ensures 1 <= r.len <= Limit(r.top)
  {
  }

  lemma RunFacts(r: Run, cells: set<int>, surfaces: set<int>, w: nat, h: nat)
    requires 1 <= r.len <= Limit(r.top) && forall k :: r.x <= k < r.x + r.len ==>
        IsKind(cells, surfaces, w, h, k, r.y, r.top)
    requires r.len == Limit(r.top) || !IsKind(cells, surfaces, w, h, r.x + r.len, r.y, r.top)
    ensures IsRun(r, cells, surfaces, w, h) && Full(r, cells, surfaces, w, h)
  {
  }

  lemma MergedDone(runs: seq<Run>, cells: set<int>, surfaces: set<int>, w: nat, h: nat)
    requires Merged(runs, cells, surfaces, w, h, h, 0)
    ensures IsCover(runs, cells, surfaces, w, h)
    ensures forall j, k :: 0 <= j < k < |runs| ==> Ahead(runs[j], runs[k])
    ensures forall k :: 0 <= k < |runs| ==> Full(runs[k], cells, surfaces, w, h)
  {
    hide IsRun, Full, Index;
  }

  // ---- no cover has fewer runs -----------------------------------------------------

  /** A run of any cover that contains the first cell of a merged run does not reach beyond it. */
  lemma EndsWithin(a: Run, v: Run, cells: set<int>, surfaces: set<int>, w: nat, h: nat)
    requires IsRun(a, cells, surfaces, w, h) && IsRun(v, cells, surfaces, w, h) && Full(a, cells, surfaces, w, h)
    requires Covers(v, a.x, a.y)
    ensures v.x + v.len <= a.x + a.len
  {
    hide Index;
    assert IsKind(cells, surfaces, w, h, a.x, a.y, a.top) && IsKind(cells, surfaces, w, h, a.x, a.y, v.top);
    var next := a.x + a.len;
    assert next < v.x + v.len ==> IsKind(cells, surfaces, w, h, next, a.y, v.top);
  }

  /** So it contains the first cell of at most one merged run. */
  lemma OneStart(a: Run, b: Run, v: Run, cells: set<int>, surfaces: set<int>, w: nat, h: nat)
    requires IsRun(a, cells, surfaces, w, h) && IsRun(b, cells, surfaces, w, h) && IsRun(v, cells, surfaces, w, h)
    requires Full(a, cells, surfaces, w, h) && Ahead(a, b)
    ensures !(Covers(v, a.x, a.y) && Covers(v, b.x, b.y))
  {
    if Covers(v, a.x, a.y) {
      EndsWithin(a, v, cells, surfaces, w, h);
    }
  }

  /** The merged runs are as few as any cover can be. */
  lemma FewestRuns(runs: seq<Run>, other: seq<Run>, cells: set<int>, surfaces: set<int>, w: nat, h: nat)
    requires IsCover(runs, cells, surfaces, w, h) && IsCover(other, cells, surfaces, w, h)
    requires forall j, k :: 0 <= j < k < |runs| ==> Ahead(runs[j], runs[k])
    requires forall k :: 0 <= k < |runs| ==> Full(runs[k], cells, surfaces, w, h)
    ensures |runs| <= |other|
  {
    hide Full, Index;
    var chosen: seq<nat> := [];
    for n := 0 to |runs|
      invariant |chosen| == n
      invariant forall k :: 0 <= k < n ==> chosen[k] < |other| && Covers(other[chosen[k]], runs[k].x, runs[k].y)
    {
      assert IsKind(cells, surfaces, w, h, runs[n].x, runs[n].y, runs[n].top);
      var j :| 0 <= j < |other| && Covers(other[j], runs[n].x, runs[n].y);
      chosen := chosen + [j];
    }
    forall j, k | 0 <= j < k < |chosen|
      ensures chosen[j] != chosen[k]
    {
      OneStart(runs[j], runs[k], other[chosen[j]], cells, surfaces, w, h);
    }
    Pigeonhole(chosen, |other|);
  }

  lemma {:induction false} Pigeonhole(s: seq<nat>, m: nat)
    requires forall k :: 0 <= k < |s| ==> s[k] < m
    requires forall j, k :: 0 <= j < k < |s| ==> s[j] != s[k]
    ensures |s| <= m
    decreases |s|
  {
    if s != [] {
      var n := |s| - 1;
      var last := s[n];
      // Rename the largest value to the one that is dropped.
      var t := seq(n, k requires 0 <= k < n => if s[k] == m - 1 then last else s[k]);
      Pigeonhole(t, m - 1);
    }
  }

  /** At most two surface cells or four deep ones, side by side in a row. */
  predicate ShowsOnly(r: Run, cells: set<int>, surfaces: set<int>, w: nat) {
    && 1 <= r.len <= (if r.top then 2 else 4)
    && forall k :: r.x <= k < r.x + r.len ==> CellKind(k, r.y, w, cells, surfaces, r.top)
  }

  predicate CellKind(x: int, y: int, w: nat, cells: set<int>, surfaces: set<int>, top: bool) {
    y * w + x in cells && (top <==> y * w + x in surfaces)
  }

  lemma RunShows(r: Run, cells: set<int>, surfaces: set<int>, w: nat, h: nat)
    requires IsRun(r, cells, surfaces, w, h)
    ensures ShowsOnly(r, cells, surfaces, w)
  {
    forall k | r.x <= k < r.x + r.len
      ensures CellKind(k, r.y, w, cells, surfaces, r.top)
    {
      assert IsKind(cells, surfaces, w, h, k, r.y, r.top);
    }
  }

  // ---- the loop ----------------------------------------------------------------------

  /** Every pool cell is in exactly one run, every run is of one kind and within its limit, and no
      other set of such runs, overlapping or not, has fewer. */
  method Merge(cells: set<int>, surfaces: set<int>, w: nat, h: nat) returns (runs: seq<Run>)
    ensures IsCover(runs, cells, surfaces, w, h)
    ensures forall j, k :: 0 <= j < k < |runs| ==> Ahead(runs[j], runs[k])
    ensures forall k :: 0 <= k < |runs| ==> Full(runs[k], cells, surfaces, w, h)
    ensures forall other :: IsCover(other, cells, surfaces, w, h) ==> |runs| <= |other|
    ensures forall n :: 0 <= n < |runs| ==> ShowsOnly(runs[n], cells, surfaces, w)
  {
    hide IsRun, Full, Index;
    runs := [];
    for y := 0 to h
      invariant Merged(runs, cells, surfaces, w, h, y, 0)
    {
      var x := 0;
      while x < w
        invariant 0 <= x <= w && Merged(runs, cells, surfaces, w, h, y, x)
      {
        var i := Index(w, x, y);
        if i !in cells { x := x + 1; continue; }
        var top, start := i in surfaces, x;
        x := x + 1;
        var limit := if top then 2 else 4;
        while x < w && Index(w, x, y) in cells && (Index(w, x, y) in surfaces) == top && x - start < limit
          invariant start < x <= w && x - start <= limit
          invariant forall k :: start <= k < x ==> IsKind(cells, surfaces, w, h, k, y, top)
        {
          x := x + 1;
        }
        var r := Run(start, y, x - start, top);
        RunFacts(r, cells, surfaces, w, h);
        MergedMore(runs, r, cells, surfaces, w, h);
        runs := runs + [r];
      }
    }
    MergedDone(runs, cells, surfaces, w, h);
    forall n | 0 <= n < |runs|
      ensures ShowsOnly(runs[n], cells, surfaces, w)
    {
      RunShows(runs[n], cells, surfaces, w, h);
    }
    hide IsCover;
    forall other | IsCover(other, cells, surfaces, w, h)
      ensures |runs| <= |other|
    {
      FewestRuns(runs, other, cells, surfaces, w, h);
    }
  }

  // ---- how many there are -----------------------------------------------------------

  /** Columns a up to b of row y are a maximal stretch of one kind. */
  ghost predicate Stretch(cells: set<int>, surfaces: set<int>, w: nat, h: nat, a: int, b: int, y: int, top: bool) {
    && a < b && (forall x :: a <= x < b ==> IsKind(cells, surfaces, w, h, x, y, top))
    && !IsKind(cells, surfaces, w, h, a - 1, y, top) && !IsKind(cells, surfaces, w, h, b, y, top)
  }

  lemma NotEmpty(cells: set<int>, surfaces: set<int>, w: nat, h: nat, a: int, b: int, y: int, top: bool)
    requires Stretch(cells, surfaces, w, h, a, b, y, top)
    ensures a < b
  {
  }

  /** A run that shows a cell of a stretch stays inside it, and is cut short only by its end. */
  lemma RunInStretch(r: Run, cells: set<int>, surfaces: set<int>, w: nat, h: nat, a: int, b: int, y: int, top: bool,
      x: int)
    requires IsRun(r, cells, surfaces, w, h) && Full(r, cells, surfaces, w, h)
    requires Stretch(cells, surfaces, w, h, a, b, y, top) && a <= x < b && Covers(r, x, y)
    ensures r.top == top && a <= r.x && r.x + r.len <= b && (r.len == Limit(top) || r.x + r.len == b)
  {
    hide Index, InGrid;
    assert IsKind(cells, surfaces, w, h, x, y, r.top) && IsKind(cells, surfaces, w, h, x, y, top);
    assert r.x < a ==> IsKind(cells, surfaces, w, h, a - 1, y, top);
    assert r.x + r.len > b ==> IsKind(cells, surfaces, w, h, b, y, top);
  }

  /** The merged runs cut a stretch into pieces of two cells on the surface and four below, from its left
      end on: cell x is shown by piece number (x - a) / 2 or (x - a) / 4. */
  lemma {:induction false} StretchPieces(runs: seq<Run>, cells: set<int>, surfaces: set<int>, w: nat, h: nat, a: int,
        b: int, y: int, top: bool, x: int) returns (k: nat)
    requires IsCover(runs, cells, surfaces, w, h)
    requires forall i, j :: 0 <= i < j < |runs| ==> Ahead(runs[i], runs[j])
    requires forall i :: 0 <= i < |runs| ==> Full(runs[i], cells, surfaces, w, h)
    requires Stretch(cells, surfaces, w, h, a, b, y, top) && a <= x < b
    ensures k < |runs| && Covers(runs[k], x, y)
    ensures runs[k].x == if top then a + (x - a) / 2 * 2 else a + (x - a) / 4 * 4
    ensures runs[k].top == top
    ensures var n := if top then 2 else 4; runs[k].len == if runs[k].x + n <= b then n else b - runs[k].x
    decreases x - a
  {
    hide Full, IsRun, Stretch, Index;
    k := Shown(runs, cells, surfaces, w, h, a, b, y, top, x);
    RunInStretch(runs[k], cells, surfaces, w, h, a, b, y, top, x);
    RunIsShort(runs[k], cells, surfaces, w, h);
    var n, start := Limit(top), runs[k].x;
    if start > a {
      var j := StretchPieces(runs, cells, surfaces, w, h, a, b, y, top, start - 1);
      assert j != k && !Ahead(runs[k], runs[j]);
      assert runs[j].x + runs[j].len == start && runs[j].len == n;
      PieceAfter((start - 1 - a) / n, n, start - a, x - a);
    }
  }

  lemma PieceAfter(q: int, n: int, s: int, x: int)
    requires (n == 2 || n == 4) && q * n + n == s && s <= x < s + n
    ensures x / n * n == s
  {
  }

  lemma RunIsShort(r: Run, cells: set<int>, surfaces: set<int>, w: nat, h: nat)
    requires IsRun(r, cells, surfaces, w, h)
    ensures 1 <= r.len <= Limit(r.top)
  {
  }

  lemma Shown(runs: seq<Run>, cells: set<int>, surfaces: set<int>, w: nat, h: nat, a: int, b: int, y: int, top: bool,
        x: int) returns (k: nat)
    requires IsCover(runs, cells, surfaces, w, h) && Stretch(cells, surfaces, w, h, a, b, y, top) && a <= x < b
    ensures k < |runs| && Covers(runs[k], x, y) && IsRun(runs[k], cells, surfaces, w, h)
  {
    hide IsRun, Index;
    assert IsKind(cells, surfaces, w, h, x, y, top);
    k :| 0 <= k < |runs| && Covers(runs[k], x, y);
  }

  /** The runs of row y that start from column a up to column e. */
  function StartsIn(runs: seq<Run>, y: int, a: int, e: int): set<nat> {
    set k: nat | k < |runs| && runs[k].y == y && a <= runs[k].x < e
  }

  /** The run starts in the piece of n columns that starts at column `from`. */
  predicate InPiece(r: Run, from: int, b: int, y: int, n: int) { r.y == y && from <= r.x < from + n && r.x < b }

  lemma SameCell(runs: seq<Run>, i: nat, j: nat, x: int, y: int)
    requires forall k, m :: 0 <= k < m < |runs| ==> Ahead(runs[k], runs[m])
    requires i < |runs| && j < |runs| && Covers(runs[i], x, y) && Covers(runs[j], x, y)
    ensures i == j
  {
  }

  /** Piece number q is the only run that starts between its own start and the next one. */
  lemma OnePiece(runs: seq<Run>, cells: set<int>, surfaces: set<int>, w: nat, h: nat, a: int, b: int, y: int,
        top: bool, q: nat, from: int) returns (k: nat)
    requires IsCover(runs, cells, surfaces, w, h)
    requires forall i, j :: 0 <= i < j < |runs| ==> Ahead(runs[i], runs[j])
    requires forall i :: 0 <= i < |runs| ==> Full(runs[i], cells, surfaces, w, h)
    requires Stretch(cells, surfaces, w, h, a, b, y, top) && from == a + q * Limit(top) < b
    ensures k < |runs| && runs[k].x == from && runs[k].y == y
    ensures forall i: nat :: i < |runs| && InPiece(runs[i], from, b, y, Limit(top)) ==> i == k
  {
    hide Full, Stretch, Index, IsCover, Ahead;
    var n := Limit(top);
    k := StretchPieces(runs, cells, surfaces, w, h, a, b, y, top, from);
    PieceAfter(q - 1, n, q * n, q * n);
    forall i: nat | i < |runs| && InPiece(runs[i], from, b, y, n)
      ensures i == k
    {
      var j := StretchPieces(runs, cells, surfaces, w, h, a, b, y, top, runs[i].x);
      PieceAfter(q - 1, n, q * n, runs[i].x - a);
      RunsLong(runs, cells, surfaces, w, h, i);
      SameCell(runs, i, j, runs[i].x, y);
      SameCell(runs, j, k, from, y);
    }
  }

  lemma RunsLong(runs: seq<Run>, cells: set<int>, surfaces: set<int>, w: nat, h: nat, i: nat)
    requires IsCover(runs, cells, surfaces, w, h) && i < |runs|
    ensures runs[i].len >= 1
  {
  }

  /** The number of pieces of a given length that it takes to fill `room` cells. */
  function Pieces(room: int, n: int): int
    requires n > 0
  {
    (room + n - 1) / n
  }

  lemma PieceStarts(runs: seq<Run>, y: int, a: int, b: int, n: nat, from: int, k: nat)
    requires k < |runs| && runs[k].x == from && runs[k].y == y && n > 0 && a <= from < b
    requires forall i: nat :: i < |runs| && InPiece(runs[i], from, b, y, n) ==> i == k
    ensures var e := if from + n < b then from + n else b;
            k !in StartsIn(runs, y, a, from) && StartsIn(runs, y, a, e) == StartsIn(runs, y, a, from) + {k}
  {
    var e := if from + n < b then from + n else b;
    forall i: nat
      ensures i in StartsIn(runs, y, a, e) <==> i in StartsIn(runs, y, a, from) + {k}
    {
      if i in StartsIn(runs, y, a, e) && runs[i].x >= from {
        assert InPiece(runs[i], from, b, y, n);
      }
    }
  }

  lemma OneLess(q: nat, n: nat)
    requires q > 0
    ensures q * n == (q - 1) * n + n && (q - 1) * n >= 0
  {
  }

  /** Of q pieces from the left end on there are q runs. */
  lemma {:induction false} CountPieces(runs: seq<Run>, cells: set<int>, surfaces: set<int>, w: nat, h: nat, a: int,
        b: int, y: int, top: bool, q: nat, to: int)
    requires IsCover(runs, cells, surfaces, w, h)
    requires forall i, j :: 0 <= i < j < |runs| ==> Ahead(runs[i], runs[j])
    requires forall i :: 0 <= i < |runs| ==> Full(runs[i], cells, surfaces, w, h)
    requires Stretch(cells, surfaces, w, h, a, b, y, top) && to == a + q * Limit(top) && (q > 0 ==> to - Limit(top) < b)
    ensures |StartsIn(runs, y, a, if to < b then to else b)| == q
    decreases q
  {
    hide IsCover, Full, Stretch, Ahead, InPiece, Limit;
    var n := Limit(top);
    if q == 0 {
      NotEmpty(cells, surfaces, w, h, a, b, y, top);
      assert StartsIn(runs, y, a, a) == {};
    } else {
      hide StartsIn;
      var from := to - n;
      OneLess(q, n);
      CountPieces(runs, cells, surfaces, w, h, a, b, y, top, q - 1, from);
      var k := OnePiece(runs, cells, surfaces, w, h, a, b, y, top, q - 1, from);
      PieceStarts(runs, y, a, b, n, from, k);
    }
  }

  /** A stretch of L cells takes exactly ceil(L / 2) runs on the surface and ceil(L / 4) below. */
  lemma StretchCount(runs: seq<Run>, cells: set<int>, surfaces: set<int>, w: nat, h: nat, a: int, b: int, y: int,
        top: bool)
    requires IsCover(runs, cells, surfaces, w, h)
    requires forall i, j :: 0 <= i < j < |runs| ==> Ahead(runs[i], runs[j])
    requires forall i :: 0 <= i < |runs| ==> Full(runs[i], cells, surfaces, w, h)
    requires Stretch(cells, surfaces, w, h, a, b, y, top)
    ensures |StartsIn(runs, y, a, b)| == if top then (b - a + 1) / 2 else (b - a + 3) / 4
  {
    hide IsCover, Full, Ahead;
    var n, q := Limit(top), Pieces(b - a, Limit(top));
    assert a < b;
    hide Stretch;
    assert q > 0 && (q - 1) * n < b - a <= q * n;
    CountPieces(runs, cells, surfaces, w, h, a, b, y, top, q, a + q * n);
  }
}
