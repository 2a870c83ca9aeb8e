/** `pools` and the run merging of `add`: which cells get the oil skin, and with how few quads. */
module Oil {
  import opened Cells

  // ---- hazards ---------------------------------------------------------------

  /** A cell that hurts (death, freeze, evil teleport) and is no thaw tile or wall. */
  predicate IsHazard(game: int, front: int, tele: int) {
    && game !in {1, 3, 11, 13, 60, 61, 62}
    && front !in {11, 13, 60, 61, 62}
    && (game in {2, 9, 12} || front in {2, 9, 12} || tele in {10, 63})
  }

  predicate IsWall(game: int) { game == 1 || game == 3 }

  // ---- surfaces and columns, declaratively -------------------------------------

  /** A hazard cell of a row below the first with neither hazard nor wall above it. */
  predicate Exposed(hazard: set<int>, game: seq<int>, w: nat, h: nat, x: int, y: int)
    requires |game| >= w * h
  {
    && InGrid(w, h, x, y) && y >= 1
    && Index(w, x, y) in hazard && Index(w, x, y) - w !in hazard
    && (AboveInRange(w, h, x, y); !IsWall(game[Index(w, x, y) - w]))
  }

  lemma AboveInRange(w: nat, h: nat, x: int, y: int)
    requires InGrid(w, h, x, y) && y >= 1
    ensures 0 <= Index(w, x, y) - w < w * h && Index(w, x, y) - w == Index(w, x, y - 1)
  {
    IndexInRange(w, h, x, y);
    IndexInRange(w, h, x, y - 1);
  }

  predicate ExposedRun(hazard: set<int>, game: seq<int>, w: nat, h: nat, a: int, b: int, y: int)
    requires |game| >= w * h
  {
    a <= b && forall k :: a <= k < b ==> Exposed(hazard, game, w, h, k, y)
  }

  /** Part of a run of at least three exposed cells. */
  ghost predicate IsSurface(hazard: set<int>, game: seq<int>, w: nat, h: nat, x: int, y: int)
    requires |game| >= w * h
  {
    exists a, b :: a <= x < b && b - a >= 3 && ExposedRun(hazard, game, w, h, a, b, y)
  }

  /** Nothing but hazard in the column from row y0 down to row y. */
  predicate Column(hazard: set<int>, w: nat, h: nat, x: int, y0: int, y: int) {
    0 <= y0 <= y < h && forall k :: y0 <= k <= y ==> Index(w, x, k) in hazard
  }

  /** Joined to a surface cell above it by an unbroken hazard column. */
  ghost predicate IsPool(hazard: set<int>, game: seq<int>, w: nat, h: nat, x: int, y: int)
    requires |game| >= w * h
  {
    exists y0 :: IsSurface(hazard, game, w, h, x, y0) && Column(hazard, w, h, x, y0, y)
  }

  /** Row y scanned up to column x, rows before y completely. */
  predicate Scanned(y: int, x: int, i: int, j: int) { j < y || (j == y && i < x) }

  ghost predicate SurfacesUpTo(s: set<int>, hazard: set<int>, game: seq<int>, w: nat, h: nat, y: int, x: int)
    requires |game| >= w * h
  {
    && (forall k :: k in s ==> 0 <= k < w * h)
    && forall i, j :: InGrid(w, h, i, j) ==>
        (Index(w, i, j) in s <==> IsSurface(hazard, game, w, h, i, j) && Scanned(y, x, i, j))
  }

  ghost predicate PoolUpTo(s: set<int>, hazard: set<int>, game: seq<int>, w: nat, h: nat, y: int, x: int)
    requires |game| >= w * h
  {
    && (forall k :: k in s ==> 0 <= k < w * h)
    && forall i, j :: InGrid(w, h, i, j) ==> (Index(w, i, j) in s <==>
         exists y0 :: IsSurface(hazard, game, w, h, i, y0) && Scanned(y, x, i, y0) && Column(hazard, w, h, i, y0, j))
  }

  lemma SurfaceInGrid(hazard: set<int>, game: seq<int>, w: nat, h: nat, x: int, y: int)
    requires |game| >= w * h && IsSurface(hazard, game, w, h, x, y)
    ensures InGrid(w, h, x, y) && Exposed(hazard, game, w, h, x, y)
  {
  }

  /** A maximal run decides: its cells are surface exactly when it has three cells. */
  lemma MaximalRun(hazard: set<int>, game: seq<int>, w: nat, h: nat, a: int, b: int, y: int, x: int)
    requires |game| >= w * h && ExposedRun(hazard, game, w, h, a, b, y) && a <= x < b
    requires !Exposed(hazard, game, w, h, a - 1, y) && !Exposed(hazard, game, w, h, b, y)
    ensures IsSurface(hazard, game, w, h, x, y) <==> b - a >= 3
  {
    hide Exposed;
    if IsSurface(hazard, game, w, h, x, y) {
      var c, d :| c <= x < d && d - c >= 3 && ExposedRun(hazard, game, w, h, c, d, y);
      assert c >= a && d <= b;
    }
  }

  /** Scanning past cells that are no surface changes nothing. */
  lemma SkipCells(surfaces: set<int>, cells: set<int>, hazard: set<int>, game: seq<int>, w: nat, h: nat, y: int,
          x: int, x': int)
    requires |game| >= w * h && SurfacesUpTo(surfaces, hazard, game, w, h, y, x)
        && PoolUpTo(cells, hazard, game, w, h, y, x) && x <= x'
    requires forall k :: x <= k < x' ==> !IsSurface(hazard, game, w, h, k, y)
    ensures SurfacesUpTo(surfaces, hazard, game, w, h, y, x') && PoolUpTo(cells, hazard, game, w, h, y, x')
  {
    hide IsSurface, Column, Index;
    forall i, j, y0 | InGrid(w, h, i, j) && IsSurface(hazard, game, w, h, i, y0)
      ensures Scanned(y, x, i, y0) == Scanned(y, x', i, y0)
    {
    }
  }

  lemma NextRow(surfaces: set<int>, cells: set<int>, hazard: set<int>, game: seq<int>, w: nat, h: nat, y: int)
    requires |game| >= w * h && SurfacesUpTo(surfaces, hazard, game, w, h, y, w)
        && PoolUpTo(cells, hazard, game, w, h, y, w)
    ensures SurfacesUpTo(surfaces, hazard, game, w, h, y + 1, 0) && PoolUpTo(cells, hazard, game, w, h, y + 1, 0)
  {
    hide IsSurface, Column, Index;
  }

  /** One more surface cell. */
  lemma AddSurface(s: set<int>, hazard: set<int>, game: seq<int>, w: nat, h: nat, y: int, x: int)
    requires |game| >= w * h && SurfacesUpTo(s, hazard, game, w, h, y, x) && InGrid(w, h, x, y)
        && IsSurface(hazard, game, w, h, x, y)
    ensures SurfacesUpTo(s + {Index(w, x, y)}, hazard, game, w, h, y, x + 1)
  {
    IndexInRange(w, h, x, y);
    forall i, j | InGrid(w, h, i, j)
      ensures Index(w, i, j) == Index(w, x, y) <==> i == x && j == y
    {
      IndexInjective(w, i, j, x, y);
    }
    hide IsSurface, Index;
  }

  /** The column below one more surface cell: rows y to bottom - 1, where the hazard ends. */
  lemma AddColumn(before: set<int>, after: set<int>, hazard: set<int>, game: seq<int>, w: nat, h: nat, y: int,
          x: int, bottom: int)
    requires |game| >= w * h && PoolUpTo(before, hazard, game, w, h, y, x) && InGrid(w, h, x, y)
        && IsSurface(hazard, game, w, h, x, y)
    requires y < bottom <= h && Column(hazard, w, h, x, y, bottom - 1)
        && (bottom < h ==> Index(w, x, bottom) !in hazard)
    requires after == before + set k | y <= k < bottom :: Index(w, x, k)
    ensures PoolUpTo(after, hazard, game, w, h, y, x + 1)
  {
    forall k | y <= k < bottom
      ensures 0 <= Index(w, x, k) < w * h
    {
      IndexInRange(w, h, x, k);
    }
    forall i, j, k | InGrid(w, h, i, j) && InGrid(w, h, x, k)
      ensures Index(w, i, j) == Index(w, x, k) <==> i == x && j == k
    {
      IndexInjective(w, i, j, x, k);
    }
    forall i, j | InGrid(w, h, i, j)
      ensures Index(w, i, j) in after <==>
        exists y0 :: IsSurface(hazard, game, w, h, i, y0) && Scanned(y, x + 1, i, y0) && Column(hazard, w, h, i, y0, j)
    {
      AddColumnAt(before, after, hazard, game, w, h, y, x, bottom, i, j);
    }
  }

  lemma AddColumnAt(before: set<int>, after: set<int>, hazard: set<int>, game: seq<int>, w: nat, h: nat, y: int,
          x: int, bottom: int, i: int, j: int)
    requires |game| >= w * h && PoolUpTo(before, hazard, game, w, h, y, x) && InGrid(w, h, x, y)
        && IsSurface(hazard, game, w, h, x, y)
    requires y < bottom <= h && Column(hazard, w, h, x, y, bottom - 1)
        && (bottom < h ==> Index(w, x, bottom) !in hazard)
    requires after == before + set k | y <= k < bottom :: Index(w, x, k)
    requires InGrid(w, h, i, j) && forall k :: InGrid(w, h, x, k) ==>
        (Index(w, i, j) == Index(w, x, k) <==> i == x && j == k)
    ensures Index(w, i, j) in after <==>
        exists y0 :: IsSurface(hazard, game, w, h, i, y0) && Scanned(y, x + 1, i, y0) && Column(hazard, w, h, i, y0, j)
  {
    hide IsSurface;
    if Index(w, i, j) in after && Index(w, i, j) !in before {
      var k :| y <= k < bottom && Index(w, i, j) == Index(w, x, k);
      assert Column(hazard, w, h, x, y, j);
    } else if Index(w, i, j) in before {
      var y0 :| IsSurface(hazard, game, w, h, i, y0) && Scanned(y, x, i, y0) && Column(hazard, w, h, i, y0, j);
      assert Scanned(y, x + 1, i, y0);
    }
    if y0 :| IsSurface(hazard, game, w, h, i, y0) && Scanned(y, x + 1, i, y0) && Column(hazard, w, h, i, y0, j) {
      if !Scanned(y, x, i, y0) {
        assert i == x && y0 == y;
        assert j < bottom;
        assert Index(w, i, j) == Index(w, x, j);
      }
    }
  }

  // ---- the scan ------------------------------------------------------------------

  /** r is `cells` with the whole hazard column from row y up to row `bottom`, where it breaks off. */
  ghost predicate ColumnAdded(r: set<int>, cells: set<int>, hazard: set<int>, w: nat, h: nat, x: int, y: int,
          bottom: int) {
    && y < bottom <= h && Column(hazard, w, h, x, y, bottom - 1) && (bottom < h ==> Index(w, x, bottom) !in hazard)
    && r == cells + set k | y <= k < bottom :: Index(w, x, k)
  }

  ghost function ColumnCells(w: nat, x: int, y: int, bottom: int): set<int> {
    set k | y <= k < bottom :: Index(w, x, k)
  }

  lemma ColumnGrows(w: nat, x: int, y: int, k: int)
    requires y <= k
    ensures ColumnCells(w, x, y, k + 1) == ColumnCells(w, x, y, k) + {k * w + x}
  {
    assert Index(w, x, k) == k * w + x;
  }

  method FillColumn(cells: set<int>, hazard: set<int>, w: nat, h: nat, x: int, y: int) returns (r: set<int>)
    requires InGrid(w, h, x, y) && Index(w, x, y) in hazard
    ensures exists bottom :: ColumnAdded(r, cells, hazard, w, h, x, y, bottom)
  {
    r := cells;
    var yy := y;
    while yy < h && yy * w + x in hazard
      invariant y <= yy <= h && forall k :: y <= k < yy ==> Index(w, x, k) in hazard
      invariant r == cells + ColumnCells(w, x, y, yy)
    {
      ColumnGrows(w, x, y, yy);
      r := r + {yy * w + x};
      yy := yy + 1;
    }
    assert Index(w, x, y) == y * w + x;
    assert ColumnAdded(r, cells, hazard, w, h, x, y, yy);
  }

  /** The scan, for any hazard set: surface cells are exactly those in runs of at least three exposed
      cells; pool cells exactly those joined to one of them by an unbroken hazard column. */
  method FindPools(hazard: set<int>, game: seq<int>, w: nat, h: nat) returns (cells: set<int>, surfaces: set<int>)
    requires |game| >= w * h
    ensures forall k :: k in cells + surfaces ==> 0 <= k < w * h
    ensures forall x, y :: InGrid(w, h, x, y) ==> (Index(w, x, y) in surfaces <==> IsSurface(hazard, game, w, h, x, y))
    ensures forall x, y :: InGrid(w, h, x, y) ==> (Index(w, x, y) in cells <==> IsPool(hazard, game, w, h, x, y))
  {
    hide SurfacesUpTo, PoolUpTo, Exposed, IsSurface, Column;
    surfaces, cells := {}, {};
    PoolsStart(hazard, game, w, h);
    for y := 1 to Bottom(h)
      invariant SurfacesUpTo(surfaces, hazard, game, w, h, y, 0) && PoolUpTo(cells, hazard, game, w, h, y, 0)
    {
      var x := 0;
      RowEnd(hazard, game, w, h, -1, y);
      while x < w
        invariant 0 <= x <= w
        invariant SurfacesUpTo(surfaces, hazard, game, w, h, y, x) && PoolUpTo(cells, hazard, game, w, h, y, x)
        invariant !Exposed(hazard, game, w, h, x - 1, y) || !Exposed(hazard, game, w, h, x, y)
      {
        if !Exposed(hazard, game, w, h, x, y) {
          NoSurface(hazard, game, w, h, x, y);
          SkipCells(surfaces, cells, hazard, game, w, h, y, x, x + 1);
          x := x + 1;
          continue;
        }
        var start := x;
        while x < w && Exposed(hazard, game, w, h, x, y)
          invariant start <= x <= w && ExposedRun(hazard, game, w, h, start, x, y)
        {
          x := x + 1;
        }
        RowEnd(hazard, game, w, h, w, y);
        forall k | start <= k < x
          ensures IsSurface(hazard, game, w, h, k, y) <==> x - start >= 3
        {
          MaximalRun(hazard, game, w, h, start, x, y, k);
        }
        if x - start < 3 {
          SkipCells(surfaces, cells, hazard, game, w, h, y, start, x);
          continue;
        }
        for xx := start to x
          invariant SurfacesUpTo(surfaces, hazard, game, w, h, y, xx) && PoolUpTo(cells, hazard, game, w, h, y, xx)
        {
          SurfaceHazard(hazard, game, w, h, xx, y);
          AddSurface(surfaces, hazard, game, w, h, y, xx);
          surfaces := surfaces + {y * w + xx};
          assert y * w + xx == Index(w, xx, y);
          ghost var before := cells;
          cells := FillColumn(cells, hazard, w, h, xx, y);
          ghost var bottom :| ColumnAdded(cells, before, hazard, w, h, xx, y, bottom);
          AddColumn(before, cells, hazard, game, w, h, y, xx, bottom);
        }
      }
      NextRow(surfaces, cells, hazard, game, w, h, y);
    }
    PoolsDone(surfaces, cells, hazard, game, w, h, Bottom(h));
  }

  /** range(1, h) is empty below two rows. */
  function Bottom(h: nat): nat { if h < 1 then 1 else h }

  lemma RowEnd(hazard: set<int>, game: seq<int>, w: nat, h: nat, x: int, y: int)
    requires |game| >= w * h && !(0 <= x < w)
    ensures !Exposed(hazard, game, w, h, x, y)
  {
  }

  lemma NoSurface(hazard: set<int>, game: seq<int>, w: nat, h: nat, x: int, y: int)
    requires |game| >= w * h && !Exposed(hazard, game, w, h, x, y)
    ensures !IsSurface(hazard, game, w, h, x, y)
  {
    hide Exposed;
  }

  lemma SurfaceHazard(hazard: set<int>, game: seq<int>, w: nat, h: nat, x: int, y: int)
    requires |game| >= w * h && IsSurface(hazard, game, w, h, x, y)
    ensures InGrid(w, h, x, y) && Index(w, x, y) in hazard
  {
    SurfaceInGrid(hazard, game, w, h, x, y);
  }

  lemma PoolsStart(hazard: set<int>, game: seq<int>, w: nat, h: nat)
    requires |game| >= w * h
    ensures SurfacesUpTo({}, hazard, game, w, h, 1, 0) && PoolUpTo({}, hazard, game, w, h, 1, 0)
  {
    forall i, j | IsSurface(hazard, game, w, h, i, j)
      ensures !Scanned(1, 0, i, j)
    {
      SurfaceInGrid(hazard, game, w, h, i, j);
    }
    hide IsSurface, Column;
  }

  lemma PoolsDone(surfaces: set<int>, cells: set<int>, hazard: set<int>, game: seq<int>, w: nat, h: nat, y: int)
    requires |game| >= w * h && SurfacesUpTo(surfaces, hazard, game, w, h, y, 0)
        && PoolUpTo(cells, hazard, game, w, h, y, 0) && y >= h
    ensures forall k :: k in cells + surfaces ==> 0 <= k < w * h
    ensures forall x, y :: InGrid(w, h, x, y) ==> (Index(w, x, y) in surfaces <==> IsSurface(hazard, game, w, h, x, y))
    ensures forall x, y :: InGrid(w, h, x, y) ==> (Index(w, x, y) in cells <==> IsPool(hazard, game, w, h, x, y))
  {
    forall i, j | IsSurface(hazard, game, w, h, i, j)
      ensures Scanned(y, 0, i, j)
    {
      SurfaceInGrid(hazard, game, w, h, i, j);
    }
    hide IsSurface, Column;
  }

  // ---- on the layers of a map ------------------------------------------------------

  /** The game, front and tele bytes, one per cell. */
  datatype Layers = Layers(game: seq<int>, front: seq<int>, tele: seq<int>) {
    predicate Fill(w: nat, h: nat) { |game| >= w * h && |front| >= w * h && |tele| >= w * h }
  }

  /** Death, freeze and deep freeze. */
  predicate Harms(tile: int) { tile == 2 || tile == 9 || tile == 12 }

  /** Unfreeze, deep unfreeze and the three kinds of stopper. */
  predicate Spares(tile: int) { tile == 11 || tile == 13 || 60 <= tile <= 62 }

  /** Something in the cell harms, also the two evil teleports, and nothing in it is solid or spares. */
  predicate HurtsAt(l: Layers, w: nat, h: nat, i: int)
    requires l.Fill(w, h)
  {
    && 0 <= i < w * h
    && l.game[i] != 1 && l.game[i] != 3 && !Spares(l.game[i]) && !Spares(l.front[i])
    && (Harms(l.game[i]) || Harms(l.front[i]) || l.tele[i] == 10 || l.tele[i] == 63)
  }

  /** The cell hurts. */
  predicate Hurts(l: Layers, w: nat, h: nat, x: int, y: int)
    requires l.Fill(w, h)
  {
    InGrid(w, h, x, y) && HurtsAt(l, w, h, Index(w, x, y))
  }

  /** It hurts, and what is right above it neither hurts nor is a wall. */
  predicate OpenAbove(l: Layers, w: nat, h: nat, x: int, y: int)
    requires l.Fill(w, h)
  {
    && Hurts(l, w, h, x, y) && y >= 1 && !Hurts(l, w, h, x, y - 1)
    && (IndexInRange(w, h, x, y - 1); l.game[Index(w, x, y - 1)] != 1 && l.game[Index(w, x, y - 1)] != 3)
  }

  /** Open above together with at least two neighbours in its row. */
  ghost predicate WideOpen(l: Layers, w: nat, h: nat, x: int, y: int)
    requires l.Fill(w, h)
  {
    exists a, b :: a <= x < b && b - a >= 3 && OpenRun(l, w, h, a, b, y)
  }

  predicate OpenRun(l: Layers, w: nat, h: nat, a: int, b: int, y: int)
    requires l.Fill(w, h)
  {
    forall k :: a <= k < b ==> OpenAbove(l, w, h, k, y)
  }

  /** Below such a cell, with nothing but hurting cells in between. */
  ghost predicate Submerged(l: Layers, w: nat, h: nat, x: int, y: int)
    requires l.Fill(w, h)
  {
    exists y0 :: WideOpen(l, w, h, x, y0) && HurtsDown(l, w, h, x, y0, y)
  }

  predicate HurtsDown(l: Layers, w: nat, h: nat, x: int, y0: int, y: int)
    requires l.Fill(w, h)
  {
    y0 <= y && forall k :: y0 <= k <= y ==> Hurts(l, w, h, x, k)
  }

  /** The cells that get the oil skin, and those among them that show its surface. Thaw tiles and
      walls are never skinned. */
  method Pools(l: Layers, w: nat, h: nat) returns (cells: set<int>, surfaces: set<int>)
    requires l.Fill(w, h)
    ensures forall i :: i in cells ==> HurtsAt(l, w, h, i)
    ensures surfaces <= cells
    ensures forall x, y :: InGrid(w, h, x, y) ==> (Index(w, x, y) in surfaces <==> WideOpen(l, w, h, x, y))
    ensures forall x, y :: InGrid(w, h, x, y) ==> (Index(w, x, y) in cells <==> Submerged(l, w, h, x, y))
  {
    var hazard := set i | 0 <= i < w * h && IsHazard(l.game[i], l.front[i], l.tele[i]);
    assert IsHazardSet(hazard, l, w, h);
    cells, surfaces := FindPools(hazard, l.game, w, h);
    hide IsHazard, IsHazardSet, IsSurface, IsPool, WideOpen, Submerged, Index, HurtsAt;
    forall x, y | InGrid(w, h, x, y)
      ensures IsSurface(hazard, l.game, w, h, x, y) <==> WideOpen(l, w, h, x, y)
      ensures IsPool(hazard, l.game, w, h, x, y) <==> Submerged(l, w, h, x, y)
      ensures WideOpen(l, w, h, x, y) ==> Submerged(l, w, h, x, y)
      ensures Submerged(l, w, h, x, y) ==> HurtsAt(l, w, h, Index(w, x, y))
    {
      SameSurface(hazard, l, w, h, x, y);
      SamePool(hazard, l, w, h, x, y);
      SurfaceSubmerged(l, w, h, x, y);
      SubmergedHurts(l, w, h, x, y);
    }
    CellsOnly(cells, surfaces, l, w, h);
  }

  ghost predicate IsHazardSet(hazard: set<int>, l: Layers, w: nat, h: nat)
    requires l.Fill(w, h)
  {
    forall i :: i in hazard <==> HurtsAt(l, w, h, i)
  }

  lemma SameExposed(hazard: set<int>, l: Layers, w: nat, h: nat, x: int, y: int)
    requires l.Fill(w, h) && IsHazardSet(hazard, l, w, h)
    ensures Exposed(hazard, l.game, w, h, x, y) <==> OpenAbove(l, w, h, x, y)
  {
    hide HurtsAt;
    if InGrid(w, h, x, y) && y >= 1 {
      AboveInRange(w, h, x, y);
    }
  }

  lemma SameSurface(hazard: set<int>, l: Layers, w: nat, h: nat, x: int, y: int)
    requires l.Fill(w, h) && IsHazardSet(hazard, l, w, h)
    ensures IsSurface(hazard, l.game, w, h, x, y) <==> WideOpen(l, w, h, x, y)
  {
    hide Exposed, OpenAbove, IsHazardSet;
    forall k
      ensures Exposed(hazard, l.game, w, h, k, y) <==> OpenAbove(l, w, h, k, y)
    {
      SameExposed(hazard, l, w, h, k, y);
    }
    if a, b :| a <= x < b && b - a >= 3 && ExposedRun(hazard, l.game, w, h, a, b, y) {
      assert OpenRun(l, w, h, a, b, y);
    }
    if a, b :| a <= x < b && b - a >= 3 && OpenRun(l, w, h, a, b, y) {
      assert ExposedRun(hazard, l.game, w, h, a, b, y);
    }
  }

  lemma SamePool(hazard: set<int>, l: Layers, w: nat, h: nat, x: int, y: int)
    requires l.Fill(w, h) && IsHazardSet(hazard, l, w, h) && InGrid(w, h, x, y)
    ensures IsPool(hazard, l.game, w, h, x, y) <==> Submerged(l, w, h, x, y)
  {
    hide IsSurface, WideOpen, HurtsAt;
    forall y0
      ensures IsSurface(hazard, l.game, w, h, x, y0) <==> WideOpen(l, w, h, x, y0)
    {
      SameSurface(hazard, l, w, h, x, y0);
    }
    if y0 :| IsSurface(hazard, l.game, w, h, x, y0) && Column(hazard, w, h, x, y0, y) {
      assert HurtsDown(l, w, h, x, y0, y);
    }
    if y0 :| WideOpen(l, w, h, x, y0) && HurtsDown(l, w, h, x, y0, y) {
      assert Hurts(l, w, h, x, y0);
      forall k | y0 <= k <= y
        ensures Index(w, x, k) in hazard
      {
        assert Hurts(l, w, h, x, k);
      }
      assert Column(hazard, w, h, x, y0, y);
    }
  }

  lemma SurfaceSubmerged(l: Layers, w: nat, h: nat, x: int, y: int)
    requires l.Fill(w, h)
    ensures WideOpen(l, w, h, x, y) ==> Submerged(l, w, h, x, y)
  {
    hide HurtsAt;
    if WideOpen(l, w, h, x, y) {
      assert OpenAbove(l, w, h, x, y);
      assert HurtsDown(l, w, h, x, y, y);
    }
  }

  lemma SubmergedHurts(l: Layers, w: nat, h: nat, x: int, y: int)
    requires l.Fill(w, h)
    ensures Submerged(l, w, h, x, y) ==> Hurts(l, w, h, x, y)
  {
    hide WideOpen;
  }

  /** Every index below w * h is the index of a cell. */
  lemma CellsOnly(cells: set<int>, surfaces: set<int>, l: Layers, w: nat, h: nat)
    requires l.Fill(w, h) && forall k :: k in cells + surfaces ==> 0 <= k < w * h
    requires forall x, y :: InGrid(w, h, x, y) ==> (Index(w, x, y) in surfaces ==> Index(w, x, y) in cells)
    requires forall x, y :: InGrid(w, h, x, y) ==> (Index(w, x, y) in cells ==> HurtsAt(l, w, h, Index(w, x, y)))
    ensures surfaces <= cells && forall i :: i in cells ==> HurtsAt(l, w, h, i)
  {
    hide HurtsAt;
    forall i | i in surfaces
      ensures i in cells
    {
      assert i in cells + surfaces;
      SplitIndex(w, h, i);
      assert Index(w, i % w, i / w) in surfaces;
    }
    forall i | i in cells
      ensures HurtsAt(l, w, h, i)
    {
      assert i in cells + surfaces;
      SplitIndex(w, h, i);
      assert Index(w, i % w, i / w) in cells;
    }
  }
}
