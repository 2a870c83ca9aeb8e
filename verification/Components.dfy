/** `components`: pixel-connected art, found by a flood fill with an explicit stack. */
module Components {
  import opened Cells
  import opened Reach
  import opened Sorting

  const CELL: int := 64

  type Cell = (int, int)

  /** One picture: the 64-pixel cells it touches, its pixel count, its bounding box. */
  datatype Component = Component(cells: seq<Cell>, npix: int, box: Box)

  // ---- what the pixels mean ----------------------------------------------------

  /** Pixels of a flag buffer that are set. */
  ghost function Marked(flags: seq<bool>, w: nat, h: nat): set<Cell>
    requires |flags| == w * h
  {
    set x, y | 0 <= x < w && 0 <= y < h && IsMarked(flags, w, h, x, y) :: (x, y)
  }

  predicate IsMarked(flags: seq<bool>, w: nat, h: nat, x: int, y: int)
    requires |flags| == w * h && InGrid(w, h, x, y)
  {
    IndexInRange(w, h, x, y);
    flags[Index(w, x, y)]
  }

  lemma MarkedCell(flags: seq<bool>, w: nat, h: nat, x: int, y: int)
    requires |flags| == w * h && InGrid(w, h, x, y)
    ensures 0 <= Index(w, x, y) < |flags|
    ensures flags[Index(w, x, y)] <==> (x, y) in Marked(flags, w, h)
  {
    IndexInRange(w, h, x, y);
  }

  /** Setting one flag adds one pixel. */
  lemma MarkOne(flags: seq<bool>, w: nat, h: nat, x: int, y: int)
    requires |flags| == w * h && InGrid(w, h, x, y)
    ensures 0 <= Index(w, x, y) < |flags|
    ensures Marked(flags[Index(w, x, y) := true], w, h) == Marked(flags, w, h) + {(x, y)}
  {
    IndexInRange(w, h, x, y);
    var now := flags[Index(w, x, y) := true];
    forall i, j | InGrid(w, h, i, j)
      ensures IsMarked(now, w, h, i, j) <==> IsMarked(flags, w, h, i, j) || (i == x && j == y)
    {
      IndexInRange(w, h, i, j);
      IndexInjective(w, x, y, i, j);
    }
  }

  /** 4-neighbours inside a set of pixels. */
  ghost function Touching(on: set<Cell>): (Cell, Cell) -> bool {
    (p: Cell, q: Cell) => p in on && q in on
      && ((p.1 == q.1 && (p.0 == q.0 + 1 || q.0 == p.0 + 1)) || (p.0 == q.0 && (p.1 == q.1 + 1 || q.1 == p.1 + 1)))
  }

  lemma TouchingSymmetric(on: set<Cell>)
    ensures Symmetric(Touching(on))
  {
  }

  // ---- bounding boxes and touched cells -------------------------------------------

  /** The smallest box around a set of pixels. */
  ghost predicate Tight(b: Box, s: set<Cell>) {
    && (forall p :: p in s ==> b.x0 <= p.0 <= b.x1 && b.y0 <= p.1 <= b.y1)
    && (exists p :: p in s && p.0 == b.x0) && (exists p :: p in s && p.0 == b.x1)
    && (exists p :: p in s && p.1 == b.y0) && (exists p :: p in s && p.1 == b.y1)
  }

  function CellOf(p: Cell): Cell { (p.0 / 64, p.1 / 64) }

  ghost function CellsOf(s: set<Cell>): set<Cell> { set p | p in s :: CellOf(p) }

  function CellKey(c: Cell): seq<int> { [c.0, c.1] }

  /** Column by column, each from the top down. */
  predicate ByColumn(cells: seq<Cell>) {
    forall i, j :: 0 <= i < j < |cells| ==>
        cells[i].0 < cells[j].0 || (cells[i].0 == cells[j].0 && cells[i].1 <= cells[j].1)
  }

  /** A component describes a set of pixels: its cells in order, its size, its box. */
  ghost predicate Describes(c: Component, s: set<Cell>) {
    && c.npix == |s| && Tight(c.box, s)
    && (forall k :: k in c.cells <==> k in CellsOf(s))
    && ByColumn(c.cells) && |c.cells| == |CellsOf(s)|
  }

  lemma KeysByColumn(cells: seq<Cell>)
    requires SortedBy(CellKey, cells)
    ensures ByColumn(cells)
  {
    forall i, j | 0 <= i < j < |cells|
      ensures cells[i].0 < cells[j].0 || (cells[i].0 == cells[j].0 && cells[i].1 <= cells[j].1)
    {
      assert Below(CellKey, cells[i], cells[j]);
      PairOrder(cells[i], cells[j]);
    }
  }

  lemma PairOrder(p: Cell, q: Cell)
    ensures Below(CellKey, p, q) ==> p.0 < q.0 || (p.0 == q.0 && p.1 <= q.1)
  {
    var (a, b) := (CellKey(p), CellKey(q));
    assert a[0] == p.0 && b[0] == q.0 && a[1..] == [p.1] && b[1..] == [q.1];
    assert LexLe([p.1], [q.1]) ==> p.1 <= q.1 by { assert [p.1][0] == p.1 && [q.1][0] == q.1; }
  }

  method SortCells(s: set<Cell>) returns (r: seq<Cell>)
    ensures ByColumn(r) && |r| == |s| && forall k :: k in r <==> k in s
  {
    var rest := s;
    var list: seq<Cell> := [];
    while rest != {}
      invariant rest <= s && |list| + |rest| == |s|
      invariant forall k :: k in list <==> k in s - rest
      decreases |rest|
    {
      var c :| c in rest;
      rest := rest - {c};
      list := list + [c];
    }
    r := Sort(CellKey, list);
    SortSorted(CellKey, list);
    KeysByColumn(r);
    forall k
      ensures k in r <==> k in s
    {
      assert k in r <==> k in multiset(r);
      assert k in list <==> k in multiset(list);
    }
  }

  // ---- the search --------------------------------------------------------------

  /** The state of one search: pixels popped and pixels on the stack, all of them reached from the seed. */
  ghost predicate Searching(on: set<Cell>, before: set<Cell>, seed: Cell, popped: set<Cell>, stack: seq<Cell>,
          seen: set<Cell>) {
    && NoRepeats(stack) && (forall c :: c in stack ==> c !in popped)
    && seen == before + popped + Elements(stack)
    && (forall c :: c in popped + Elements(stack) ==> c in on && c !in before && Linked(Touching(on), seed, c))
    && seed in popped + Elements(stack)
  }

  /** Every neighbour of a popped pixel has been seen. */
  ghost predicate Explored(on: set<Cell>, popped: set<Cell>, seen: set<Cell>) {
    forall p, q :: p in popped && Touching(on)(p, q) ==> q in seen
  }

  /** Pushes a pixel that is eligible and new. */
  method Visit(eligible: array<bool>, seen: array<bool>, w: nat, h: nat, x: int, y: int, stack: seq<Cell>,
               ghost from: Cell, ghost before: set<Cell>, ghost seed: Cell,
                   ghost popped: set<Cell>) returns (r: seq<Cell>)
    requires eligible.Length == seen.Length == w * h && eligible != seen && InGrid(w, h, x, y)
    requires Searching(Marked(eligible[..], w, h), before, seed, popped, stack, Marked(seen[..], w, h))
        && from in popped
    requires (x, y) in Marked(eligible[..], w, h) ==> Touching(Marked(eligible[..], w, h))(from, (x, y))
    modifies seen
    ensures Searching(Marked(eligible[..], w, h), before, seed, popped, r, Marked(seen[..], w, h))
    ensures Marked(old(seen[..]), w, h) <= Marked(seen[..], w, h)
    ensures (x, y) in Marked(eligible[..], w, h) ==> (x, y) in Marked(seen[..], w, h)
  {
    MarkedCell(eligible[..], w, h, x, y);
    MarkedCell(seen[..], w, h, x, y);
    r := stack;
    if eligible[y * w + x] && !seen[y * w + x] {
      ghost var was := seen[..];
      MarkOne(was, w, h, x, y);
      seen[y * w + x] := true;
      assert seen[..] == was[Index(w, x, y) := true];
      r := stack + [(x, y)];
      LinkedStep(Touching(Marked(eligible[..], w, h)), seed, from, (x, y));
      Pushed(Marked(eligible[..], w, h), before, seed, popped, stack, Marked(was, w, h), (x, y));
    }
  }

  lemma Pushed(on: set<Cell>, before: set<Cell>, seed: Cell, popped: set<Cell>, stack: seq<Cell>, seen: set<Cell>,
          c: Cell)
    requires Searching(on, before, seed, popped, stack, seen) && c in on && c !in seen && Linked(Touching(on), seed, c)
    ensures Searching(on, before, seed, popped, stack + [c], seen + {c})
  {
    hide Linked, Touching;
    assert Elements(stack + [c]) == Elements(stack) + {c};
  }

  lemma Popped(on: set<Cell>, before: set<Cell>, seed: Cell, popped: set<Cell>, stack: seq<Cell>, seen: set<Cell>)
    requires Searching(on, before, seed, popped, stack, seen) && stack != []
    ensures var c := stack[|stack| - 1];
            c !in popped && Searching(on, before, seed, popped + {c}, stack[..|stack| - 1], seen)
  {
    hide Linked, Touching;
    var n := |stack| - 1;
    assert stack == stack[..n] + [stack[n]];
    assert Elements(stack) == Elements(stack[..n]) + {stack[n]};
  }

  function Widen(b: Box, x: int, y: int): Box {
    var (x0, x1) := if x < b.x0 then (x, b.x1) else if x > b.x1 then (b.x0, x) else (b.x0, b.x1);
    var (y0, y1) := if y < b.y0 then (y, b.y1) else if y > b.y1 then (b.y0, y) else (b.y0, b.y1);
    Box(x0, y0, x1, y1)
  }

  lemma WidenTight(b: Box, s: set<Cell>, p: Cell)
    requires Tight(b, s)
    ensures Tight(Widen(b, p.0, p.1), s + {p})
  {
    var n := Widen(b, p.0, p.1);
    var t := s + {p};
    forall q | q in t
      ensures n.x0 <= q.0 <= n.x1 && n.y0 <= q.1 <= n.y1
    {
      assert q == p || q in s;
    }
    assert p in t;
    var l :| l in s && l.0 == b.x0;
    assert l in t;
    var r :| r in s && r.0 == b.x1;
    assert r in t;
    var u :| u in s && u.1 == b.y0;
    assert u in t;
    var d :| d in s && d.1 == b.y1;
    assert d in t;
    assert exists q :: q in t && q.0 == n.x0 by { assert n.x0 == p.0 || n.x0 == l.0; }
    assert exists q :: q in t && q.0 == n.x1 by { assert n.x1 == p.0 || n.x1 == r.0; }
    assert exists q :: q in t && q.1 == n.y0 by { assert n.y0 == p.1 || n.y0 == u.1; }
    assert exists q :: q in t && q.1 == n.y1 by { assert n.y1 == p.1 || n.y1 == d.1; }
  }

  /** One search: everything reachable from a new eligible pixel, and its description. */
  method Flood(eligible: array<bool>, seen: array<bool>, w: nat, h: nat, sx: int, sy: int) returns (out: Component,
          ghost found: set<Cell>)
    requires eligible.Length == seen.Length == w * h && eligible != seen && InGrid(w, h, sx, sy)
    requires (sx, sy) in Marked(eligible[..], w, h) && (sx, sy) !in Marked(seen[..], w, h)
    requires Closed(Touching(Marked(eligible[..], w, h)), Marked(seen[..], w, h))
    modifies seen
    ensures Marked(seen[..], w, h) == Marked(old(seen[..]), w, h) + found
    ensures found !! Marked(old(seen[..]), w, h) && found <= Marked(eligible[..], w, h) && (sx, sy) in found
    ensures IsClass(Touching(Marked(eligible[..], w, h)), found)
    ensures Closed(Touching(Marked(eligible[..], w, h)), Marked(seen[..], w, h))
    ensures Describes(out, found)
  {
    hide Marked, Touching, Linked, Tight, Closed, IsClass, Searching, Explored;
    ghost var on, before, seed: Cell := Marked(eligible[..], w, h), Marked(seen[..], w, h), (sx, sy);
    ghost var was := seen[..];
    var cells: set<Cell> := {};
    var npix := 0;
    var box := Box(sx, sy, sx, sy);
    var stack := [(sx, sy)];
    MarkOne(was, w, h, sx, sy);
    seen[sy * w + sx] := true;
    assert seen[..] == was[Index(w, sx, sy) := true];
    ghost var popped: set<Cell> := {};
    SearchStart(on, before, seed);
    while stack != []
      invariant Searching(on, before, seed, popped, stack, Marked(seen[..], w, h))
          && Explored(on, popped, Marked(seen[..], w, h))
      invariant popped <= on
      invariant cells == CellsOf(popped) && npix == |popped| && Tight(box, popped + {seed})
      decreases on - popped
    {
      Popped(on, before, seed, popped, stack, Marked(seen[..], w, h));
      SearchingOn(on, before, seed, popped, stack, Marked(seen[..], w, h), w, h, eligible[..]);
      var (x, y) := stack[|stack| - 1];
      ghost var done := popped;
      stack := stack[..|stack| - 1];
      popped := popped + {(x, y)};
      cells := cells + {(x / CELL, y / CELL)};
      npix := npix + 1;
      WidenTight(box, done + {seed}, (x, y));
      assert done + {seed} + {(x, y)} == popped + {seed};
      box := Widen(box, x, y);
      ghost var s0 := Marked(seen[..], w, h);
      stack := VisitAll(eligible, seen, w, h, x, y, stack, before, seed, popped);
      ExploredMore(on, done, s0, Marked(seen[..], w, h), (x, y));
    }
    SearchDone(on, before, seed, popped, Marked(seen[..], w, h));
    assert popped + {seed} == popped;
    found := popped;
    var list := SortCells(cells);
    out := Component(list, npix, box);
  }

  /** The four neighbours, left, right, up, down, where the image has them. */
  method VisitAll(eligible: array<bool>, seen: array<bool>, w: nat, h: nat, x: int, y: int, stack: seq<Cell>,
                  ghost before: set<Cell>, ghost seed: Cell, ghost popped: set<Cell>) returns (r: seq<Cell>)
    requires eligible.Length == seen.Length == w * h && eligible != seen && InGrid(w, h, x, y)
    requires Searching(Marked(eligible[..], w, h), before, seed, popped, stack, Marked(seen[..], w, h))
        && (x, y) in popped
    modifies seen
    ensures Searching(Marked(eligible[..], w, h), before, seed, popped, r, Marked(seen[..], w, h))
    ensures Marked(old(seen[..]), w, h) <= Marked(seen[..], w, h)
    ensures forall q :: Touching(Marked(eligible[..], w, h))((x, y), q) ==> q in Marked(seen[..], w, h)
  {
    hide Searching, Linked, Marked;
    ghost var on := Marked(eligible[..], w, h);
    MarkedInGrid(eligible[..], w, h);
    PoppedOn(on, before, seed, popped, stack, Marked(seen[..], w, h), (x, y));
    r := stack;
    if x > 0 { r := Visit(eligible, seen, w, h, x - 1, y, r, (x, y), before, seed, popped); }
    if x < w - 1 { r := Visit(eligible, seen, w, h, x + 1, y, r, (x, y), before, seed, popped); }
    if y > 0 { r := Visit(eligible, seen, w, h, x, y - 1, r, (x, y), before, seed, popped); }
    if y < h - 1 { r := Visit(eligible, seen, w, h, x, y + 1, r, (x, y), before, seed, popped); }
    forall q | Touching(on)((x, y), q)
      ensures q in Marked(seen[..], w, h)
    {
      assert q in on;
    }
  }

  lemma MarkedInGrid(flags: seq<bool>, w: nat, h: nat)
    requires |flags| == w * h
    ensures forall c :: c in Marked(flags, w, h) ==> InGrid(w, h, c.0, c.1)
  {
  }

  lemma PoppedOn(on: set<Cell>, before: set<Cell>, seed: Cell, popped: set<Cell>, stack: seq<Cell>, seen: set<Cell>,
          c: Cell)
    requires Searching(on, before, seed, popped, stack, seen) && c in popped
    ensures c in on
  {
  }

  lemma SearchingOn(on: set<Cell>, before: set<Cell>, seed: Cell, popped: set<Cell>, stack: seq<Cell>,
          seen: set<Cell>, w: nat, h: nat, flags: seq<bool>)
    requires Searching(on, before, seed, popped, stack, seen) && stack != [] && |flags| == w * h
        && on == Marked(flags, w, h)
    ensures stack[|stack| - 1] in on && InGrid(w, h, stack[|stack| - 1].0, stack[|stack| - 1].1)
  {
    assert stack[|stack| - 1] in Elements(stack);
    MarkedInGrid(flags, w, h);
  }

  lemma SearchStart(on: set<Cell>, before: set<Cell>, seed: Cell)
    requires seed in on && seed !in before
    ensures Searching(on, before, seed, {}, [seed], before + {seed}) && Explored(on, {}, before + {seed})
    ensures Tight(Box(seed.0, seed.1, seed.0, seed.1), {} + {seed})
  {
    hide Linked, Touching;
    assert Elements([seed]) == {seed};
    LinkedSelf(Touching(on), seed);
    assert seed in {} + {seed};
  }

  lemma ExploredMore(on: set<Cell>, popped: set<Cell>, seen: set<Cell>, seen': set<Cell>, c: Cell)
    requires Explored(on, popped, seen) && seen <= seen' && forall q :: Touching(on)(c, q) ==> q in seen'
    ensures Explored(on, popped + {c}, seen')
  {
    hide Touching;
  }

  /** With an empty stack the popped pixels are the seed's class, and what has been seen is closed. */
  lemma SearchDone(on: set<Cell>, before: set<Cell>, seed: Cell, popped: set<Cell>, seen: set<Cell>)
    requires Searching(on, before, seed, popped, [], seen) && Explored(on, popped, seen) && Closed(Touching(on), before)
    ensures seen == before + popped && seed in popped && popped !! before && popped <= on
    ensures IsClass(Touching(on), popped) && Closed(Touching(on), seen)
  {
    hide Linked;
    assert Elements<Cell>([]) == {};
    TouchingSymmetric(on);
    forall p, q | p in popped && Touching(on)(p, q)
      ensures q in popped
    {
      assert Touching(on)(q, p);
    }
    assert Closed(Touching(on), popped);
    SearchIsClass(Touching(on), seed, popped);
  }

  // ---- which pixels take part ------------------------------------------------------

  /** Set pixels of used decor cells; the strips right and below of the last whole cell never count. */
  predicate Used(solid: seq<bool>, w: nat, h: nat, grid: seq<seq<bool>>, decorOk: (int, int) -> bool, x: int, y: int)
    requires |solid| == w * h && InGrid(w, h, x, y) && Covers(grid, w, h)
  {
    x / 64 < w / 64 && y / 64 < h / 64 && grid[y / 64][x / 64] && decorOk(y / 64, x / 64)
        && IsMarked(solid, w, h, x, y)
  }

  /** A row of flags for every row of cells, a flag for every column of cells. */
  predicate Covers(grid: seq<seq<bool>>, w: nat, h: nat) {
    |grid| >= h / 64 && forall j :: 0 <= j < h / 64 ==> |grid[j]| >= w / 64
  }

  ghost function UsedPixels(solid: seq<bool>, w: nat, h: nat, grid: seq<seq<bool>>, decorOk: (int,
          int) -> bool): set<Cell>
    requires |solid| == w * h && Covers(grid, w, h)
  {
    set x, y | 0 <= x < w && 0 <= y < h && Used(solid, w, h, grid, decorOk, x, y) :: (x, y)
  }

  /** Cells before (cx, cy) in reading order are copied where they are used; nothing else is set. */
  ghost predicate CopiedUpTo(now: seq<bool>, solid: seq<bool>, w: nat, h: nat, grid: seq<seq<bool>>, decorOk: (int,
          int) -> bool, cy: int, cx: int) {
    && |now| == |solid| == w * h && Covers(grid, w, h)
    && forall x, y :: InGrid(w, h, x, y) ==>
         IsMarked(now, w, h, x, y) ==
             (Used(solid, w, h, grid, decorOk, x, y) && (y / CELL < cy || (y / CELL == cy && x / CELL < cx)))
  }

  /** Within one cell: rows from y0 on, up to but without (x, y). */
  ghost predicate CellUpTo(now: seq<bool>, was: seq<bool>, solid: seq<bool>, w: nat, h: nat, cx: int, cy: int,
          y: int, x: int) {
    && |now| == |was| == |solid| == w * h
    && forall i, j :: InGrid(w, h, i, j) ==>
         IsMarked(now, w, h, i, j) ==
           if i / CELL == cx && cy * CELL <= j && (j < y || (j == y && i < x)) then IsMarked(solid, w, h, i, j)
           else IsMarked(was, w, h, i, j)
  }

  lemma CellStart(flags: seq<bool>, solid: seq<bool>, w: nat, h: nat, cx: int, cy: int)
    requires |flags| == |solid| == w * h
    ensures CellUpTo(flags, flags, solid, w, h, cx, cy, cy * CELL, cx * CELL)
  {
    hide IsMarked;
  }

  lemma CellStep(now': seq<bool>, now: seq<bool>, was: seq<bool>, solid: seq<bool>, w: nat, h: nat, cx: int,
          cy: int, y: int, x: int)
    requires CellUpTo(now, was, solid, w, h, cx, cy, y, x) && InGrid(w, h, x, y) && x / CELL == cx && cy * CELL <= y
    requires 0 <= Index(w, x, y) < |now| && now' == now[Index(w, x, y) := solid[Index(w, x, y)]]
    ensures CellUpTo(now', was, solid, w, h, cx, cy, y, x + 1)
  {
    forall i, j | InGrid(w, h, i, j)
      ensures IsMarked(now', w, h, i, j) ==
              if i == x && j == y then IsMarked(solid, w, h, i, j) else IsMarked(now, w, h, i, j)
    {
      IndexInRange(w, h, i, j);
      IndexInjective(w, x, y, i, j);
    }
    hide IsMarked;
  }

  lemma CellRow(now: seq<bool>, was: seq<bool>, solid: seq<bool>, w: nat, h: nat, cx: int, cy: int, y: int)
    requires CellUpTo(now, was, solid, w, h, cx, cy, y, (cx + 1) * CELL)
    ensures CellUpTo(now, was, solid, w, h, cx, cy, y + 1, cx * CELL)
  {
    hide IsMarked;
  }

  method CopyCell(eligible: array<bool>, solid: seq<bool>, w: nat, h: nat, cx: int, cy: int)
    requires eligible.Length == |solid| == w * h && 0 <= cx < w / CELL && 0 <= cy < h / CELL
    modifies eligible
    ensures CellUpTo(eligible[..], old(eligible[..]), solid, w, h, cx, cy, (cy + 1) * CELL, cx * CELL)
  {
    hide CellUpTo;
    ghost var was := eligible[..];
    CellStart(was, solid, w, h, cx, cy);
    for y := cy * CELL to (cy + 1) * CELL
      invariant CellUpTo(eligible[..], was, solid, w, h, cx, cy, y, cx * CELL)
    {
      var base := y * w + cx * CELL;
      for x := 0 to CELL
        invariant CellUpTo(eligible[..], was, solid, w, h, cx, cy, y, cx * CELL + x)
      {
        IndexInRange(w, h, cx * CELL + x, y);
        ghost var now := eligible[..];
        eligible[base + x] := solid[base + x];
        assert eligible[..] == now[Index(w, cx * CELL + x, y) := solid[Index(w, cx * CELL + x, y)]];
        CellStep(eligible[..], now, was, solid, w, h, cx, cy, y, cx * CELL + x);
      }
      CellRow(eligible[..], was, solid, w, h, cx, cy, y);
    }
  }

  lemma CopyStart(flags: seq<bool>, solid: seq<bool>, w: nat, h: nat, grid: seq<seq<bool>>, decorOk: (int, int) -> bool)
    requires |flags| == |solid| == w * h && Covers(grid, w, h) && forall i :: 0 <= i < |flags| ==> !flags[i]
    ensures CopiedUpTo(flags, solid, w, h, grid, decorOk, 0, 0)
  {
    forall x, y | InGrid(w, h, x, y)
      ensures !IsMarked(flags, w, h, x, y)
    {
      IndexInRange(w, h, x, y);
    }
  }

  lemma CopyStep(now: seq<bool>, was: seq<bool>, solid: seq<bool>, w: nat, h: nat, grid: seq<seq<bool>>,
          decorOk: (int, int) -> bool, cy: int, cx: int)
    requires CopiedUpTo(was, solid, w, h, grid, decorOk, cy, cx) && 0 <= cx < w / CELL && 0 <= cy < h / CELL
    requires if grid[cy][cx] && decorOk(cy, cx)
             then CellUpTo(now, was, solid, w, h, cx, cy, (cy + 1) * CELL, cx * CELL)
             else now == was
    ensures CopiedUpTo(now, solid, w, h, grid, decorOk, cy, cx + 1)
  {
    hide IsMarked;
  }

  lemma CopyRow(now: seq<bool>, solid: seq<bool>, w: nat, h: nat, grid: seq<seq<bool>>, decorOk: (int, int) -> bool,
          cy: int)
    requires CopiedUpTo(now, solid, w, h, grid, decorOk, cy, w / CELL)
    ensures CopiedUpTo(now, solid, w, h, grid, decorOk, cy + 1, 0)
  {
    hide IsMarked;
  }

  lemma CopyDone(now: seq<bool>, solid: seq<bool>, w: nat, h: nat, grid: seq<seq<bool>>, decorOk: (int, int) -> bool)
    requires CopiedUpTo(now, solid, w, h, grid, decorOk, h / CELL, 0)
    ensures Marked(now, w, h) == UsedPixels(solid, w, h, grid, decorOk)
  {
    hide IsMarked;
  }

  method EligiblePixels(solid: seq<bool>, w: nat, h: nat, grid: seq<seq<bool>>, decorOk: (int, int) -> bool)
          returns (eligible: array<bool>)
    requires |solid| == w * h && Covers(grid, w, h)
    ensures fresh(eligible) && eligible.Length == w * h
        && Marked(eligible[..], w, h) == UsedPixels(solid, w, h, grid, decorOk)
  {
    hide CopiedUpTo, CellUpTo, Marked, UsedPixels;
    eligible := new bool[w * h](_ => false);
    CopyStart(eligible[..], solid, w, h, grid, decorOk);
    for cy := 0 to h / CELL
      invariant CopiedUpTo(eligible[..], solid, w, h, grid, decorOk, cy, 0)
    {
      for cx := 0 to w / CELL
        invariant CopiedUpTo(eligible[..], solid, w, h, grid, decorOk, cy, cx)
      {
        ghost var was := eligible[..];
        if grid[cy][cx] && decorOk(cy, cx) {
          CopyCell(eligible, solid, w, h, cx, cy);
        }
        CopyStep(eligible[..], was, solid, w, h, grid, decorOk, cy, cx);
      }
      CopyRow(eligible[..], solid, w, h, grid, decorOk, cy);
    }
    CopyDone(eligible[..], solid, w, h, grid, decorOk);
  }

  // ---- all components ---------------------------------------------------------------

  /** The classes found so far: disjoint, complete among what has been seen, described one by one. */
  ghost predicate Found(on: set<Cell>, seen: set<Cell>, classes: seq<set<Cell>>, out: seq<Component>) {
    && |out| == |classes| && Partition(Touching(on), seen, classes) && seen <= on && Closed(Touching(on), seen)
    && forall k :: 0 <= k < |out| ==> Describes(out[k], classes[k])
  }

  lemma FoundMore(on: set<Cell>, seen: set<Cell>, classes: seq<set<Cell>>, out: seq<Component>, c: Component,
          s: set<Cell>)
    requires Found(on, seen, classes, out) && s !! seen && s <= on && IsClass(Touching(on), s) && Describes(c, s)
    requires Closed(Touching(on), seen + s)
    ensures Found(on, seen + s, classes + [s], out + [c])
  {
    hide Touching, IsClass, Describes, Closed, InSome;
    forall v
      ensures v in seen + s <==> InSome(v, classes + [s])
    {
      InSomePush(v, classes, s);
    }
    forall k | 0 <= k < |classes|
      ensures classes[k] !! s
    {
      forall v | v in classes[k]
        ensures v in seen
      {
        InSomeAt(v, classes, k);
      }
    }
  }

  lemma FoundNone(on: set<Cell>)
    ensures Found(on, {}, [], [])
  {
    hide Touching;
  }

  /** Pixels before (x, y) in scan order. */
  ghost predicate Scanned(on: set<Cell>, seen: set<Cell>, y: int, x: int) {
    forall c: Cell :: c in on && (c.1 < y || (c.1 == y && c.0 < x)) ==> c in seen
  }

  /** c comes before d in reading order. */
  predicate Before(c: Cell, d: Cell) { c.1 < d.1 || (c.1 == d.1 && c.0 < d.0) }

  ghost predicate IsFirst(c: Cell, s: set<Cell>) { c in s && forall d :: d in s ==> !Before(d, c) }

  /** The classes in reading order of their first pixels, all of which lie before (x, y). */
  ghost predicate InOrder(classes: seq<set<Cell>>, firsts: seq<Cell>, y: int, x: int) {
    && |firsts| == |classes|
    && (forall k :: 0 <= k < |firsts| ==> IsFirst(firsts[k], classes[k]) && Before(firsts[k], (x, y)))
    && (forall j, k :: 0 <= j < k < |firsts| ==> Before(firsts[j], firsts[k]))
  }

  lemma OrderMore(classes: seq<set<Cell>>, firsts: seq<Cell>, s: set<Cell>, y: int, x: int)
    requires InOrder(classes, firsts, y, x) && IsFirst((x, y), s)
    ensures InOrder(classes + [s], firsts + [(x, y)], y, x + 1)
  {
    hide IsFirst;
  }

  lemma OrderOn(classes: seq<set<Cell>>, firsts: seq<Cell>, y: int, x: int, y': int, x': int)
    requires InOrder(classes, firsts, y, x) && (y < y' || (y == y' && x <= x'))
    ensures InOrder(classes, firsts, y', x')
  {
    hide IsFirst;
  }

  /** A search finds no pixel before its seed: those were seen already. */
  lemma SeedIsFirst(on: set<Cell>, seen: set<Cell>, s: set<Cell>, y: int, x: int)
    requires Scanned(on, seen, y, x) && s <= on && s !! seen && (x, y) in s
    ensures IsFirst((x, y), s)
  {
  }

  lemma NoneInOrder()
    ensures InOrder([], [], 0, 0)
  {
  }

  /** One component for each of the classes that make up `on`. */
  ghost predicate DescribesEach(out: seq<Component>, on: set<Cell>, classes: seq<set<Cell>>) {
    && |out| == |classes| && Partition(Touching(on), on, classes)
    && forall k :: 0 <= k < |out| ==> Describes(out[k], classes[k])
  }

  /** And they come in reading order of their first pixels. */
  ghost predicate DescribesAll(out: seq<Component>, on: set<Cell>, classes: seq<set<Cell>>, firsts: seq<Cell>) {
    && DescribesEach(out, on, classes) && |firsts| == |classes|
    && (forall k :: 0 <= k < |firsts| ==> IsFirst(firsts[k], classes[k]))
    && (forall j, k :: 0 <= j < k < |firsts| ==> Before(firsts[j], firsts[k]))
  }

  lemma AllInOrder(out: seq<Component>, on: set<Cell>, classes: seq<set<Cell>>, firsts: seq<Cell>, y: int, x: int)
    requires DescribesEach(out, on, classes) && InOrder(classes, firsts, y, x)
    ensures DescribesAll(out, on, classes, firsts)
  {
    hide DescribesEach, IsFirst;
  }

  /** Every picture, once: the classes of the eligible pixels under 4-neighbourhood, each with its
      exact pixel count, its tight box and the cells it touches. The counts add up. */
  method FindComponents(solid: seq<bool>, w: nat, h: nat, grid: seq<seq<bool>>, decorOk: (int, int) -> bool)
      returns (out: seq<Component>)
    requires |solid| == w * h && Covers(grid, w, h)
    ensures exists classes, firsts :: DescribesAll(out, UsedPixels(solid, w, h, grid, decorOk), classes, firsts)
    ensures TotalPixels(out) == |UsedPixels(solid, w, h, grid, decorOk)|
  {
    hide Marked, UsedPixels, Touching, Found, Describes, IsClass, Closed, Partition, DescribesEach, DescribesAll,
      TotalPixels, InOrder, IsFirst;
    var eligible := EligiblePixels(solid, w, h, grid, decorOk);
    var seen := new bool[w * h](_ => false);
    ghost var on := Marked(eligible[..], w, h);
    NothingMarked(seen[..], w, h);
    ghost var classes: seq<set<Cell>>, firsts: seq<Cell> := [], [];
    out := [];
    FoundNone(on);
    assert InOrder(classes, firsts, 0, 0) by { NoneInOrder(); }
    MarkedInGrid(eligible[..], w, h);
    for sy := 0 to h
      invariant Marked(eligible[..], w, h) == on
      invariant Found(on, Marked(seen[..], w, h), classes, out) && Scanned(on, Marked(seen[..], w, h), sy, 0)
      invariant InOrder(classes, firsts, sy, 0)
    {
      for sx := 0 to w
        invariant Marked(eligible[..], w, h) == on
        invariant Found(on, Marked(seen[..], w, h), classes, out) && Scanned(on, Marked(seen[..], w, h), sy, sx)
        invariant InOrder(classes, firsts, sy, sx)
      {
        MarkedCell(eligible[..], w, h, sx, sy);
        MarkedCell(seen[..], w, h, sx, sy);
        var si := sy * w + sx;
        OrderOn(classes, firsts, sy, sx, sy, sx + 1);
        if seen[si] || !eligible[si] { continue; }
        FoundClosed(on, Marked(seen[..], w, h), classes, out);
        ghost var before := Marked(seen[..], w, h);
        ghost var s: set<Cell>;
        var c;
        c, s := Flood(eligible, seen, w, h, sx, sy);
        FoundMore(on, before, classes, out, c, s);
        SeedIsFirst(on, before, s, sy, sx);
        OrderMore(classes, firsts, s, sy, sx);
        out, classes, firsts := out + [c], classes + [s], firsts + [(sx, sy)];
      }
      OrderOn(classes, firsts, sy, w, sy + 1, 0);
      MarkedInGrid(eligible[..], w, h);
    }
    MarkedInGrid(eligible[..], w, h);
    FoundAll(on, Marked(seen[..], w, h), classes, out);
    EachPixelOnce(on, classes, out);
    assert DescribesAll(out, on, classes, firsts) by { AllInOrder(out, on, classes, firsts, h, 0); }
  }

  lemma NothingMarked(flags: seq<bool>, w: nat, h: nat)
    requires |flags| == w * h && forall i :: 0 <= i < |flags| ==> !flags[i]
    ensures Marked(flags, w, h) == {}
  {
    forall x, y | InGrid(w, h, x, y)
      ensures !IsMarked(flags, w, h, x, y)
    {
      IndexInRange(w, h, x, y);
    }
  }

  lemma FoundClosed(on: set<Cell>, seen: set<Cell>, classes: seq<set<Cell>>, out: seq<Component>)
    requires Found(on, seen, classes, out)
    ensures Closed(Touching(on), seen)
  {
    hide Touching, Partition, Closed, Describes;
  }

  lemma FoundAll(on: set<Cell>, seen: set<Cell>, classes: seq<set<Cell>>, out: seq<Component>)
    requires Found(on, seen, classes, out) && on <= seen
    ensures DescribesEach(out, on, classes)
  {
    hide Touching, Partition, Closed, Describes;
    assert seen == on;
  }

  function TotalPixels(out: seq<Component>): int {
    if out == [] then 0 else TotalPixels(out[..|out| - 1]) + out[|out| - 1].npix
  }

  ghost function UnionOf<V>(classes: seq<set<V>>): set<V> {
    if classes == [] then {} else UnionOf(classes[..|classes| - 1]) + classes[|classes| - 1]
  }

  lemma {:induction false} UnionIsSome<V>(classes: seq<set<V>>, v: V)
    ensures v in UnionOf(classes) <==> InSome(v, classes)
  {
    if classes != [] {
      var n := |classes| - 1;
      UnionIsSome(classes[..n], v);
      InSomePush(v, classes[..n], classes[n]);
      assert classes == classes[..n] + [classes[n]];
    }
  }

  lemma {:induction false} SizesAdd(out: seq<Component>, classes: seq<set<Cell>>)
    requires |out| == |classes| && forall k :: 0 <= k < |out| ==> out[k].npix == |classes[k]|
    requires forall j, k :: 0 <= j < k < |classes| ==> classes[j] !! classes[k]
    ensures TotalPixels(out) == |UnionOf(classes)|
  {
    if classes != [] {
      var n := |classes| - 1;
      SizesAdd(out[..n], classes[..n]);
      forall v | v in UnionOf(classes[..n])
        ensures v !in classes[n]
      {
        UnionIsSome(classes[..n], v);
        var k :| 0 <= k < n && v in classes[..n][k];
        assert classes[k] !! classes[n];
      }
    }
  }

  /** Every eligible pixel is counted exactly once. */
  lemma EachPixelOnce(on: set<Cell>, classes: seq<set<Cell>>, out: seq<Component>)
    requires DescribesEach(out, on, classes)
    ensures TotalPixels(out) == |on|
  {
    hide Touching, Tight;
    assert forall k :: 0 <= k < |out| ==> Describes(out[k], classes[k]);
    hide Describes;
    SizesAdd(out, classes);
    forall v
      ensures v in on <==> v in UnionOf(classes)
    {
      UnionIsSome(classes, v);
    }
    assert UnionOf(classes) == on;
  }
}
