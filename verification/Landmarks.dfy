/** `regions`: trigger cells joined over short vertical gaps, one box per region. */
module Landmarks {
  import opened Reach
  import opened SortedSets
  import opened Cells
  import opened Integers

  /** Indices whose value is one of the wanted types. */
  ghost function Wanted(values: seq<int>, types: set<int>): set<int> {
    set i | 0 <= i < |values| && values[i] in types
  }

  /** Cells of the grid side by side in a row, or 1 to 4 apart in a column. */
  ghost function Near(on: set<int>, w: nat, h: nat): (int, int) -> bool
    requires w > 0
  {
    (i: int, j: int) => i in on && j in on && 0 <= i / w < h && 0 <= j / w < h
      && ((i / w == j / w && (i % w - j % w == 1 || j % w - i % w == 1))
          || (i % w == j % w && i != j && -4 <= i / w - j / w <= 4))
  }

  lemma NearSymmetric(on: set<int>, w: nat, h: nat)
    requires w > 0
    ensures Symmetric(Near(on, w, h))
  {
  }

  const OFFSETS: seq<(int, int)> := [(1, 0), (-1, 0), (0, 1), (0, -1), (0, 2), (0, -2), (0, 3), (0, -3), (0, 4),
      (0, -4)]

  /** The smallest box around the cells with these indices. */
  ghost predicate Tight(b: Box, s: set<int>, w: nat)
    requires w > 0
  {
    && (forall i :: i in s ==> b.x0 <= i % w <= b.x1 && b.y0 <= i / w <= b.y1)
    && (exists i :: i in s && i % w == b.x0) && (exists i :: i in s && i / w == b.y0)
    && (exists i :: i in s && i % w == b.x1) && (exists i :: i in s && i / w == b.y1)
  }

  /** The state of one region's search. */
  ghost predicate Searching(on: set<int>, w: nat, h: nat, before: set<int>, seed: int, done: set<int>,
          todo: seq<int>, remaining: set<int>)
    requires w > 0
  {
    && NoRepeats(todo) && Elements(todo) !! done && before !! (done + Elements(todo))
    && remaining == on - before - done - Elements(todo)
    && (forall c :: c in done + Elements(todo) ==>
        c in on && Linked(Near(on, w, h), seed, c) && (c == seed || c / w < h))
    && seed in done + Elements(todo)
    && (forall c :: c in remaining ==> seed < c)
  }

  /** No edge leads from a finished cell to one that is still to be found. */
  ghost predicate Explored(on: set<int>, w: nat, h: nat, done: set<int>, remaining: set<int>)
    requires w > 0
  {
    forall p, q :: p in done && Near(on, w, h)(p, q) ==> q !in remaining
  }

  /** The offset that leads from one neighbour to the other. */
  lemma OffsetOf(on: set<int>, w: nat, h: nat, i: int, j: int) returns (n: nat)
    requires w > 0 && Near(on, w, h)(i, j)
    ensures n < |OFFSETS| && 0 <= i % w + OFFSETS[n].0 < w && 0 <= i / w + OFFSETS[n].1 < h
    ensures j == (i / w + OFFSETS[n].1) * w + (i % w + OFFSETS[n].0)
  {
    var (dx, dy) := (j % w - i % w, j / w - i / w);
    assert j == w * (j / w) + j % w;
    assert (i / w + dy) * w + (i % w + dx) == j;
    n := if dx == 1 then 0 else if dx == -1 then 1 else if dy == 1 then 2 else if dy == -1 then 3
         else if dy == 2 then 4 else if dy == -2 then 5 else if dy == 3 then 6 else if dy == -3 then 7
         else if dy == 4 then 8 else 9;
  }

  /** A cell the loop reaches from i lies on an edge from i. */
  lemma EdgeTo(on: set<int>, w: nat, h: nat, i: int, n: nat, j: int)
    requires w > 0 && i in on && 0 <= i && j in on && n < |OFFSETS| && i / w < h
    requires 0 <= i % w + OFFSETS[n].0 < w && 0 <= i / w + OFFSETS[n].1 < h
    requires j == (i / w + OFFSETS[n].1) * w + (i % w + OFFSETS[n].0)
    ensures Near(on, w, h)(i, j)
  {
    var xx, yy := i % w + OFFSETS[n].0, i / w + OFFSETS[n].1;
    IndexSplit(w, xx, yy);
    assert j == Index(w, xx, yy);
  }

  /** A seed outside the grid has no unfound neighbour: those inside come earlier. */
  lemma OutsideSeed(w: nat, h: nat, seed: int, xx: int, yy: int)
    requires w > 0 && seed / w >= h && 0 <= xx < w && 0 <= yy < h
    ensures yy * w + xx < seed
  {
    IndexInRange(w, h, xx, yy);
    var q := seed / w;
    assert seed == w * q + seed % w;
    assert w * q == w * h + w * (q - h);
    assert w * (q - h) >= 0;
    assert yy * w + xx == Index(w, xx, yy);
  }

  lemma SearchPush(on: set<int>, w: nat, h: nat, before: set<int>, seed: int, done: set<int>, todo: seq<int>,
          remaining: set<int>, i: int, j: int)
    requires w > 0 && Searching(on, w, h, before, seed, done, todo, remaining) && j in remaining
    requires i in done && Near(on, w, h)(i, j)
    ensures Searching(on, w, h, before, seed, done, todo + [j], remaining - {j})
  {
    LinkedStep(Near(on, w, h), seed, i, j);
    assert j / w < h;
    hide Linked, Near;
    assert Elements(todo + [j]) == Elements(todo) + {j};
  }

  lemma SearchPop(on: set<int>, w: nat, h: nat, before: set<int>, seed: int, done: set<int>, todo: seq<int>,
          remaining: set<int>)
    requires w > 0 && Searching(on, w, h, before, seed, done, todo, remaining) && todo != []
    ensures var i := todo[|todo| - 1];
            i !in done && i in on && Searching(on, w, h, before, seed, done + {i}, todo[..|todo| - 1], remaining)
  {
    hide Linked, Near;
    var n := |todo| - 1;
    assert todo == todo[..n] + [todo[n]];
    assert Elements(todo) == Elements(todo[..n]) + {todo[n]};
  }

  lemma SearchBegin(on: set<int>, w: nat, h: nat, before: set<int>, seed: int, remaining: set<int>)
    requires w > 0 && remaining == on - before && IsLeast(seed, remaining)
    ensures Searching(on, w, h, before, seed, {}, [seed], remaining - {seed})
        && Explored(on, w, h, {}, remaining - {seed})
  {
    LinkedSelf(Near(on, w, h), seed);
    hide Linked, Near;
    assert Elements([seed]) == {seed};
  }

  /** With an empty list the finished cells are the seed's class, and what was found stays closed. */
  lemma SearchEnd(on: set<int>, w: nat, h: nat, before: set<int>, seed: int, done: set<int>, remaining: set<int>)
    requires w > 0 && Searching(on, w, h, before, seed, done, [], remaining) && Explored(on, w, h, done, remaining)
    requires before <= on && Closed(Near(on, w, h), before)
    ensures IsClass(Near(on, w, h), done) && Closed(Near(on, w, h), before + done) && seed in done
    ensures done !! before && done <= on && remaining == on - (before + done)
  {
    hide Linked;
    assert Elements<int>([]) == {};
    NearSymmetric(on, w, h);
    forall p, q | p in done && Near(on, w, h)(p, q)
      ensures q in done
    {
      assert Near(on, w, h)(q, p);
    }
    assert Closed(Near(on, w, h), done);
    forall b | b in done
      ensures b in on && Linked(Near(on, w, h), seed, b)
    {
      assert b in done + Elements([]);
    }
    SearchIsClass(Near(on, w, h), seed, done);
  }

  /** The ten offsets from i: neighbours that are still to be found are queued. */
  method QueueNeighbours(w: nat, h: nat, i: int, todo: seq<int>, remaining: set<int>,
                         ghost on: set<int>, ghost before: set<int>, ghost seed: int, ghost done: set<int>)
      returns (todo': seq<int>, remaining': set<int>)
    requires w > 0 && Searching(on, w, h, before, seed, done, todo, remaining)
        && Explored(on, w, h, done - {i}, remaining)
    requires i in done && forall c :: c in on ==> 0 <= c
    ensures Searching(on, w, h, before, seed, done, todo', remaining') && remaining' <= remaining
    ensures Explored(on, w, h, done, remaining')
  {
    hide Searching, Linked, Near, Explored;
    todo', remaining' := todo, remaining;
    var x, y := i % w, i / w;
    SearchFacts(on, w, h, before, seed, done, todo, remaining, i);
    for n := 0 to |OFFSETS|
      invariant Searching(on, w, h, before, seed, done, todo', remaining') && remaining' <= remaining
      invariant forall m :: 0 <= m < n ==> Cleared(w, h, x, y, m, remaining')
    {
      ghost var before' := remaining';
      var (dx, dy) := OFFSETS[n];
      var xx, yy := x + dx, y + dy;
      var j := yy * w + xx;
      if 0 <= xx < w && 0 <= yy < h && j in remaining' {
        if y >= h { OutsideSeed(w, h, seed, xx, yy); }
        EdgeTo(on, w, h, i, n, j);
        SearchPush(on, w, h, before, seed, done, todo', remaining', i, j);
        remaining' := remaining' - {j};
        todo' := todo' + [j];
      }
      forall m | 0 <= m < n + 1
        ensures Cleared(w, h, x, y, m, remaining')
      {
        if m < n { assert Cleared(w, h, x, y, m, before'); }
      }
    }
    AllCleared(on, w, h, i, done, remaining, remaining');
  }

  /** The cell at offset m, if there is one, is no longer to be found. */
  predicate Cleared(w: nat, h: nat, x: int, y: int, m: nat, remaining: set<int>)
    requires m < |OFFSETS|
  {
    var (xx, yy) := (x + OFFSETS[m].0, y + OFFSETS[m].1);
    0 <= xx < w && 0 <= yy < h ==> yy * w + xx !in remaining
  }

  lemma SearchFacts(on: set<int>, w: nat, h: nat, before: set<int>, seed: int, done: set<int>, todo: seq<int>,
          remaining: set<int>, i: int)
    requires w > 0 && Searching(on, w, h, before, seed, done, todo, remaining) && i in done
    ensures i in on && (i == seed || i / w < h) && remaining <= on && forall c :: c in remaining ==> seed < c
  {
  }

  lemma AllCleared(on: set<int>, w: nat, h: nat, i: int, done: set<int>, remaining: set<int>, remaining': set<int>)
    requires w > 0 && Explored(on, w, h, done - {i}, remaining) && remaining' <= remaining && i in done
    requires forall m :: 0 <= m < |OFFSETS| ==> Cleared(w, h, i % w, i / w, m, remaining')
    ensures Explored(on, w, h, done, remaining')
  {
    hide Near;
    forall p, q | p in done && Near(on, w, h)(p, q)
      ensures q !in remaining'
    {
      if p == i {
        var n := OffsetOf(on, w, h, i, q);
        assert Cleared(w, h, i % w, i / w, n, remaining');
      } else {
        assert p in done - {i};
      }
    }
  }

  method BoxOf(cells: seq<int>, w: nat) returns (b: Box)
    requires cells != [] && w > 0
    ensures Tight(b, Elements(cells), w)
  {
    hide Tight;
    b := Box(cells[0] % w, cells[0] / w, cells[0] % w, cells[0] / w);
    FirstTight(cells[0], w);
    assert Elements(cells[..1]) == {cells[0]};
    for k := 1 to |cells|
      invariant Tight(b, Elements(cells[..k]), w)
    {
      var x, y := cells[k] % w, cells[k] / w;
      WidenTight(b, Elements(cells[..k]), w, cells[k]);
      b := Box(Min(x, b.x0), Min(y, b.y0), Max(x, b.x1), Max(y, b.y1));
      assert cells[..k + 1] == cells[..k] + [cells[k]];
      assert Elements(cells[..k + 1]) == Elements(cells[..k]) + {cells[k]};
    }
    assert cells[..|cells|] == cells;
  }

  lemma FirstTight(i: int, w: nat)
    requires w > 0
    ensures Tight(Box(i % w, i / w, i % w, i / w), {i}, w)
  {
    assert i in {i};
  }

  lemma WidenTight(b: Box, s: set<int>, w: nat, i: int)
    requires w > 0 && Tight(b, s, w)
    ensures var (x, y) := (i % w, i / w);
            Tight(Box(Min(x, b.x0), Min(y, b.y0), Max(x, b.x1), Max(y, b.y1)), s + {i}, w)
  {
    var t := s + {i};
    var l :| l in s && l % w == b.x0;
    var u :| u in s && u / w == b.y0;
    var r :| r in s && r % w == b.x1;
    var d :| d in s && d / w == b.y1;
    assert i in t && l in t && u in t && r in t && d in t;
  }

  /** Regions found so far. */
  ghost predicate Found(on: set<int>, w: nat, h: nat, seen: set<int>, classes: seq<set<int>>, out: seq<Box>)
    requires w > 0
  {
    && |out| == |classes| && Partition(Near(on, w, h), seen, classes) && seen <= on && Closed(Near(on, w, h), seen)
    && forall k :: 0 <= k < |out| ==> Tight(out[k], classes[k], w)
  }

  lemma FoundMore(on: set<int>, w: nat, h: nat, seen: set<int>, classes: seq<set<int>>, out: seq<Box>, b: Box,
          s: set<int>)
    requires w > 0 && Found(on, w, h, seen, classes, out) && s !! seen && s <= on && IsClass(Near(on, w, h), s)
        && Tight(b, s, w)
    requires Closed(Near(on, w, h), seen + s)
    ensures Found(on, w, h, seen + s, classes + [s], out + [b])
  {
    hide Near, IsClass, Tight, Closed, InSome;
    forall v
      ensures v in seen + s <==> InSome(v, classes + [s])
    {
      InSomePush(v, classes, s);
    }
    forall k | 0 <= k < |classes|
      ensures classes[k] !! s
    {
      forall v | v in classes[k]
        ensures v in seen
      {
        InSomeAt(v, classes, k);
      }
    }
  }

  lemma FoundNone(on: set<int>, w: nat, h: nat)
    requires w > 0
    ensures Found(on, w, h, {}, [], [])
  {
    hide Near;
  }

  /** One box for each of the classes that make up `on`, in the order of their least cells. */
  ghost predicate DescribesAll(out: seq<Box>, on: set<int>, w: nat, h: nat, classes: seq<set<int>>, seeds: seq<int>)
    requires w > 0
  {
    && |out| == |classes| && Partition(Near(on, w, h), on, classes)
    && (forall k :: 0 <= k < |out| ==> Tight(out[k], classes[k], w))
    && InOrder(classes, seeds)
  }

  ghost predicate InOrder(classes: seq<set<int>>, seeds: seq<int>) {
    |seeds| == |classes| && Increasing(seeds) && forall k :: 0 <= k < |seeds| ==> IsLeast(seeds[k], classes[k])
  }

  /** What is still to be found lies behind all seeds. */
  ghost predicate Behind(seeds: seq<int>, remaining: set<int>) {
    forall k, i :: 0 <= k < |seeds| && i in remaining ==> seeds[k] < i
  }

  lemma OrderMore(classes: seq<set<int>>, seeds: seq<int>, s: set<int>, seed: int, all: set<int>, remaining: set<int>)
    requires InOrder(classes, seeds) && Behind(seeds, all) && IsLeast(seed, all) && seed in s && s <= all
    requires remaining == all - s
    ensures InOrder(classes + [s], seeds + [seed]) && Behind(seeds + [seed], remaining)
  {
  }

  lemma FoundAll(on: set<int>, w: nat, h: nat, seen: set<int>, classes: seq<set<int>>, out: seq<Box>)
    requires w > 0 && Found(on, w, h, seen, classes, out) && on <= seen
    ensures |out| == |classes| && Partition(Near(on, w, h), on, classes)
    ensures forall k :: 0 <= k < |out| ==> Tight(out[k], classes[k], w)
  {
    hide Near, Partition, Closed, Tight;
    assert seen == on;
  }

  lemma FoundClosed(on: set<int>, w: nat, h: nat, seen: set<int>, classes: seq<set<int>>, out: seq<Box>)
    requires w > 0 && Found(on, w, h, seen, classes, out)
    ensures Closed(Near(on, w, h), seen) && seen <= on
  {
    hide Near, Partition, Closed, Tight;
  }

  lemma NoSeeds(remaining: set<int>)
    ensures InOrder([], []) && Behind([], remaining)
  {
  }

  /** One tight box per region, the regions being the classes of the wanted cells under steps of 1
      in a row and 1 to 4 in a column; cells below the grid stand alone. */
  method Regions(values: seq<int>, w: nat, h: nat, types: set<int>) returns (out: seq<Box>)
    requires w > 0
    ensures exists classes, seeds :: DescribesAll(out, Wanted(values, types), w, h, classes, seeds)
  {
    hide InOrder, Behind, Searching, Linked, Near, Explored, Found, Tight, Closed, IsClass, Partition;
    var remaining := set i | 0 <= i < |values| && values[i] in types;
    ghost var on, seen: set<int>, classes: seq<set<int>>, seeds: seq<int> := remaining, {}, [], [];
    out := [];
    assert InOrder(classes, seeds) && Behind(seeds, remaining) by { NoSeeds(remaining); }
    FoundNone(on, w, h);
    while remaining != {}
      invariant remaining == on - seen && Found(on, w, h, seen, classes, out)
      invariant InOrder(classes, seeds) && Behind(seeds, remaining)
      decreases remaining
    {
      FoundClosed(on, w, h, seen, classes, out);
      var seed := Least(remaining);
      SearchBegin(on, w, h, seen, seed, remaining);
      ghost var all := remaining;
      remaining := remaining - {seed};
      var todo, cells := [seed], [];
      assert Elements(cells) == {};
      while todo != []
        invariant Searching(on, w, h, seen, seed, Elements(cells), todo, remaining)
            && Explored(on, w, h, Elements(cells), remaining)
        invariant remaining < all && Elements(cells) <= on
        decreases on - Elements(cells)
      {
        SearchPop(on, w, h, seen, seed, Elements(cells), todo, remaining);
        ghost var before := Elements(cells);
        var i := todo[|todo| - 1];
        todo := todo[..|todo| - 1];
        cells := cells + [i];
        assert Elements(cells) == before + {i};
        assert Elements(cells) - {i} == before;
        todo, remaining := QueueNeighbours(w, h, i, todo, remaining, on, seen, seed, Elements(cells));
      }
      SearchEnd(on, w, h, seen, seed, Elements(cells), remaining);
      var b := BoxOf(cells, w);
      FoundMore(on, w, h, seen, classes, out, b, Elements(cells));
      out := out + [b];
      OrderMore(classes, seeds, Elements(cells), seed, all, remaining);
      classes, seeds := classes + [Elements(cells)], seeds + [seed];
      seen := seen + Elements(cells);
    }
    FoundAll(on, w, h, seen, classes, out);
    assert on == Wanted(values, types);
    assert DescribesAll(out, on, w, h, classes, seeds);
  }
}
