/** Row-major indices of a grid that is w cells wide. */
module Cells {
  import opened Integers

  /** A box of pixels or cells, both corners included. */
  datatype Box = Box(x0: int, y0: int, x1: int, y1: int)

  predicate InGrid(w: int, h: int, x: int, y: int) { 0 <= x < w && 0 <= y < h }

  function Index(w: int, x: int, y: int): int { y * w + x }

  lemma IndexInRange(w: int, h: int, x: int, y: int)
    requires InGrid(w, h, x, y)
    ensures 0 <= Index(w, x, y) < w * h
    ensures Index(w, x, y) + 1 <= w * h
  {
    var rest := h - y;
    assert w * h == w * y + w * rest;
    assert w * rest == w * (rest - 1) + w;
    assert w * (rest - 1) >= 0;
    assert w * y >= 0;
  }

  /** Two cells of a grid never share an index. */
  lemma IndexInjective(w: int, x: int, y: int, x': int, y': int)
    requires 0 <= x < w && 0 <= x' < w
    ensures Index(w, x, y) == Index(w, x', y') <==> x == x' && y == y'
  {
    if Index(w, x, y) == Index(w, x', y') {
      var d := y - y';
      assert w * d == x' - x;
      Multiple(w, d);
    }
  }

  /** An index divides back into its column and its row. */
  lemma IndexSplit(w: int, x: int, y: int)
    requires 0 <= x < w && 0 <= y
    ensures Index(w, x, y) % w == x && Index(w, x, y) / w == y
  {
    var i := Index(w, x, y);
    IndexInjective(w, x, y, i % w, i / w);
    assert i == w * (i / w) + i % w;
  }

  /** And every index of a grid is that of a cell. */
  lemma SplitIndex(w: nat, h: nat, i: int)
    requires 0 <= i < w * h
    ensures w > 0 && InGrid(w, h, i % w, i / w) && Index(w, i % w, i / w) == i
  {
    assert i == w * (i / w) + i % w;
    if i / w >= h { Multiple(w, i / w - h); }
  }
}
