/** `Canvas`: an RGBA raster with alpha-over blending, thick lines and circles. */
module Raster {
  import opened Integers
  import opened Bytes
  import opened Cells
  import B = Bresenham

  datatype Rgba = Rgba(r: byte, g: byte, b: byte, a: byte)

  // ---- one pixel -----------------------------------------------------------

  function Mix(s: int, d: int, alpha: int): int { (s * alpha + d * (255 - alpha)) / 255 }

  lemma MixBetween(s: byte, d: byte, alpha: byte)
    ensures (if s < d then s else d) <= Mix(s, d, alpha) <= (if s < d then d else s)
    ensures 0 <= Mix(s, d, alpha) < 256
  {
    var s': int, d': int, a: int := s, d, alpha;
    var (lo, hi) := (if s' < d' then s' else d', if s' < d' then d' else s');
    Weigh(lo, s', a);
    Weigh(lo, d', 255 - a);
    Weigh(s', hi, a);
    Weigh(d', hi, 255 - a);
    assert lo * a + lo * (255 - a) == lo * 255;
    assert hi * a + hi * (255 - a) == hi * 255;
  }

  lemma Weigh(p: int, q: int, k: int)
    requires p <= q && k >= 0
    ensures p * k <= q * k
  {
  }

  /** sa + da * (255 - sa) // 255, before the clamp. */
  function RawAlpha(sa: int, da: int): int { sa + da * (255 - sa) / 255 }

  /** The clamp to 255 never takes effect, and neither alpha exceeds the result. */
  lemma AlphaGrows(sa: byte, da: byte)
    ensures sa <= RawAlpha(sa, da) <= 255 && da <= RawAlpha(sa, da)
  {
    var s: int, d: int := sa, da;
    Weigh(0, d, 255 - s);
    Weigh(d, 255, 255 - s);
    assert d * (255 - s) == d * 255 - d * s;
    Weigh(d, 255, s);
    assert d * (255 - s) >= (d - s) * 255;
  }

  /** Source over destination. */
  function Over(s: Rgba, d: Rgba): Rgba {
    if s.a <= 0 then d
    else if s.a >= 255 then Rgba(s.r, s.g, s.b, 255)
    else
      MixBetween(s.r, d.r, s.a);
      MixBetween(s.g, d.g, s.a);
      MixBetween(s.b, d.b, s.a);
      AlphaGrows(s.a, d.a);
      Rgba(Mix(s.r, d.r, s.a), Mix(s.g, d.g, s.a), Mix(s.b, d.b, s.a), Min(255, RawAlpha(s.a, d.a)))
  }

  lemma OverNothing(s: Rgba)
    requires s.a <= 0
    ensures forall d :: Over(s, d) == d
  {
  }

  lemma OverSolid(s: Rgba, d: Rgba)
    requires s.a >= 255
    ensures Over(s, d) == Rgba(s.r, s.g, s.b, 255)
  {
  }

  lemma OverBlended(s: Rgba, d: Rgba)
    requires 0 < s.a < 255
    ensures var (a, b, c, alpha) := (Mix(s.r, d.r, s.a), Mix(s.g, d.g, s.a), Mix(s.b, d.b, s.a), RawAlpha(s.a, d.a));
            && 0 <= a < 256 && 0 <= b < 256 && 0 <= c < 256 && 0 <= alpha <= 255
            && Over(s, d) == Rgba(a, b, c, Min(255, alpha))
  {
    hide Mix, RawAlpha;
    MixBetween(s.r, d.r, s.a);
    MixBetween(s.g, d.g, s.a);
    MixBetween(s.b, d.b, s.a);
    AlphaGrows(s.a, d.a);
  }

  predicate Between(v: int, p: int, q: int) { p <= v <= q || q <= v <= p }

  /** Colours stay between source and destination, alpha only grows. */
  lemma OverTints(s: Rgba, d: Rgba)
    ensures var o := Over(s, d); Between(o.r, s.r, d.r) && Between(o.g, s.g, d.g) && Between(o.b, s.b, d.b)
    ensures Over(s, d).a >= d.a && (s.a > 0 ==> Over(s, d).a >= s.a)
    ensures 0 < s.a < 255 ==> Over(s, d).a == RawAlpha(s.a, d.a)
  {
    hide Mix, RawAlpha;
    MixBetween(s.r, d.r, s.a);
    MixBetween(s.g, d.g, s.a);
    MixBetween(s.b, d.b, s.a);
    AlphaGrows(s.a, d.a);
  }

  /** o is the mean of source and destination weighted by sa and 255 - sa, rounded down. */
  predicate Weighted(o: int, s: int, d: int, sa: int) { 255 * o <= s * sa + d * (255 - sa) < 255 * o + 255 }

  /** o is the source's alpha and the share of the destination's that shows through, rounded down. */
  predicate Covered(o: int, sa: int, da: int) { 255 * (o - sa) <= da * (255 - sa) < 255 * (o - sa) + 255 }

  /** What blending s over d means, channel by channel. */
  predicate Blends(o: Rgba, s: Rgba, d: Rgba) {
    if s.a <= 0 then o == d
    else if s.a >= 255 then o == Rgba(s.r, s.g, s.b, 255)
    else Weighted(o.r, s.r, d.r, s.a) && Weighted(o.g, s.g, d.g, s.a) && Weighted(o.b, s.b, d.b, s.a)
         && Covered(o.a, s.a, d.a)
  }

  lemma MixWeighted(s: int, d: int, sa: int)
    ensures Weighted(Mix(s, d, sa), s, d, sa)
  {
  }

  lemma AlphaCovered(sa: byte, da: byte)
    ensures Covered(Min(255, RawAlpha(sa, da)), sa, da)
  {
    AlphaGrows(sa, da);
  }

  /** The blended pixel is the only one with these roundings. */
  lemma OverExactly(o: Rgba, s: Rgba, d: Rgba)
    ensures Blends(o, s, d) <==> o == Over(s, d)
  {
    if 0 < s.a < 255 {
      hide Mix, RawAlpha;
      OverBlended(s, d);
      MixWeighted(s.r, d.r, s.a);
      MixWeighted(s.g, d.g, s.a);
      MixWeighted(s.b, d.b, s.a);
      AlphaCovered(s.a, d.a);
    }
  }

  // ---- the raster as a grid of pixels -----------------------------------------

  predicate Sized(px: bytes, w: nat, h: nat) { |px| == w * h * 4 }

  function At(px: bytes, w: nat, h: nat, x: int, y: int): Rgba
    requires Sized(px, w, h) && InGrid(w, h, x, y)
  {
    IndexInRange(w, h, x, y);
    var i := Index(w, x, y) * 4;
    Rgba(px[i], px[i + 1], px[i + 2], px[i + 3])
  }

  lemma PixelAt(px: bytes, w: nat, h: nat, x: int, y: int)
    requires Sized(px, w, h) && InGrid(w, h, x, y)
    ensures var i := Index(w, x, y) * 4;
            0 <= i && i + 3 < |px| && At(px, w, h, x, y) == Rgba(px[i], px[i + 1], px[i + 2], px[i + 3])
  {
    IndexInRange(w, h, x, y);
  }

  /** The pixels of `now` are those of `was`, blended with c inside the region and nowhere else. */
  ghost predicate Tinted(now: bytes, was: bytes, w: nat, h: nat, c: Rgba, region: (int, int) -> bool) {
    && Sized(now, w, h) && Sized(was, w, h)
    && forall x, y :: InGrid(w, h, x, y) ==>
        At(now, w, h, x, y) == if region(x, y) then Over(c, At(was, w, h, x, y)) else At(was, w, h, x, y)
  }

  /** The part of a box that keep selects: rows ya, ya+1, ..., up to but without (x, y) in
      reading order. */
  function BoxPart(xa: int, xb: int, ya: int, y: int, x: int, keep: (int, int) -> bool): (int, int) -> bool {
    (i, j) => xa <= i < xb && ya <= j && (j < y || (j == y && i < x)) && keep(i, j)
  }

  lemma PartStart(px: bytes, w: nat, h: nat, c: Rgba, xa: int, xb: int, ya: int, keep: (int, int) -> bool)
    requires Sized(px, w, h)
    ensures Tinted(px, px, w, h, c, BoxPart(xa, xb, ya, ya, xa, keep))
  {
    hide Over, At;
  }

  lemma PartStep(now': bytes, now: bytes, was: bytes, w: nat, h: nat, c: Rgba, xa: int, xb: int, ya: int, y: int,
          x: int, keep: (int, int) -> bool)
    requires Tinted(now, was, w, h, c, BoxPart(xa, xb, ya, y, x, keep)) && xa <= x < xb && ya <= y
    requires Tinted(now', now, w, h, c, (i, j) => i == x && j == y && keep(i, j))
    ensures Tinted(now', was, w, h, c, BoxPart(xa, xb, ya, y, x + 1, keep))
  {
    hide Over, At, Sized;
    forall i, j | InGrid(w, h, i, j)
      ensures At(now', w, h, i, j) == if BoxPart(xa, xb, ya, y, x + 1, keep)(i, j) then Over(c, At(was, w, h, i, j))
          else At(was, w, h, i, j)
    {
      assert At(now, w, h, i, j) == if BoxPart(xa, xb, ya, y, x, keep)(i, j) then Over(c, At(was, w, h, i, j))
          else At(was, w, h, i, j);
    }
  }

  lemma PartRow(now: bytes, was: bytes, w: nat, h: nat, c: Rgba, xa: int, xb: int, ya: int, y: int, keep: (int,
          int) -> bool)
    requires Tinted(now, was, w, h, c, BoxPart(xa, xb, ya, y, xb, keep)) && ya <= y
    ensures Tinted(now, was, w, h, c, BoxPart(xa, xb, ya, y + 1, xa, keep))
  {
    hide Over, At;
    forall i, j | InGrid(w, h, i, j)
      ensures BoxPart(xa, xb, ya, y, xb, keep)(i, j) == BoxPart(xa, xb, ya, y + 1, xa, keep)(i, j)
    {
    }
  }

  /** The four bytes from i on, red, green, blue and alpha, are blended with c. */
  ghost predicate PixelBlends(now: bytes, was: bytes, i: int, c: Rgba) {
    && 0 <= i && i + 4 <= |now| == |was|
    && Blends(Rgba(now[i], now[i + 1], now[i + 2], now[i + 3]), c, Rgba(was[i], was[i + 1], was[i + 2], was[i + 3]))
  }

  /** The pixels of a tinted region are blended, byte by byte, and the others keep their bytes. */
  lemma TintedBytes(now: bytes, was: bytes, w: nat, h: nat, c: Rgba, region: (int, int) -> bool, x: nat, y: nat)
    requires Tinted(now, was, w, h, c, region) && x < w && y < h
    ensures var i := (y * w + x) * 4;
            && 0 <= i && i + 4 <= |now| == |was|
            && if region(x, y) then PixelBlends(now, was, i, c) else now[i..i + 4] == was[i..i + 4]
  {
    hide Over, Blends;
    PixelAt(now, w, h, x, y);
    PixelAt(was, w, h, x, y);
    OverExactly(At(now, w, h, x, y), c, At(was, w, h, x, y));
  }

  lemma Transparent(was: bytes, i: int, c: Rgba)
    requires c.a <= 0 && 0 <= i && i + 4 <= |was|
    ensures PixelBlends(was, was, i, c)
  {
  }

  /** Four bytes set to the blended pixel. */
  lemma BytesSet(now: bytes, was: bytes, i: int, o: Rgba, c: Rgba)
    requires 0 <= i && i + 4 <= |now| == |was| && now == was[i := o.r][i + 1 := o.g][i + 2 := o.b][i + 3 := o.a]
    requires o == Over(c, Rgba(was[i], was[i + 1], was[i + 2], was[i + 3]))
    ensures PixelBlends(now, was, i, c)
    ensures forall k :: 0 <= k < |now| && !(0 <= k - i < 4) ==> now[k] == was[k]
  {
    hide Over, Blends;
    OverExactly(o, c, Rgba(was[i], was[i + 1], was[i + 2], was[i + 3]));
  }

  class Canvas {
    const w: nat
    const h: nat
    const px: array<byte>

    ghost predicate Valid()
      reads this, px
    {
      Sized(px[..], w, h)
    }

    constructor (width: nat, height: nat)
      ensures w == width && h == height && fresh(px) && Valid()
      ensures forall x, y :: InGrid(w, h, x, y) ==> At(px[..], w, h, x, y) == Rgba(0, 0, 0, 0)
    {
      w, h := width, height;
      px := new byte[width * height * 4](_ => 0);
      new;
      BlankPixels(px[..], w, h);
    }

    /** Blends one pixel; points outside the canvas are ignored. */
    method Blend(x: int, y: int, c: Rgba)
      requires Valid()
      modifies px
      ensures Valid() && Tinted(px[..], old(px[..]), w, h, c, (i, j) => i == x && j == y)
      ensures 0 <= x < w && 0 <= y < h ==> PixelBlends(px[..], old(px[..]), (y * w + x) * 4, c)
      ensures forall k :: 0 <= k < px.Length && !(0 <= x < w && 0 <= y < h && 0 <= k - (y * w + x) * 4 < 4) ==>
                px[k] == old(px[k])
    {
      hide Over, At, Blends, PixelBlends;
      ghost var was := px[..];
      if !(0 <= x < w && 0 <= y < h) { return; }
      PixelAt(was, w, h, x, y);
      if c.a <= 0 {
        Transparent(was, (y * w + x) * 4, c);
        OverNothing(c);
        return;
      }
      IndexInRange(w, h, x, y);
      var i := (y * w + x) * 4;
      if c.a >= 255 {
        px[i], px[i + 1], px[i + 2], px[i + 3] := c.r, c.g, c.b, 255;
        OverSolid(c, At(was, w, h, x, y));
        PixelSet(px[..], was, w, h, x, y, Rgba(c.r, c.g, c.b, 255));
        BytesSet(px[..], was, i, Rgba(c.r, c.g, c.b, 255), c);
        return;
      }
      var d := Rgba(px[i], px[i + 1], px[i + 2], px[i + 3]);
      var sr: int, sg: int, sb: int, sa: int := c.r, c.g, c.b, c.a;
      var inv := 255 - sa;
      OverBlended(c, d);
      var alpha := sa + d.a * inv / 255;
      px[i], px[i + 1], px[i + 2], px[i + 3] :=
        (sr * sa + d.r * inv) / 255, (sg * sa + d.g * inv) / 255, (sb * sa + d.b * inv) / 255, Min(255, alpha);
      PixelSet(px[..], was, w, h, x, y, Over(c, d));
      BytesSet(px[..], was, i, Over(c, d), c);
    }

    /** One round of the two offset loops of a line: a square of pixels around (cx, cy). */
    method Stamp(cx: int, cy: int, lo: int, hi: int, c: Rgba)
      requires Valid()
      modifies px
      ensures Valid() && Tinted(px[..], old(px[..]), w, h, c, Square(cx, cy, lo, hi))
    {
      hide Tinted, Sized;
      ghost var was := px[..];
      ghost var xa, xb, ya, keep := cx + lo, cx + hi + 1, cy + lo, Everywhere();
      PartStart(was, w, h, c, xa, xb, ya, keep);
      var oy := lo;
      while oy <= hi
        invariant lo <= oy && (oy <= hi + 1 || oy == lo)
        invariant Valid() && Tinted(px[..], was, w, h, c, BoxPart(xa, xb, ya, cy + oy, xa, keep))
      {
        var ox := lo;
        while ox <= hi
          invariant lo <= ox && ox <= hi + 1
          invariant Valid() && Tinted(px[..], was, w, h, c, BoxPart(xa, xb, ya, cy + oy, cx + ox, keep))
        {
          ghost var now := px[..];
          Blend(cx + ox, cy + oy, c);
          BlendKept(px[..], now, w, h, c, cx + ox, cy + oy, keep);
          PartStep(px[..], now, was, w, h, c, xa, xb, ya, cy + oy, cx + ox, keep);
          ox := ox + 1;
        }
        PartRow(px[..], was, w, h, c, xa, xb, ya, cy + oy, keep);
        oy := oy + 1;
      }
      SquareDone(px[..], was, w, h, c, cx, cy, lo, hi, oy);
    }

    /** Draws a line: every pixel is blended once for each point of the walk whose square covers it,
        where the walk rounds the ideal line. The loop ends on the target. */
    method Line(x0: int, y0: int, x1: int, y1: int, c: Rgba, width: int)
      requires Valid()
      modifies px
      ensures Valid() && LineUpTo(px[..], old(px[..]), w, h, c, Walk(x0, y0, x1, y1, width),
          Walk(x0, y0, x1, y1, width).Count())
    {
      hide LineUpTo, Tinted, Sized, B.Steps, B.Gone, B.Err;
      ghost var was, l := px[..], Walk(x0, y0, x1, y1, width);
      var dx, dy := Abs(x1 - x0), Abs(y1 - y0);
      var sx, sy := if x0 < x1 then 1 else -1, if y0 < y1 then 1 else -1;
      var err := (dx as int) - dy;
      var lo, hi := -((width - 1) / 2), width / 2;
      var x, y := x0, y0;
      ghost var k, i, j := 0, 0, 0;
      LineStart(was, w, h, c, l);
      while true
        invariant Valid() && 0 <= k <= l.M() && LineUpTo(px[..], was, w, h, c, l, k)
        invariant i == B.Gone(dx, k, l.M()) && j == B.Gone(dy, k, l.M())
        invariant x == x0 + sx * i && y == y0 + sy * j && err == B.Err(dx, dy, i, j)
        decreases l.M() - k
      {
        ghost var now := px[..];
        Stamp(x, y, lo, hi, c);
        LineStep(px[..], now, was, w, h, c, l, k);
        EndReached(l, k);
        if x == x1 && y == y1 { break; }
        B.OneStep(dx, dy, k);
        ErrStep(dx, dy, i, j);
        var e2 := 2 * err;
        if e2 > -(dy as int) {
          err := err - dy;
          x := x + sx;
          i := i + 1;
        }
        if e2 < dx {
          err := err + dx;
          y := y + sy;
          j := j + 1;
        }
        k := k + 1;
      }
    }

    /** Draws a disc or a ring: every pixel of it is blended exactly once. */
    method Circle(cx: int, cy: int, rad: int, c: Rgba, fill: bool, width: int)
      requires Valid()
      modifies px
      ensures Valid() && Tinted(px[..], old(px[..]), w, h, c, Disc(cx, cy, rad, fill, width))
    {
      hide Tinted, Sized;
      ghost var was := px[..];
      ghost var xa, xb, ya, keep := cx - rad, cx + rad + 1, cy - rad, Kept(cx, cy, rad, fill, width);
      var r2 := rad * rad;
      var inner := if !fill then (rad - width) * (rad - width) else -1;
      PartStart(was, w, h, c, xa, xb, ya, keep);
      var y := cy - rad;
      while y < cy + rad + 1
        invariant ya <= y && (y <= cy + rad + 1 || y == ya)
        invariant Valid() && Tinted(px[..], was, w, h, c, BoxPart(xa, xb, ya, y, xa, keep))
      {
        var x := cx - rad;
        while x < cx + rad + 1
          invariant xa <= x <= xb
          invariant Valid() && Tinted(px[..], was, w, h, c, BoxPart(xa, xb, ya, y, x, keep))
        {
          ghost var now := px[..];
          var d2 := (x - cx) * (x - cx) + (y - cy) * (y - cy);
          if fill {
            if d2 <= r2 { Blend(x, y, c); }
          } else if inner < d2 <= r2 {
            Blend(x, y, c);
          }
          KeptAt(cx, cy, rad, fill, width, x, y);
          BlendOrNot(px[..], now, w, h, c, x, y, keep);
          PartStep(px[..], now, was, w, h, c, xa, xb, ya, y, x, keep);
          x := x + 1;
        }
        PartRow(px[..], was, w, h, c, xa, xb, ya, y, keep);
        y := y + 1;
      }
      DiscDone(px[..], was, w, h, c, cx, cy, rad, fill, width, y);
    }
  }

  // ---- regions -------------------------------------------------------------------

  function Everywhere(): (int, int) -> bool { (i, j) => true }

  function Square(cx: int, cy: int, lo: int, hi: int): (int, int) -> bool {
    (i, j) => lo <= i - cx <= hi && lo <= j - cy <= hi
  }

  function Kept(cx: int, cy: int, rad: int, fill: bool, width: int): (int, int) -> bool {
    (i, j) => (fill || (rad - width) * (rad - width) < (i - cx) * (i - cx) + (j - cy) * (j - cy))
              && (i - cx) * (i - cx) + (j - cy) * (j - cy) <= rad * rad
  }

  /** The pixels within rad of the centre and, for a ring, farther out than rad - width. */
  function Disc(cx: int, cy: int, rad: int, fill: bool, width: int): (int, int) -> bool {
    (i, j) => -rad <= i - cx <= rad && -rad <= j - cy <= rad && Kept(cx, cy, rad, fill, width)(i, j)
  }

  lemma KeptAt(cx: int, cy: int, rad: int, fill: bool, width: int, i: int, j: int)
    ensures Kept(cx, cy, rad, fill, width)(i, j) ==
            ((fill || (rad - width) * (rad - width) < (i - cx) * (i - cx) + (j - cy) * (j - cy))
             && (i - cx) * (i - cx) + (j - cy) * (j - cy) <= rad * rad)
  {
  }

  lemma SameRegion(now: bytes, was: bytes, w: nat, h: nat, c: Rgba, r: (int, int) -> bool, r': (int, int) -> bool)
    requires Tinted(now, was, w, h, c, r)
    requires forall x, y :: InGrid(w, h, x, y) ==> r(x, y) == r'(x, y)
    ensures Tinted(now, was, w, h, c, r')
  {
    hide Over, At;
  }

  lemma BlendKept(now: bytes, was: bytes, w: nat, h: nat, c: Rgba, x: int, y: int, keep: (int, int) -> bool)
    requires Tinted(now, was, w, h, c, (i, j) => i == x && j == y) && keep(x, y)
    ensures Tinted(now, was, w, h, c, (i, j) => i == x && j == y && keep(i, j))
  {
    SameRegion(now, was, w, h, c, (i, j) => i == x && j == y, (i, j) => i == x && j == y && keep(i, j));
  }

  lemma BlendOrNot(now: bytes, was: bytes, w: nat, h: nat, c: Rgba, x: int, y: int, keep: (int, int) -> bool)
    requires if keep(x, y) then Tinted(now, was, w, h, c, (i, j) => i == x && j == y)
             else (now == was && Sized(was, w, h))
    ensures Tinted(now, was, w, h, c, (i, j) => i == x && j == y && keep(i, j))
  {
    if keep(x, y) {
      BlendKept(now, was, w, h, c, x, y, keep);
    }
  }

  lemma SquareDone(now: bytes, was: bytes, w: nat, h: nat, c: Rgba, cx: int, cy: int, lo: int, hi: int, oy: int)
    requires Tinted(now, was, w, h, c, BoxPart(cx + lo, cx + hi + 1, cy + lo, cy + oy, cx + lo, Everywhere()))
    requires oy > hi && lo <= oy && (oy <= hi + 1 || oy == lo)
    ensures Tinted(now, was, w, h, c, Square(cx, cy, lo, hi))
  {
    SameRegion(now, was, w, h, c, BoxPart(cx + lo, cx + hi + 1, cy + lo, cy + oy, cx + lo, Everywhere()), Square(cx,
      cy, lo, hi));
  }

  lemma DiscDone(now: bytes, was: bytes, w: nat, h: nat, c: Rgba, cx: int, cy: int, rad: int, fill: bool,
          width: int, y: int)
    requires Tinted(now, was, w, h, c,
        BoxPart(cx - rad, cx + rad + 1, cy - rad, y, cx - rad, Kept(cx, cy, rad, fill, width)))
    requires y >= cy + rad + 1 && cy - rad <= y && (y <= cy + rad + 1 || y == cy - rad)
    ensures Tinted(now, was, w, h, c, Disc(cx, cy, rad, fill, width))
  {
    SameRegion(now, was, w, h, c, BoxPart(cx - rad, cx + rad + 1, cy - rad, y, cx - rad, Kept(cx, cy, rad, fill,
      width)), Disc(cx, cy, rad, fill, width));
  }

  // ---- lines -----------------------------------------------------------------------

  datatype Walk = Walk(x0: int, y0: int, x1: int, y1: int, width: int) {
    function Dx(): nat { Abs(x1 - x0) }
    function Dy(): nat { Abs(y1 - y0) }
    function M(): nat { B.Steps(Dx(), Dy()) }
    /** One point for each step, and the start. */
    function Count(): nat { M() + 1 }
    function X(k: nat): int { x0 + (if x0 < x1 then 1 else -1) * B.Gone(Dx(), k, M()) }
    function Y(k: nat): int { y0 + (if y0 < y1 then 1 else -1) * B.Gone(Dy(), k, M()) }
    predicate Covers(k: nat, x: int, y: int) {
      -((width - 1) / 2) <= x - X(k) <= width / 2 && -((width - 1) / 2) <= y - Y(k) <= width / 2
    }
    /** How many of the first n points cover the pixel. */
    function Hits(x: int, y: int, n: nat): nat {
      if n == 0 then 0 else Hits(x, y, n - 1) + (if Covers(n - 1, x, y) then 1 else 0)
    }
  }

  /** Blending the same colour n times. */
  function OverN(c: Rgba, p: Rgba, n: nat): Rgba { if n == 0 then p else Over(c, OverN(c, p, n - 1)) }

  ghost predicate LineUpTo(now: bytes, was: bytes, w: nat, h: nat, c: Rgba, l: Walk, n: nat) {
    && Sized(now, w, h) && Sized(was, w, h)
    && forall x, y :: InGrid(w, h, x, y) ==> At(now, w, h, x, y) == OverN(c, At(was, w, h, x, y), l.Hits(x, y, n))
  }

  lemma LineStart(px: bytes, w: nat, h: nat, c: Rgba, l: Walk)
    requires Sized(px, w, h)
    ensures LineUpTo(px, px, w, h, c, l, 0)
    ensures B.Gone(l.Dx(), 0, l.M()) == 0 && B.Gone(l.Dy(), 0, l.M()) == 0
        && B.Err(l.Dx(), l.Dy(), 0, 0) == l.Dx() - l.Dy()
  {
    B.GoneStart(l.Dx(), l.M());
    B.GoneStart(l.Dy(), l.M());
  }

  lemma LineStep(now: bytes, before: bytes, was: bytes, w: nat, h: nat, c: Rgba, l: Walk, k: nat)
    requires LineUpTo(before, was, w, h, c, l, k)
    requires Tinted(now, before, w, h, c, Square(l.X(k), l.Y(k), -((l.width - 1) / 2), l.width / 2))
    ensures LineUpTo(now, was, w, h, c, l, k + 1)
  {
    hide Over, At, B.Gone, B.Steps;
    forall x, y | InGrid(w, h, x, y)
      ensures At(now, w, h, x, y) == OverN(c, At(was, w, h, x, y), l.Hits(x, y, k + 1))
    {
      assert Square(l.X(k), l.Y(k), -((l.width - 1) / 2), l.width / 2)(x, y) == l.Covers(k, x, y);
    }
  }

  lemma ErrStep(dx: nat, dy: nat, i: int, j: int)
    ensures B.Err(dx, dy, i + 1, j) == B.Err(dx, dy, i, j) - dy
    ensures B.Err(dx, dy, i, j + 1) == B.Err(dx, dy, i, j) + dx
    ensures B.Err(dx, dy, i + 1, j + 1) == B.Err(dx, dy, i, j) - dy + dx
  {
    assert dy * (i + 1) == dy * i + dy && dx * (j + 1) == dx * j + dx;
  }

  /** The walk stands on the target exactly after its last step. */
  lemma EndReached(l: Walk, k: nat)
    requires k <= l.M()
    ensures l.X(k) == l.x1 && l.Y(k) == l.y1 <==> k == l.M()
  {
    var dx, dy, m := l.Dx(), l.Dy(), l.M();
    B.GoneEnd(dx, m);
    B.GoneEnd(dy, m);
    if k < m {
      B.GoneMajor(m, k);
    }
  }

  lemma BlankPixels(px: bytes, w: nat, h: nat)
    requires Sized(px, w, h) && forall i :: 0 <= i < |px| ==> px[i] == 0
    ensures forall x, y :: InGrid(w, h, x, y) ==> At(px, w, h, x, y) == Rgba(0, 0, 0, 0)
  {
    forall x, y | InGrid(w, h, x, y)
      ensures At(px, w, h, x, y) == Rgba(0, 0, 0, 0)
    {
      IndexInRange(w, h, x, y);
    }
  }

  lemma PixelSet(now: bytes, was: bytes, w: nat, h: nat, x: int, y: int, p: Rgba)
    requires Sized(was, w, h) && InGrid(w, h, x, y) && |now| == |was|
    requires var i := Index(w, x, y) * 4;
             0 <= i && i + 3 < |now| && now == was[i := p.r][i + 1 := p.g][i + 2 := p.b][i + 3 := p.a]
    ensures forall i, j :: InGrid(w, h, i, j) ==>
        At(now, w, h, i, j) == if i == x && j == y then p else At(was, w, h, i, j)
  {
    forall i, j | InGrid(w, h, i, j)
      ensures At(now, w, h, i, j) == if i == x && j == y then p else At(was, w, h, i, j)
    {
      IndexInRange(w, h, i, j);
      IndexInjective(w, x, y, i, j);
    }
  }

  // ---- any sequence of drawing calls ---------------------------------------------

  datatype Op = LineOp(walk: Walk, c: Rgba) | CircleOp(cx: int, cy: int, rad: int, fill: bool, width: int, c: Rgba)

  /** What one call does to the raster, as the contracts of Line and Circle state it. */
  ghost predicate Draws(op: Op, was: bytes, now: bytes, w: nat, h: nat) {
    match op
    case LineOp(walk, c) => LineUpTo(now, was, w, h, c, walk, walk.Count())
    case CircleOp(cx, cy, rad, fill, width, c) => Tinted(now, was, w, h, c, Disc(cx, cy, rad, fill, width))
  }

  ghost predicate Run(states: seq<bytes>, ops: seq<Op>, w: nat, h: nat) {
    |states| == |ops| + 1 && Sized(states[0], w, h) && forall k :: 0 <= k < |ops| ==>
        Draws(ops[k], states[k], states[k + 1], w, h)
  }

  /** Colour channels within the box spanned by lo and hi. */
  predicate Within(p: Rgba, lo: Rgba, hi: Rgba) { lo.r <= p.r <= hi.r && lo.g <= p.g <= hi.g && lo.b <= p.b <= hi.b }

  lemma {:induction false} OverNTints(c: Rgba, p: Rgba, n: nat, lo: Rgba, hi: Rgba)
    ensures OverN(c, p, n).a >= p.a
    ensures Within(c, lo, hi) && Within(p, lo, hi) ==> Within(OverN(c, p, n), lo, hi)
  {
    hide Over;
    if n > 0 {
      OverNTints(c, p, n - 1, lo, hi);
      OverTints(c, OverN(c, p, n - 1));
    }
  }

  lemma DrawTints(op: Op, was: bytes, now: bytes, w: nat, h: nat, x: int, y: int, lo: Rgba, hi: Rgba)
    requires Draws(op, was, now, w, h) && InGrid(w, h, x, y)
    ensures Sized(was, w, h) && Sized(now, w, h)
    ensures At(now, w, h, x, y).a >= At(was, w, h, x, y).a
    ensures Within(op.c, lo, hi) && Within(At(was, w, h, x, y), lo, hi) ==> Within(At(now, w, h, x, y), lo, hi)
  {
    hide At, Over;
    match op
    case LineOp(walk, c) =>
      OverNTints(c, At(was, w, h, x, y), walk.Hits(x, y, walk.Count()), lo, hi);
    case CircleOp(cx, cy, rad, fill, width, c) =>
      OverTints(c, At(was, w, h, x, y));
  }

  /** Over any run of lines and circles the raster keeps its size, no pixel's alpha decreases, and
      colours never leave the box spanned by the first raster and the colours drawn with. */
  lemma {:induction false} RunTints(states: seq<bytes>, ops: seq<Op>, w: nat, h: nat, x: int, y: int, lo: Rgba,
          hi: Rgba)
    requires Run(states, ops, w, h) && InGrid(w, h, x, y)
    ensures Sized(states[|ops|], w, h)
    ensures At(states[|ops|], w, h, x, y).a >= At(states[0], w, h, x, y).a
    ensures Within(At(states[0], w, h, x, y), lo, hi) && (forall k :: 0 <= k < |ops| ==> Within(ops[k].c, lo, hi))
            ==> Within(At(states[|ops|], w, h, x, y), lo, hi)
    decreases |ops|
  {
    hide At;
    if ops != [] {
      var n := |ops| - 1;
      RunTints(states[..n + 1], ops[..n], w, h, x, y, lo, hi);
      DrawTints(ops[n], states[n], states[n + 1], w, h, x, y, lo, hi);
    }
  }

  // ---- what a line looks like -------------------------------------------------------

  /** A line of width 1 stands on M + 1 distinct pixels from end to end, one unit apart on the longer
      axis and at most one on the other, each within half a pixel of the ideal line. */
  lemma ThinLine(l: Walk, k: nat)
    requires k < l.M()
    ensures l.X(0) == l.x0 && l.Y(0) == l.y0 && l.X(l.M()) == l.x1 && l.Y(l.M()) == l.y1
    ensures Abs(l.X(k + 1) - l.X(k)) <= 1 && Abs(l.Y(k + 1) - l.Y(k)) <= 1
    ensures if l.Dx() >= l.Dy() then Abs(l.X(k + 1) - l.X(k)) == 1 else Abs(l.Y(k + 1) - l.Y(k)) == 1
    ensures 2 * Abs(l.Dx() * Abs(l.Y(k) - l.y0) - l.Dy() * Abs(l.X(k) - l.x0)) <= l.M()
  {
    B.WalkShape(l.Dx(), l.Dy(), k);
    B.CloseToIdeal(l.Dx(), l.Dy(), k);
    hide B.Gone;
    assert Abs(l.X(k) - l.x0) == B.Gone(l.Dx(), k, l.M());
    assert Abs(l.Y(k) - l.y0) == B.Gone(l.Dy(), k, l.M());
  }

  /** A width-1 line blends no pixel twice. */
  lemma {:induction false} ThinLineOnce(l: Walk, x: int, y: int, n: nat)
    requires l.width == 1 && n <= l.Count()
    ensures l.Hits(x, y, n) <= 1
    ensures l.Hits(x, y, n) == 1 <==> exists k :: 0 <= k < n && l.X(k) == x && l.Y(k) == y
  {
    if n > 0 {
      ThinLineOnce(l, x, y, n - 1);
      if l.X(n - 1) == x && l.Y(n - 1) == y && l.Hits(x, y, n - 1) == 1 {
        var k :| 0 <= k < n - 1 && l.X(k) == x && l.Y(k) == y;
        B.GoneMajor(l.M(), k);
        B.GoneMajor(l.M(), n - 1);
        assert false;
      }
    }
  }

  /** The square around a point of the walk: `width` columns and rows, the odd one out to the right and
      below; none for a width of 0 or less. */
  lemma SquareSides(l: Walk, k: nat, x: int, y: int)
    ensures l.Covers(k, x, y) <==>
            -l.width < 2 * (x - l.X(k)) <= l.width && -l.width < 2 * (y - l.Y(k)) <= l.width
  {
  }

  /** All four quarters of a disc or a ring mirror each other, and so do the two axes. */
  lemma DiscMirrors(cx: int, cy: int, rad: int, fill: bool, width: int, i: int, j: int)
    ensures var d := Disc(cx, cy, rad, fill, width);
            d(cx + i, cy + j) == d(cx - i, cy + j) == d(cx + i, cy - j) == d(cx + j, cy + i)
  {
    hide Kept;
    KeptFrom(cx, cy, rad, fill, width, i, j);
    KeptFrom(cx, cy, rad, fill, width, -i, j);
    KeptFrom(cx, cy, rad, fill, width, i, -j);
    KeptFrom(cx, cy, rad, fill, width, j, i);
  }

  lemma KeptFrom(cx: int, cy: int, rad: int, fill: bool, width: int, i: int, j: int)
    ensures Kept(cx, cy, rad, fill, width)(cx + i, cy + j) ==
            ((fill || (rad - width) * (rad - width) < i * i + j * j) && i * i + j * j <= rad * rad)
  {
    KeptAt(cx, cy, rad, fill, width, cx + i, cy + j);
  }

  /** A disc reaches rad from its centre along the axes, and a ring is `width` wide there. */
  lemma DiscReach(cx: int, cy: int, rad: nat, fill: bool, width: int, i: nat)
    requires fill || 0 < width <= rad
    ensures Disc(cx, cy, rad, fill, width)(cx + i, cy) <==> i <= rad && (fill || rad - width < i)
  {
    hide Kept;
    KeptFrom(cx, cy, rad, fill, width, i, 0);
    assert i * i + 0 * 0 == i * i;
    SquaresOrder(i, rad);
    if !fill { SquaresOrder(rad - width, i); }
  }

  lemma SquaresOrder(p: nat, q: nat)
    ensures p <= q <==> p * p <= q * q
    ensures p < q <==> p * p < q * q
  {
    if p < q {
      SquareLess(p, q);
    } else if q < p {
      SquareLess(q, p);
    }
  }

  lemma SquareLess(p: nat, q: nat)
    requires p < q
    ensures p * p < q * q
  {
    var d := q - p;
    assert q * q == p * p + 2 * (p * d) + d * d;
    Weigh(0, p, d);
    Weigh(1, d, d);
  }
}
