/** Whole-array floods on boolean images whose edges wrap around: `flood_seeded`, `flood_border`
    and `dilate`. A pixel is a pair (row, column). */
module Torus {
  import opened Integers
  import opened Reach

  type Pixel = (int, int)

  /** The pixels of an image that are on. */
  ghost function On(a: array2<bool>): set<Pixel>
    reads a
  {
    set y, x | 0 <= y < a.Length0 && 0 <= x < a.Length1 && a[y, x] :: (y, x)
  }

  lemma OnAt(a: array2<bool>, y: int, x: int)
    requires 0 <= y < a.Length0 && 0 <= x < a.Length1
    ensures a[y, x] <==> (y, x) in On(a)
  {
  }

  ghost predicate Inside(s: set<Pixel>, h: nat, w: nat) { forall p :: p in s ==> 0 <= p.0 < h && 0 <= p.1 < w }

  // ---- numpy's whole-array operations ------------------------------------------

  function Rolled(y: int, sh: int, n: nat): int
    requires n > 0
  {
    (y + sh) % n
  }

  /** Where np.roll(..., sh, axis=ax) takes a pixel. */
  function Moved(p: Pixel, ax: int, sh: int, h: nat, w: nat): Pixel
    requires h > 0 && w > 0
  {
    if ax == 0 then (Rolled(p.0, sh, h), p.1) else (p.0, Rolled(p.1, sh, w))
  }

  lemma ModUnique(v: int, n: int, k: int, r: int)
    requires n > 0 && 0 <= r < n && v == n * k + r
    ensures v % n == r
  {
    var d := k - v / n;
    assert n * d == v % n - r;
    Multiple(n, d);
  }

  /** Rolling back and forth ends where it started. */
  lemma RollBack(y: int, sh: int, n: int)
    requires n > 0 && 0 <= y < n
    ensures ((y - sh) % n + sh) % n == y && ((y + sh) % n - sh) % n == y
  {
    var q, p := (y - sh) / n, (y + sh) / n;
    assert (y - sh) % n + sh == n * -q + y;
    ModUnique((y - sh) % n + sh, n, -q, y);
    assert (y + sh) % n - sh == n * -p + y;
    ModUnique((y + sh) % n - sh, n, -p, y);
  }

  lemma RolledBack(y: int, sh: int, n: nat)
    requires 0 <= y < n
    ensures 0 <= Rolled(y, sh, n) < n && Rolled(Rolled(y, sh, n), -sh, n) == y
  {
    RollBack(y, sh, n);
    assert (y + sh) % n + -sh == (y + sh) % n - sh;
  }

  method Copy(a: array2<bool>) returns (r: array2<bool>)
    ensures fresh(r) && r.Length0 == a.Length0 && r.Length1 == a.Length1 && On(r) == On(a)
  {
    r := new bool[a.Length0, a.Length1]((y, x) reads a requires 0 <= y < a.Length0 && 0 <= x < a.Length1 => a[y, x]);
  }

  lemma MovedBack(p: Pixel, ax: int, sh: int, h: nat, w: nat)
    requires 0 <= p.0 < h && 0 <= p.1 < w
    ensures Moved(Moved(p, ax, sh, h, w), ax, -sh, h, w) == p
    ensures var q := Moved(p, ax, sh, h, w); 0 <= q.0 < h && 0 <= q.1 < w
  {
    hide Rolled;
    if ax == 0 {
      RolledBack(p.0, sh, h);
    } else {
      RolledBack(p.1, sh, w);
    }
  }

  /** A rolled image is on where the pixel it comes from was on. */
  lemma RolledFrom(s: set<Pixel>, q: Pixel, ax: int, sh: int, h: nat, w: nat)
    requires Inside(s, h, w) && 0 <= q.0 < h && 0 <= q.1 < w
    ensures Moved(q, ax, -sh, h, w) in s <==> q in (set p | p in s :: Moved(p, ax, sh, h, w))
  {
    hide Moved;
    MovedBack(q, ax, -sh, h, w);
    if q in (set p | p in s :: Moved(p, ax, sh, h, w)) {
      var p :| p in s && Moved(p, ax, sh, h, w) == q;
      MovedBack(p, ax, sh, h, w);
    }
  }

  /** Every pixel moves sh further along the axis, around the edge as often as it takes. */
  lemma RollsForward(p: Pixel, ax: int, sh: int, h: nat, w: nat)
    requires h > 0 && w > 0
    ensures var q := Moved(p, ax, sh, h, w);
            if ax == 0 then q.1 == p.1 && 0 <= q.0 < h && (p.0 + sh - q.0) % h == 0
            else q.0 == p.0 && 0 <= q.1 < w && (p.1 + sh - q.1) % w == 0
  {
    var (a, n) := if ax == 0 then (p.0 + sh, h) else (p.1 + sh, w);
    var k := a / n;
    assert a - a % n == n * k;
    ModUnique(a - a % n, n, k, 0);
  }

  /** nxt |= np.roll(rec, sh, axis=ax) */
  method OrRolled(nxt: array2<bool>, rec: array2<bool>, ax: int, sh: int)
    requires nxt != rec && nxt.Length0 == rec.Length0 > 0 && nxt.Length1 == rec.Length1 > 0
    modifies nxt
    ensures On(nxt) == old(On(nxt)) + set p | p in On(rec) :: Moved(p, ax, sh, rec.Length0, rec.Length1)
  {
    hide Moved;
    var h, w := rec.Length0, rec.Length1;
    ghost var was := On(nxt);
    forall y, x | 0 <= y < h && 0 <= x < w
      ensures var q := Moved((y, x), ax, -sh, h, w); 0 <= q.0 < h && 0 <= q.1 < w
    {
      MovedBack((y, x), ax, -sh, h, w);
    }
    forall y, x | 0 <= y < h && 0 <= x < w {
      nxt[y, x] := nxt[y, x] || rec[Moved((y, x), ax, -sh, h, w).0, Moved((y, x), ax, -sh, h, w).1];
    }
    forall y, x | 0 <= y < h && 0 <= x < w
      ensures (y, x) in On(nxt) <==> (y, x) in was || Moved((y, x), ax, -sh, h, w) in On(rec)
    {
      var q := Moved((y, x), ax, -sh, h, w);
      OnAt(nxt, y, x);
      OnAt(rec, q.0, q.1);
    }
    OnInside(nxt);
    OnInside(rec);
    RolledUnion(On(nxt), was, On(rec), ax, sh, h, w);
  }

  lemma OnInside(a: array2<bool>)
    ensures Inside(On(a), a.Length0, a.Length1)
  {
  }

  lemma RolledUnion(now: set<Pixel>, was: set<Pixel>, s: set<Pixel>, ax: int, sh: int, h: nat, w: nat)
    requires h > 0 && w > 0 && Inside(now, h, w) && Inside(was, h, w) && Inside(s, h, w)
    requires forall y, x :: 0 <= y < h && 0 <= x < w ==>
        ((y, x) in now <==> (y, x) in was || Moved((y, x), ax, -sh, h, w) in s)
    ensures now == was + set p | p in s :: Moved(p, ax, sh, h, w)
  {
    hide Moved;
    var moved := set p | p in s :: Moved(p, ax, sh, h, w);
    forall q: Pixel
      ensures q in now <==> q in was + moved
    {
      if 0 <= q.0 < h && 0 <= q.1 < w {
        RolledFrom(s, q, ax, sh, h, w);
        assert (q.0, q.1) == q;
      } else if q in moved {
        var p :| p in s && Moved(p, ax, sh, h, w) == q;
        MovedBack(p, ax, sh, h, w);
      }
    }
  }

  /** nxt &= mask */
  method AndInto(nxt: array2<bool>, mask: array2<bool>)
    requires nxt != mask && nxt.Length0 == mask.Length0 && nxt.Length1 == mask.Length1
    modifies nxt
    ensures On(nxt) == old(On(nxt)) * On(mask)
  {
    ghost var was := On(nxt);
    forall y, x | 0 <= y < nxt.Length0 && 0 <= x < nxt.Length1 {
      nxt[y, x] := nxt[y, x] && mask[y, x];
    }
    assert forall q :: q in On(nxt) <==> q in was * On(mask);
  }

  /** (a == b).all() */
  predicate Same(a: array2<bool>, b: array2<bool>)
    requires a.Length0 == b.Length0 && a.Length1 == b.Length1
    reads a, b
  {
    forall y, x :: 0 <= y < a.Length0 && 0 <= x < a.Length1 ==> a[y, x] == b[y, x]
  }

  lemma SameOn(a: array2<bool>, b: array2<bool>)
    requires a.Length0 == b.Length0 && a.Length1 == b.Length1
    ensures Same(a, b) <==> On(a) == On(b)
  {
    if On(a) == On(b) {
      forall y, x | 0 <= y < a.Length0 && 0 <= x < a.Length1
        ensures a[y, x] == b[y, x]
      {
        OnAt(a, y, x);
        OnAt(b, y, x);
      }
    }
  }

  // ---- flood fill ------------------------------------------------------------------

  /** The six rolls of one round, as (axis, shift). */
  const SHIFTS: seq<(int, int)> := [(0, 4), (0, -4), (1, 4), (1, -4), (0, 1), (1, 1)]

  predicate IsHop(p: Pixel, q: Pixel, h: nat, w: nat)
    requires h > 0 && w > 0
  {
    exists n :: 0 <= n < |SHIFTS| && q == Moved(p, SHIFTS[n].0, SHIFTS[n].1, h, w)
  }

  /** q is p moved 4 down, 4 up or 1 down, or 4 right, 4 left or 1 right, around the edges. */
  predicate Shifted(p: Pixel, q: Pixel, h: nat, w: nat)
    requires h > 0 && w > 0
  {
    || q == ((p.0 + 4) % h, p.1) || q == ((p.0 - 4) % h, p.1) || q == ((p.0 + 1) % h, p.1)
    || q == (p.0, (p.1 + 4) % w) || q == (p.0, (p.1 - 4) % w) || q == (p.0, (p.1 + 1) % w)
  }

  /** That is where the six rolls lead. */
  lemma HopIsShift(p: Pixel, q: Pixel, h: nat, w: nat)
    requires h > 0 && w > 0
    ensures IsHop(p, q, h, w) <==> Shifted(p, q, h, w)
  {
    var (down, up, right, left) := ((0, 4), (0, -4), (1, 4), (1, -4));
    assert SHIFTS[0] == down && SHIFTS[1] == up && SHIFTS[2] == right && SHIFTS[3] == left;
    assert SHIFTS[4] == (0, 1) && SHIFTS[5] == (1, 1);
    RolledIs(p.0, h);
    RolledIs(p.1, w);
    hide Rolled;
    if Shifted(p, q, h, w) {
      var n := if q == ((p.0 + 4) % h, p.1) then 0 else if q == ((p.0 - 4) % h, p.1) then 1
               else if q == (p.0, (p.1 + 4) % w) then 2 else if q == (p.0, (p.1 - 4) % w) then 3
               else if q == ((p.0 + 1) % h, p.1) then 4 else 5;
      assert q == Moved(p, SHIFTS[n].0, SHIFTS[n].1, h, w);
    }
  }

  lemma RolledIs(y: int, n: nat)
    requires n > 0
    ensures Rolled(y, 4, n) == (y + 4) % n && Rolled(y, -4, n) == (y - 4) % n && Rolled(y, 1, n) == (y + 1) % n
  {
  }

  /** One shift that lands in the mask. */
  ghost function Hop(mask: set<Pixel>, h: nat, w: nat): (Pixel, Pixel) -> bool
    requires h > 0 && w > 0
  {
    (p: Pixel, q: Pixel) => q in mask && Shifted(p, q, h, w)
  }

  /** s and its first n rolls. */
  ghost function Spread(s: set<Pixel>, n: nat, h: nat, w: nat): set<Pixel>
    requires h > 0 && w > 0 && n <= |SHIFTS|
  {
    if n == 0 then s else Spread(s, n - 1, h, w) + set p | p in s :: Moved(p, SHIFTS[n - 1].0, SHIFTS[n - 1].1, h, w)
  }

  lemma {:induction false} SpreadHas(s: set<Pixel>, n: nat, h: nat, w: nat, q: Pixel)
    requires h > 0 && w > 0 && n <= |SHIFTS|
    ensures q in Spread(s, n, h, w) <==>
        q in s || exists p, k :: p in s && 0 <= k < n && q == Moved(p, SHIFTS[k].0, SHIFTS[k].1, h, w)
  {
    hide Moved;
    if n > 0 {
      SpreadHas(s, n - 1, h, w, q);
    }
  }

  /** Pixels of the mask reachable from the start set by shifts that stay in the mask. */
  ghost predicate IsFlooded(q: Pixel, mask: set<Pixel>, start: set<Pixel>, h: nat, w: nat)
    requires h > 0 && w > 0
  {
    exists p :: p in start && Linked(Hop(mask, h, w), p, q)
  }

  /** What the loop keeps: everything marked was reached, and the start set is marked. */
  ghost predicate Flooding(s: set<Pixel>, mask: set<Pixel>, start: set<Pixel>, h: nat, w: nat)
    requires h > 0 && w > 0
  {
    start <= s <= mask && forall q :: q in s ==> IsFlooded(q, mask, start, h, w)
  }

  lemma FloodStart(mask: set<Pixel>, start: set<Pixel>, h: nat, w: nat)
    requires h > 0 && w > 0 && start <= mask
    ensures Flooding(start, mask, start, h, w)
  {
    forall q | q in start
      ensures IsFlooded(q, mask, start, h, w)
    {
      LinkedSelf(Hop(mask, h, w), q);
    }
  }

  lemma OneHop(p: Pixel, q: Pixel, mask: set<Pixel>, start: set<Pixel>, h: nat, w: nat)
    requires h > 0 && w > 0 && IsFlooded(p, mask, start, h, w) && q in mask && IsHop(p, q, h, w)
    ensures IsFlooded(q, mask, start, h, w)
  {
    hide Linked, IsHop, Shifted;
    HopIsShift(p, q, h, w);
    var a :| a in start && Linked(Hop(mask, h, w), a, p);
    LinkedStep(Hop(mask, h, w), a, p, q);
  }

  lemma FloodRound(s: set<Pixel>, mask: set<Pixel>, start: set<Pixel>, h: nat, w: nat)
    requires h > 0 && w > 0 && Flooding(s, mask, start, h, w)
    ensures Flooding(Spread(s, |SHIFTS|, h, w) * mask, mask, start, h, w)
    ensures s <= Spread(s, |SHIFTS|, h, w) * mask
  {
    hide Spread, IsFlooded, Moved;
    var next := Spread(s, |SHIFTS|, h, w) * mask;
    forall q | q in s
      ensures q in next
    {
      SpreadHas(s, |SHIFTS|, h, w, q);
    }
    forall q | q in next
      ensures IsFlooded(q, mask, start, h, w)
    {
      SpreadHas(s, |SHIFTS|, h, w, q);
      if q !in s {
        var p, k :| p in s && 0 <= k < |SHIFTS| && q == Moved(p, SHIFTS[k].0, SHIFTS[k].1, h, w);
        OneHop(p, q, mask, start, h, w);
      }
    }
  }

  /** When a round adds nothing, exactly the reachable pixels are marked. */
  lemma FloodStable(s: set<Pixel>, mask: set<Pixel>, start: set<Pixel>, h: nat, w: nat)
    requires h > 0 && w > 0 && Flooding(s, mask, start, h, w) && Spread(s, |SHIFTS|, h, w) * mask == s
    ensures forall q :: q in s <==> IsFlooded(q, mask, start, h, w)
  {
    hide Spread, Linked, Moved, Shifted;
    forall p, q | p in s && Hop(mask, h, w)(p, q)
      ensures q in s
    {
      HopIsShift(p, q, h, w);
      SpreadHas(s, |SHIFTS|, h, w, q);
    }
    assert Closed(Hop(mask, h, w), s);
    forall q | IsFlooded(q, mask, start, h, w)
      ensures q in s
    {
      var a :| a in start && Linked(Hop(mask, h, w), a, q);
      ClosedReaches(Hop(mask, h, w), s, a, q);
    }
  }

  /** One round: the six rolls of rec are or-ed into a copy of it. */
  method SpreadOnce(rec: array2<bool>) returns (nxt: array2<bool>)
    requires rec.Length0 > 0 && rec.Length1 > 0
    ensures fresh(nxt) && nxt.Length0 == rec.Length0 && nxt.Length1 == rec.Length1
    ensures On(nxt) == Spread(On(rec), |SHIFTS|, rec.Length0, rec.Length1)
  {
    hide On, Moved;
    nxt := Copy(rec);
    for n := 0 to |SHIFTS|
      invariant fresh(nxt) && On(nxt) == Spread(On(rec), n, rec.Length0, rec.Length1)
    {
      OrRolled(nxt, rec, SHIFTS[n].0, SHIFTS[n].1);
    }
  }

  /** Exactly the mask pixels reachable from the seeds by the six shifts on the torus without
      leaving the mask. */
  method FloodSeeded(mask: array2<bool>, seeds: array2<bool>) returns (rec: array2<bool>)
    requires mask.Length0 == seeds.Length0 > 0 && mask.Length1 == seeds.Length1 > 0
    ensures rec.Length0 == mask.Length0 && rec.Length1 == mask.Length1
    ensures forall q :: q in On(rec) <==> IsFlooded(q, On(mask), On(seeds) * On(mask), mask.Length0, mask.Length1)
  {
    hide On, Spread, IsFlooded, Same;
    var h, w := mask.Length0, mask.Length1;
    rec := Copy(seeds);
    AndInto(rec, mask);
    ghost var start := On(seeds) * On(mask);
    FloodStart(On(mask), start, h, w);
    while true
      invariant fresh(rec) && rec.Length0 == h && rec.Length1 == w
      invariant Flooding(On(rec), On(mask), start, h, w)
      decreases On(mask) - On(rec)
    {
      FloodRound(On(rec), On(mask), start, h, w);
      var nxt := SpreadOnce(rec);
      AndInto(nxt, mask);
      SameOn(nxt, rec);
      if Same(nxt, rec) {
        FloodStable(On(rec), On(mask), start, h, w);
        return;
      }
      rec := nxt;
    }
  }

  // ---- flood from the border -------------------------------------------------------

  ghost predicate OnBorder(p: Pixel, h: nat, w: nat) { p.0 == 0 || p.0 == h - 1 || p.1 == 0 || p.1 == w - 1 }

  ghost function BorderOf(s: set<Pixel>, h: nat, w: nat): set<Pixel> { set p | p in s && OnBorder(p, h, w) }

  /** nxt[0,:] |= mask[0,:] and likewise for the other three edges. */
  method OrBorder(nxt: array2<bool>, mask: array2<bool>)
    requires nxt != mask && nxt.Length0 == mask.Length0 > 0 && nxt.Length1 == mask.Length1 > 0
    modifies nxt
    ensures On(nxt) == old(On(nxt)) + BorderOf(On(mask), mask.Length0, mask.Length1)
  {
    var h, w := mask.Length0, mask.Length1;
    ghost var was := On(nxt);
    var (bottom, right) := (h - 1, w - 1);
    forall x | 0 <= x < w { nxt[0, x] := nxt[0, x] || mask[0, x]; }
    forall x | 0 <= x < w { nxt[bottom, x] := nxt[bottom, x] || mask[bottom, x]; }
    forall y | 0 <= y < h { nxt[y, 0] := nxt[y, 0] || mask[y, 0]; }
    forall y | 0 <= y < h { nxt[y, right] := nxt[y, right] || mask[y, right]; }
    assert forall y, x :: 0 <= y < h && 0 <= x < w ==>
      nxt[y, x] == (old(nxt[y, x]) || (mask[y, x] && OnBorder((y, x), h, w)));
  }

  /** With seed_all the whole mask; otherwise exactly the mask pixels reachable from the mask's
      border pixels by the six shifts on the torus. */
  method FloodBorder(mask: array2<bool>, seedAll: bool) returns (rec: array2<bool>)
    requires mask.Length0 > 0 && mask.Length1 > 0
    ensures rec.Length0 == mask.Length0 && rec.Length1 == mask.Length1
    ensures seedAll ==> On(rec) == On(mask)
    ensures !seedAll ==> forall q :: q in On(rec) <==>
        IsFlooded(q, On(mask), BorderOf(On(mask), mask.Length0, mask.Length1), mask.Length0, mask.Length1)
  {
    hide On, Spread, IsFlooded, Same;
    var h, w := mask.Length0, mask.Length1;
    ghost var start := if seedAll then On(mask) else BorderOf(On(mask), h, w);
    if seedAll {
      rec := Copy(mask);
    } else {
      rec := new bool[h, w]((y, x) => false);
      NoneOn(rec);
      OrBorder(rec, mask);
    }
    FloodStart(On(mask), start, h, w);
    while true
      invariant fresh(rec) && rec.Length0 == h && rec.Length1 == w
      invariant Flooding(On(rec), On(mask), start, h, w)
      decreases On(mask) - On(rec)
    {
      FloodRound(On(rec), On(mask), start, h, w);
      var nxt := SpreadOnce(rec);
      AndInto(nxt, mask);
      if !seedAll {
        ghost var before := On(nxt);
        OrBorder(nxt, mask);
        assert On(nxt) == before;
      }
      SameOn(nxt, rec);
      if Same(nxt, rec) {
        FloodStable(On(rec), On(mask), start, h, w);
        return;
      }
      rec := nxt;
    }
  }

  lemma NoneOn(a: array2<bool>)
    requires forall y, x :: 0 <= y < a.Length0 && 0 <= x < a.Length1 ==> !a[y, x]
    ensures On(a) == {}
  {
  }

  // ---- dilation ----------------------------------------------------------------------

  /** Distance on a cycle of n positions. */
  function Around(a: int, b: int, n: nat): int {
    var d := if a < b then b - a else a - b;
    if d < n - d then d else n - d
  }

  /** L1 distance on the torus. */
  function Distance(p: Pixel, q: Pixel, h: nat, w: nat): int { Around(p.0, q.0, h) + Around(p.1, q.1, w) }

  ghost predicate Near(q: Pixel, s: set<Pixel>, k: int, h: nat, w: nat) {
    exists p :: p in s && Distance(p, q, h, w) <= k
  }

  /** One step along a cycle, either way. */
  function Next(a: int, n: nat): int { if a == n - 1 then 0 else a + 1 }

  function Before(a: int, n: nat): int { if a == 0 then n - 1 else a - 1 }

  lemma RollOne(a: int, n: nat)
    requires 0 <= a < n
    ensures (a + 1) % n == Next(a, n) && (a + -1) % n == Before(a, n)
  {
    ModUnique(a + 1, n, if a == n - 1 then 1 else 0, Next(a, n));
    ModUnique(a - 1, n, if a == 0 then -1 else 0, Before(a, n));
  }

  /** A step changes the distance by at most one, and some step towards the other end shortens it. */
  lemma StepAround(a: int, b: int, n: nat)
    requires 0 <= a < n && 0 <= b < n
    ensures Around(a, b, n) >= 0 && (Around(a, b, n) == 0 <==> a == b)
    ensures Around(a, Next(b, n), n) <= Around(a, b, n) + 1 && Around(a, Before(b, n), n) <= Around(a, b, n) + 1
    ensures a != b ==>
              Around(a, Next(b, n), n) == Around(a, b, n) - 1 || Around(a, Before(b, n), n) == Around(a, b, n) - 1
  {
  }

  /** p and its four neighbours on the torus. */
  predicate Beside(p: Pixel, q: Pixel, h: nat, w: nat)
    requires h > 0 && w > 0
  {
    q == p || q == (Next(p.0, h), p.1) || q == (Before(p.0, h), p.1) || q == (p.0, Next(p.1, w))
    || q == (p.0, Before(p.1, w))
  }

  lemma BesideInside(p: Pixel, q: Pixel, h: nat, w: nat)
    requires 0 <= p.0 < h && 0 <= p.1 < w
    requires Beside(p, q, h, w)
    ensures 0 <= q.0 < h && 0 <= q.1 < w && Beside(q, p, h, w)
  {
  }

  lemma BesideDistance(p: Pixel, r: Pixel, q: Pixel, h: nat, w: nat)
    requires 0 <= p.0 < h && 0 <= p.1 < w && 0 <= r.0 < h && 0 <= r.1 < w && Beside(r, q, h, w)
    ensures Distance(p, q, h, w) <= Distance(p, r, h, w) + 1
  {
    StepAround(p.0, r.0, h);
    StepAround(p.1, r.1, w);
    hide Around;
  }

  /** A pixel at positive distance has a neighbour one step closer. */
  lemma Closer(p: Pixel, q: Pixel, h: nat, w: nat) returns (r: Pixel)
    requires 0 <= p.0 < h && 0 <= p.1 < w && 0 <= q.0 < h && 0 <= q.1 < w
    ensures 0 <= r.0 < h && 0 <= r.1 < w && Beside(r, q, h, w)
    ensures Distance(p, q, h, w) > 0 ==> Distance(p, r, h, w) == Distance(p, q, h, w) - 1
    ensures Distance(p, q, h, w) <= 0 ==> r == q
  {
    StepAround(p.0, q.0, h);
    StepAround(p.1, q.1, w);
    hide Around;
    r := if p.0 != q.0 && Around(p.0, Next(q.0, h), h) == Around(p.0, q.0, h) - 1 then (Next(q.0, h), q.1)
         else if p.0 != q.0 then (Before(q.0, h), q.1)
         else if p.1 != q.1 && Around(p.1, Next(q.1, w), w) == Around(p.1, q.1, w) - 1 then (q.0, Next(q.1, w))
         else if p.1 != q.1 then (q.0, Before(q.1, w))
         else q;
    BesideInside(q, r, h, w);
  }

  /** Growing the k-neighbourhood by one ring gives the (k+1)-neighbourhood. */
  lemma GrowNear(s: set<Pixel>, k: nat, h: nat, w: nat, q: Pixel)
    requires Inside(s, h, w) && 0 <= q.0 < h && 0 <= q.1 < w
    ensures Near(q, s, k + 1, h, w) <==>
        exists r: Pixel :: 0 <= r.0 < h && 0 <= r.1 < w && Near(r, s, k, h, w) && Beside(r, q, h, w)
  {
    hide Distance, Beside;
    if Near(q, s, k + 1, h, w) {
      var p :| p in s && Distance(p, q, h, w) <= k + 1;
      var r := Closer(p, q, h, w);
      assert Near(r, s, k, h, w);
    }
    if r: Pixel :| 0 <= r.0 < h && 0 <= r.1 < w && Near(r, s, k, h, w) && Beside(r, q, h, w) {
      var p :| p in s && Distance(p, r, h, w) <= k;
      BesideDistance(p, r, q, h, w);
    }
  }

  /** The set of pixels next to s, s included. */
  ghost function Ring(s: set<Pixel>, h: nat, w: nat): set<Pixel>
    requires h > 0 && w > 0
  {
    s + (set p | p in s :: Moved(p, 0, 1, h, w)) + (set p | p in s :: Moved(p, 0, -1, h, w))
      + (set p | p in s :: Moved(p, 1, 1, h, w)) + (set p | p in s :: Moved(p, 1, -1, h, w))
  }

  lemma BesideMoves(r: Pixel, q: Pixel, h: nat, w: nat)
    requires 0 <= r.0 < h && 0 <= r.1 < w
    ensures Beside(r, q, h, w) <==>
            q == r || q == Moved(r, 0, 1, h, w) || q == Moved(r, 0, -1, h, w) || q == Moved(r, 1, 1, h, w)
            || q == Moved(r, 1, -1, h, w)
  {
    RollOne(r.0, h);
    RollOne(r.1, w);
  }

  lemma RingBeside(s: set<Pixel>, h: nat, w: nat, q: Pixel)
    requires h > 0 && w > 0 && Inside(s, h, w)
    ensures q in Ring(s, h, w) <==> exists r :: r in s && Beside(r, q, h, w)
  {
    hide Moved, Beside;
    forall r | r in s
      ensures Beside(r, q, h, w) <==>
              q == r || q == Moved(r, 0, 1, h, w) || q == Moved(r, 0, -1, h, w) || q == Moved(r, 1, 1, h, w)
              || q == Moved(r, 1, -1, h, w)
    {
      BesideMoves(r, q, h, w);
    }
  }

  /** Exactly the pixels within toroidal L1 distance k of the mask. */
  method Dilate(mask: array2<bool>, iters: nat) returns (out: array2<bool>)
    requires mask.Length0 > 0 && mask.Length1 > 0
    ensures out.Length0 == mask.Length0 && out.Length1 == mask.Length1
    ensures forall q: Pixel :: q in On(out) <==>
        0 <= q.0 < mask.Length0 && 0 <= q.1 < mask.Length1 && Near(q, On(mask), iters, mask.Length0, mask.Length1)
  {
    hide On, Moved, Near, Ring;
    var h, w := mask.Length0, mask.Length1;
    OnInside(mask);
    out := Copy(mask);
    DilateStart(On(mask), h, w);
    for k := 0 to iters
      invariant fresh(out) && out.Length0 == h && out.Length1 == w
      invariant Dilated(On(out), On(mask), k, h, w)
    {
      var nxt := Copy(out);
      OrRolled(nxt, out, 0, 1);
      OrRolled(nxt, out, 0, -1);
      OrRolled(nxt, out, 1, 1);
      OrRolled(nxt, out, 1, -1);
      RingIs(On(out), h, w, On(nxt));
      DilateRound(On(out), On(mask), k, h, w);
      out := nxt;
    }
  }

  lemma RingIs(s: set<Pixel>, h: nat, w: nat, t: set<Pixel>)
    requires h > 0 && w > 0
    requires t == s + (set p | p in s :: Moved(p, 0, 1, h, w)) + (set p | p in s :: Moved(p, 0, -1, h, w))
                  + (set p | p in s :: Moved(p, 1, 1, h, w)) + (set p | p in s :: Moved(p, 1, -1, h, w))
    ensures t == Ring(s, h, w)
  {
  }

  ghost predicate Dilated(t: set<Pixel>, s: set<Pixel>, k: nat, h: nat, w: nat) {
    Inside(s, h, w) && forall q: Pixel :: q in t <==> 0 <= q.0 < h && 0 <= q.1 < w && Near(q, s, k, h, w)
  }

  lemma DilateStart(s: set<Pixel>, h: nat, w: nat)
    requires Inside(s, h, w)
    ensures Dilated(s, s, 0, h, w)
  {
    forall q: Pixel | 0 <= q.0 < h && 0 <= q.1 < w
      ensures q in s <==> Near(q, s, 0, h, w)
    {
      StepAround(q.0, q.0, h);
      StepAround(q.1, q.1, w);
      if Near(q, s, 0, h, w) {
        var p :| p in s && Distance(p, q, h, w) <= 0;
        StepAround(p.0, q.0, h);
        StepAround(p.1, q.1, w);
        assert p == q;
      }
      if q in s { assert Distance(q, q, h, w) <= 0; }
    }
  }

  lemma DilateRound(t: set<Pixel>, s: set<Pixel>, k: nat, h: nat, w: nat)
    requires h > 0 && w > 0 && Dilated(t, s, k, h, w)
    ensures Dilated(Ring(t, h, w), s, k + 1, h, w)
  {
    hide Ring, Near, Beside;
    assert Inside(t, h, w);
    forall q: Pixel
      ensures q in Ring(t, h, w) <==> 0 <= q.0 < h && 0 <= q.1 < w && Near(q, s, k + 1, h, w)
    {
      RingBeside(t, h, w, q);
      if q in Ring(t, h, w) {
        var r :| r in t && Beside(r, q, h, w);
        BesideInside(r, q, h, w);
      }
      if 0 <= q.0 < h && 0 <= q.1 < w { GrowNear(s, k, h, w, q); }
    }
  }
}
