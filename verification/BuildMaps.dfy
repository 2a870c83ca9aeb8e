/** `write_map`: one semantic grid becomes a game layer and a tele layer of a saved map. */
module BuildMaps {
  import opened Integers
  import opened Bytes
  import opened Datafile
  import opened Grouping
  import opened DatafileV4
  import opened MapFormat
  import opened MapRead
  import opened MapLayers
  import opened Names

  const T_AIR: int := 0
  const T_SOLID: int := 1
  const T_TELEIN: int := 26
  const T_TELEOUT: int := 27

  type Rows = seq<seq<int>>

  predicate Shaped(g: Rows, w: nat, h: nat) { |g| == h && forall y :: 0 <= y < h ==> |g[y]| == w }

  /** Rows one after the other. */
  function Flatten(g: Rows): seq<int> {
    if g == [] then [] else Flatten(g[..|g| - 1]) + g[|g| - 1]
  }

  lemma {:induction false} FlattenAt(g: Rows, w: nat, x: nat, y: nat)
    requires Shaped(g, w, |g|) && y < |g| && x < w
    ensures |Flatten(g)| == |g| * w && 0 <= y * w + x < |g| * w
    ensures Flatten(g)[y * w + x] == g[y][x]
    decreases |g|
  {
    var n := |g| - 1;
    FlattenSize(g[..n], w);
    assert |g| * w == n * w + w;
    if y < n {
      FlattenAt(g[..n], w, x, y);
    }
  }

  lemma {:induction false} FlattenSize(g: Rows, w: nat)
    requires Shaped(g, w, |g|)
    ensures |Flatten(g)| == |g| * w
  {
    if g != [] {
      FlattenSize(g[..|g| - 1], w);
      assert |g| * w == (|g| - 1) * w + w;
    }
  }

  // ---- cells to bytes --------------------------------------------------------

  predicate IsByte(v: int) { 0 <= v < 256 }

  predicate AllBytes(s: seq<int>) { forall k :: 0 <= k < |s| ==> IsByte(s[k]) }

  /** In terms of rows and columns. */
  lemma {:induction false} CellsAreBytes(g: Rows, w: nat)
    requires Shaped(g, w, |g|)
    ensures AllBytes(Flatten(g)) <==> forall x, y :: 0 <= x < w && 0 <= y < |g| ==> 0 <= g[y][x] <= 255
  {
    if AllBytes(Flatten(g)) {
      forall x, y | 0 <= x < w && 0 <= y < |g|
        ensures 0 <= g[y][x] <= 255
      {
        FlattenAt(g, w, x, y);
        assert IsByte(Flatten(g)[y * w + x]);
      }
    } else {
      OddCell(g, w);
    }
  }

  lemma {:induction false} OddCell(g: Rows, w: nat)
    requires Shaped(g, w, |g|) && !AllBytes(Flatten(g))
    ensures exists x, y :: 0 <= x < w && 0 <= y < |g| && !(0 <= g[y][x] <= 255)
  {
    var n := |g| - 1;
    var front := Flatten(g[..n]);
    if AllBytes(front) {
      var k :| 0 <= k < |front + g[n]| && !IsByte((front + g[n])[k]);
      assert !(0 <= g[n][k - |front|] <= 255);
    } else {
      OddCell(g[..n], w);
      var x, y :| 0 <= x < w && 0 <= y < n && !(0 <= g[..n][y][x] <= 255);
      assert g[y] == g[..n][y];
    }
  }

  function Low(v: int): byte { v % 256 }

  /** Four bytes a cell: the tile index and three zeros. */
  function GameBytes(s: seq<int>): (b: bytes)
    ensures |b| == 4 * |s|
  {
    seq(4 * |s|, i requires 0 <= i < 4 * |s| => if i % 4 == 0 then Low(s[i / 4]) else 0)
  }

  function IsPad(v: int): bool { v == T_TELEIN || v == T_TELEOUT }

  /** Two bytes a cell: a number and the tele type, both zero where there is no pad. */
  function TeleBytes(s: seq<int>): (b: bytes)
    ensures |b| == 2 * |s|
  {
    seq(2 * |s|, i requires 0 <= i < 2 * |s| => if !IsPad(s[i / 2]) then 0 else if i % 2 == 0 then 1 else Low(s[i / 2]))
  }

  /** What stays in the game grid once the pads are lifted out. */
  function Lifted(v: int): int { if IsPad(v) then T_AIR else v }

  function LiftRow(row: seq<int>): (r: seq<int>)
    ensures |r| == |row|
  {
    seq(|row|, x requires 0 <= x < |row| => Lifted(row[x]))
  }

  function LiftRows(g: Rows): (r: Rows)
    ensures |r| == |g|
  {
    seq(|g|, y requires 0 <= y < |g| => LiftRow(g[y]))
  }

  lemma GameBytesPush(s: seq<int>, v: int)
    requires IsByte(v)
    ensures GameBytes(s + [v]) == GameBytes(s) + [v, 0, 0, 0]
  {
    var a, b := GameBytes(s + [v]), GameBytes(s) + [v, 0, 0, 0];
    forall i | 0 <= i < |a|
      ensures a[i] == b[i]
    {
      if i >= 4 * |s| { assert i / 4 == |s| && i % 4 == i - 4 * |s|; }
    }
  }

  // ---- the grid ---------------------------------------------------------------

  class Grid {
    const w: nat
    const h: nat
    var g: Rows

    ghost predicate Valid()
      reads this
    {
      Shaped(g, w, h)
    }

    constructor (width: nat, height: nat)
      ensures Valid() && w == width && h == height
      ensures forall x, y :: 0 <= x < w && 0 <= y < h ==> g[y][x] == 0
    {
      w, h := width, height;
      g := seq(height, y => seq(width, x => T_AIR));
    }

    method Set(x: int, y: int, t: int)
      requires Valid()
      modifies this`g
      ensures Valid()
      ensures forall i, j :: 0 <= i < w && 0 <= j < h ==> g[j][i] == if i == x && j == y then t else old(g)[j][i]
    {
      if 0 <= x < w && 0 <= y < h {
        g := g[y := g[y][x := t]];
      }
    }

    /** Fills the part of the rectangle that lies in the grid, both corners included. */
    method Rect(x0: int, y0: int, x1: int, y1: int, t: int)
      requires Valid()
      modifies this`g
      ensures Valid()
      ensures forall i, j :: 0 <= i < w && 0 <= j < h ==>
                g[j][i] == if x0 <= i <= x1 && y0 <= j <= y1 then t else old(g)[j][i]
    {
      var ya, yb, xa, xb := Max(0, y0), Min(h, y1 + 1), Max(0, x0), Min(w, x1 + 1);
      var y := ya;
      while y < yb
        invariant ya <= y && Valid() && (y <= yb || y == ya)
        invariant forall i, j :: 0 <= i < w && 0 <= j < h ==>
                    g[j][i] == if xa <= i < xb && ya <= j < y && j < yb then t else old(g)[j][i]
      {
        var x := xa;
        while x < xb
          invariant xa <= x && Valid() && (x <= xb || x == xa)
          invariant forall i, j :: 0 <= i < w && 0 <= j < h ==>
                      g[j][i] == if (xa <= i < xb && ya <= j < y) || (xa <= i < x && i < xb && j == y) then t
                          else old(g)[j][i]
        {
          g := g[y := g[y][x := t]];
          x := x + 1;
        }
        y := y + 1;
      }
    }

    method Floor(x0: int, x1: int, y: int)
      requires Valid()
      modifies this`g
      ensures Valid()
      ensures forall i, j :: 0 <= i < w && 0 <= j < h ==>
          g[j][i] == if x0 <= i <= x1 && y <= j then 1 else old(g)[j][i]
    {
      Rect(x0, y, x1, h - 1, T_SOLID);
    }

    /** The game layer's bytes, or ValueError when a cell is no byte. */
    method GridBytes() returns (r: Result<bytes>)
      requires Valid()
      ensures AllBytes(Flatten(g)) ==> r == Ok(GameBytes(Flatten(g)))
      ensures !AllBytes(Flatten(g)) ==> r == Err(ValueError)
      ensures r.Ok? <==> forall x, y :: 0 <= x < w && 0 <= y < h ==> 0 <= g[y][x] <= 255
    {
      CellsAreBytes(g, w);
      var buf: bytes := [];
      assert GameBytes([]) == [];
      for y := 0 to h
        invariant AllBytes(Flatten(g[..y])) && buf == GameBytes(Flatten(g[..y]))
      {
        ghost var done := Flatten(g[..y]);
        assert done + g[y][..0] == done;
        for x := 0 to w
          invariant AllBytes(done + g[y][..x]) && buf == GameBytes(done + g[y][..x])
        {
          if g[y][x] < 0 || g[y][x] >= 256 {
            FlattenAt(g, w, x, y);
            return Err(ValueError);
          }
          GameBytesPush(done + g[y][..x], g[y][x]);
          assert g[y][..x + 1] == g[y][..x] + [g[y][x]];
          assert done + g[y][..x + 1] == (done + g[y][..x]) + [g[y][x]];
          buf := buf + [g[y][x], 0, 0, 0];
        }
        assert g[y][..w] == g[y];
        assert g[..y + 1][..y] == g[..y];
      }
      assert g[..h] == g;
      r := Ok(buf);
    }

    /** Moves the pads from the grid into a numbered tele layer. */
    method LiftPads() returns (tele: bytes)
      requires Valid()
      modifies this`g
      ensures Valid() && g == LiftRows(old(g)) && tele == TeleBytes(Flatten(old(g)))
      ensures forall x, y :: 0 <= x < w && 0 <= y < h ==>
                g[y][x] == if old(g)[y][x] == 26 || old(g)[y][x] == 27 then 0 else old(g)[y][x]
    {
      hide TeleBytes, LiftRows, TeleUpTo, GridUpTo, Flatten;
      ghost var was, cells := g, Flatten(g);
      FlattenSize(g, w);
      tele := Zeros(h * w * 2);
      LiftStart(was, w, h, tele, cells);
      for y := 0 to h
        invariant Shaped(g, w, h) && |tele| == 2 * |cells|
        invariant GridUpTo(g, was, w, h, y, 0) && TeleUpTo(tele, cells, y * w)
      {
        CellBound(y, w, h);
        for x := 0 to w
          invariant Shaped(g, w, h) && |tele| == 2 * |cells|
          invariant GridUpTo(g, was, w, h, y, x) && TeleUpTo(tele, cells, y * w + x)
        {
          FlattenAt(was, w, x, y);
          GridCell(g, was, w, h, y, x);
          ghost var g0, tele0 := g, tele;
          var v, at := g[y][x], y * w + x;
          if v == T_TELEIN || v == T_TELEOUT {
            tele := tele[at * 2 := 1];
            tele := tele[at * 2 + 1 := v];
            g := g[y := g[y][x := T_AIR]];
          }
          TeleStep(tele0, tele, cells, at);
          GridStep(g0, g, was, w, h, y, x);
        }
        assert (y + 1) * w == y * w + w;
        GridNextRow(g, was, w, h, y);
      }
      LiftEnd(g, was, w, h, tele, cells);
      LiftedCells(was, w, h);
    }
  }

  lemma LiftedCells(was: Rows, w: nat, h: nat)
    requires Shaped(was, w, h)
    ensures Shaped(LiftRows(was), w, h)
    ensures forall x, y :: 0 <= x < w && 0 <= y < h ==>
              LiftRows(was)[y][x] == if was[y][x] == 26 || was[y][x] == 27 then 0 else was[y][x]
  {
  }

  /** The cells before (x, y) in reading order are lifted, the others are as they were. */
  ghost predicate GridUpTo(g: Rows, was: Rows, w: nat, h: nat, y: int, x: int) {
    && Shaped(g, w, h) && Shaped(was, w, h)
    && forall i, j :: 0 <= i < w && 0 <= j < h ==>
        g[j][i] == if j < y || (j == y && i < x) then Lifted(was[j][i]) else was[j][i]
  }

  lemma GridCell(g: Rows, was: Rows, w: nat, h: nat, y: nat, x: nat)
    requires GridUpTo(g, was, w, h, y, x) && y < h && x < w
    ensures g[y][x] == was[y][x]
  {
  }

  lemma GridStep(before: Rows, g: Rows, was: Rows, w: nat, h: nat, y: nat, x: nat)
    requires GridUpTo(before, was, w, h, y, x) && y < h && x < w
    requires g == if IsPad(was[y][x]) then before[y := before[y][x := T_AIR]] else before
    ensures GridUpTo(g, was, w, h, y, x + 1)
  {
  }

  lemma GridNextRow(g: Rows, was: Rows, w: nat, h: nat, y: nat)
    requires GridUpTo(g, was, w, h, y, w) && y < h
    ensures GridUpTo(g, was, w, h, y + 1, 0)
  {
  }

  lemma LiftStart(was: Rows, w: nat, h: nat, tele: bytes, cells: seq<int>)
    requires Shaped(was, w, h) && cells == Flatten(was) && tele == Zeros(h * w * 2) && |cells| == h * w
    ensures GridUpTo(was, was, w, h, 0, 0) && TeleUpTo(tele, cells, 0 * w)
  {
  }

  lemma LiftEnd(g: Rows, was: Rows, w: nat, h: nat, tele: bytes, cells: seq<int>)
    requires GridUpTo(g, was, w, h, h, 0) && |cells| == h * w && TeleUpTo(tele, cells, h * w)
    ensures g == LiftRows(was) && tele == TeleBytes(cells)
  {
    forall j | 0 <= j < h
      ensures g[j] == LiftRow(was[j])
    {
    }
  }

  lemma CellBound(y: nat, w: nat, h: nat)
    requires y < h
    ensures y * w + w <= h * w
  {
    var rest := h - y;
    assert h * w == y * w + rest * w;
    assert rest * w == (rest - 1) * w + w;
  }

  /** The first k cells are written, the rest is still zero. */
  ghost predicate TeleUpTo(tele: bytes, cells: seq<int>, k: int) {
    && |tele| == 2 * |cells|
    && forall i :: 0 <= i < |tele| ==> tele[i] == if i < 2 * k then TeleBytes(cells)[i] else 0
  }

  lemma TeleAt(cells: seq<int>, k: nat)
    requires k < |cells| && (IsPad(cells[k]) ==> IsByte(cells[k]))
    ensures TeleBytes(cells)[k * 2] == if IsPad(cells[k]) then 1 else 0
    ensures TeleBytes(cells)[k * 2 + 1] == if IsPad(cells[k]) then cells[k] else 0
  {
    assert (k * 2) / 2 == k && (k * 2 + 1) / 2 == k && (k * 2) % 2 == 0 && (k * 2 + 1) % 2 == 1;
  }

  lemma TeleStep(was: bytes, now: bytes, cells: seq<int>, k: nat)
    requires k < |cells| && (IsPad(cells[k]) ==> IsByte(cells[k])) && TeleUpTo(was, cells, k)
    requires now == if IsPad(cells[k]) then was[k * 2 := 1][k * 2 + 1 := cells[k]] else was
    ensures TeleUpTo(now, cells, k + 1)
  {
    hide TeleBytes, IsPad, IsByte;
    TeleAt(cells, k);
    var all := TeleBytes(cells);
    forall i | 0 <= i < |now|
      ensures now[i] == if i < 2 * (k + 1) then all[i] else 0
    {
      if i != k * 2 && i != k * 2 + 1 { assert now[i] == was[i]; }
    }
  }

  // ---- the map ---------------------------------------------------------------

  function Ascii(s: string): bytes { seq(|s|, k requires 0 <= k < |s| => s[k] as int % 256) }

  /** What a map is dressed with: decided elsewhere, and without effect on play. */
  datatype Dressing = Dressing(credits: bytes, style: bytes, visual: bytes, sky: seq<bytes>, depth: seq<bytes>,
    light: seq<bytes>, points: seq<int>)

  const FAR: seq<int> := GroupPayload(0, 0, 0, 0, 0, 1, Ascii("Far"))
  const MID: seq<int> := GroupPayload(0, 0, 35, 0, 1, 1, Ascii("Mid"))
  const GAME: seq<int> := GroupPayload(0, 0, 100, 100, 2, 4, Ascii("Game"))
  const ENVELOPE: seq<int> := [2, 4, 0, 17] + PackName(Ascii("Material light"), 8) + [1]

  /** Payloads by type, in the order of their ids. */
  type Filed = map<int, seq<seq<int>>>

  function Of(filed: Filed, t: int): seq<seq<int>> { if t in filed then filed[t] else [] }

  function Also(filed: Filed, t: int, p: seq<int>): Filed { filed[t := Of(filed, t) + [p]] }

  /** The version, the info and the four images, whose texts are blobs 0 to 7. */
  function HeadItems(): Filed {
    map[0 := [[1]], INFO := [[1, 0, 1, 2, 3, -1]],
        IMAGE := [[1, 1536, 768, 1, 4, -1], [1, 1024, 512, 1, 5, -1], [1, 1024, 1024, 1, 6, -1],
            [1, 128, 128, 1, 7, -1]]]
  }

  function HeadBlobs(dress: Dressing): seq<bytes> {
    var prefix := Ascii("neonrelay_") + dress.style;
    [Ascii("The Neon Relay Authors") + [0], Ascii("1") + [0], dress.credits + [0], Ascii("Zlib") + [0],
     prefix + Ascii("_sky") + [0], prefix + Ascii("_mid") + [0], prefix + Ascii("_tiles") + [0],
     Ascii("neonrelay_pulse") + [0]]
  }

  /** The light envelope, four scenery layers over blobs 8 to 11 and two of the groups. */
  function SceneryItems(dress: Dressing, w: int, h: int): Filed {
    HeadItems()[3 := [ENVELOPE]][6 := [dress.points]][LAYER := SceneryLayers(dress, w, h)][GROUP := [FAR, MID]]
  }

  function SceneryLayers(dress: Dressing, w: int, h: int): seq<seq<int>> {
    [QuadsPayload(|dress.sky|, 8, 0, Ascii("Atmosphere")), QuadsPayload(|dress.depth|, 9, 1, Ascii("Depth")),
     TilesPayload(w, h, 0, 0, 2, 10, Ascii("Materials"), -1), QuadsPayload(|dress.light|, 11, 3, Ascii("Light"))]
  }

  function SceneryBlobs(dress: Dressing): seq<bytes> {
    HeadBlobs(dress) + [Concat(dress.sky), Concat(dress.depth), dress.visual, Concat(dress.light)]
  }

  /** The game layer over blob 12, the tele layer over blobs 13 and 14, and the group around them. */
  function MapItems(dress: Dressing, w: int, h: int): Filed {
    SceneryItems(dress, w, h)[LAYER := MapLayerList(dress, w, h)][GROUP := [FAR, MID, GAME]]
  }

  function MapLayerList(dress: Dressing, w: int, h: int): seq<seq<int>> {
    SceneryLayers(dress, w, h)
    + [TilesPayload(w, h, 1, 0, 2, 12, Ascii("Game"), -1), TilesPayload(w, h, 2, 0, 2, 14, Ascii("Tele"), 13)]
  }

  function MapBlobs(dress: Dressing, w: nat, h: nat, cells: seq<int>): seq<bytes> {
    SceneryBlobs(dress) + [GameBytes(LiftRow(cells)), TeleBytes(cells), Zeros(w * h * 4)]
  }

  /** The item types other than layers are long enough for the reader. */
  predicate Long(t: int, p: seq<int>) {
    (t == INFO || t == IMAGE ==> |p| >= 5) && (t == GROUP ==> |p| >= 7)
  }

  /** A writer filled through `item` only, n times at most: the payloads are filed under ids that count
      up from 0 in every type. */
  ghost predicate Counted(d: Doc, filed: Filed, n: nat) {
    && d.items.Keys == d.nextId.Keys == filed.Keys
    && (forall t :: t in d.items ==> d.nextId[t] == |d.items[t]| <= n)
    && (forall t, k :: t in d.items && 0 <= k < |d.items[t]| ==>
        d.items[t][k].id == k && Long(t, d.items[t][k].payload))
    && (forall t :: t in d.items ==> Payloads(d.items[t]) == filed[t])
  }

  /** The contents that `write_map` saves: every item and every blob. */
  ghost predicate IsMap(c: Contents, dress: Dressing, w: nat, h: nat, cells: seq<int>) {
    c.raws == MapBlobs(dress, w, h, cells)
        && exists next :: Counted(Doc(c.raws, c.items, next), MapItems(dress, w, h), 17)
  }

  // ---- building it ------------------------------------------------------------

  lemma PushedPayload(xs: seq<Item>, x: Item)
    ensures Payloads(xs + [x]) == Payloads(xs) + [x.payload]
  {
  }

  /** Blobs may come in between; the items are what counts. */
  lemma CountedItem(d: Doc, before: Doc, filed: Filed, n: nat, t: int, p: seq<int>)
    requires Counted(d, filed, n) && Long(t, p) && before.items == d.items && before.nextId == d.nextId
    ensures Counted(AddItem(before, t, p), Also(filed, t, p), n + 1)
    ensures NextId(d.nextId, t) == |Of(filed, t)|
  {
    hide Long, Payloads;
    PushedPayload(ListOf(d.items, t), Item(NextId(d.nextId, t), p));
    assert Payloads([]) == [] by { NoPayloads(); }
  }

  lemma NoPayloads()
    ensures Payloads([]) == []
  {
  }

  lemma CountedSame(d: Doc, e: Doc, filed: Filed, n: nat)
    requires Counted(d, filed, n) && d.items == e.items && d.nextId == e.nextId
    ensures Counted(e, filed, n)
  {
  }

  method PutRaw(m: MapWriter, blob: bytes, ghost filed: Filed, ghost n: nat) returns (index: int)
    requires m.Valid() && Counted(m.Value(), filed, n)
    modifies m
    ensures m.Valid() && Counted(m.Value(), filed, n) && m.raws == old(m.raws) + [blob] && index == |old(m.raws)|
  {
    hide Counted, Numbered;
    ghost var before := m.Value();
    index := m.Raw(blob);
    CountedSame(before, m.Value(), filed, n);
  }

  method PutItem(m: MapWriter, t: int, p: seq<int>, ghost filed: Filed, ghost n: nat)
    requires m.Valid() && Counted(m.Value(), filed, n) && Long(t, p)
    modifies m
    ensures m.Valid() && Counted(m.Value(), Also(filed, t, p), n + 1) && m.raws == old(m.raws)
  {
    hide Counted, Also, Numbered, Long;
    CountedItem(m.Value(), m.Value(), filed, n, t, p);
    var _ := m.Item(t, p);
  }

  method PutImage(m: MapWriter, name: bytes, w: int, h: int, ghost filed: Filed, ghost n: nat) returns (id: int)
    requires m.Valid() && Counted(m.Value(), filed, n)
    modifies m
    ensures m.Valid() && Counted(m.Value(), Also(filed, IMAGE, [1, w, h, 1, |old(m.raws)|, -1]), n + 1)
    ensures m.raws == old(m.raws) + [name + [0]] && id == |Of(filed, IMAGE)|
  {
    hide Counted, Also, Numbered, Of;
    CountedItem(m.Value(), AddString(m.Value(), name), filed, n, IMAGE, [1, w, h, 1, |m.raws|, -1]);
    id := m.Image(name, w, h);
  }

  method PutQuads(m: MapWriter, quads: seq<bytes>, image: int, name: bytes, ghost filed: Filed, ghost n: nat)
    requires m.Valid() && Counted(m.Value(), filed, n)
    modifies m
    ensures m.Valid()
    ensures Counted(m.Value(), Also(filed, LAYER, QuadsPayload(|quads|, |old(m.raws)|, image, name)), n + 1)
    ensures m.raws == old(m.raws) + [Concat(quads)]
  {
    hide Counted, Also, Numbered, QuadsPayload, Concat;
    CountedItem(m.Value(), AddRaw(m.Value(), Concat(quads)), filed, n, LAYER,
        QuadsPayload(|quads|, |m.raws|, image, name));
    m.QuadsLayer(quads, image, name);
  }

  method PutTiles(m: MapWriter, w: int, h: int, tiles: bytes, image: int, flags: int, name: bytes, tele: int,
          ghost filed: Filed, ghost n: nat)
    requires m.Valid() && Counted(m.Value(), filed, n)
    modifies m
    ensures m.Valid()
    ensures var p := TilesPayload(w, h, flags, 0, image, |old(m.raws)|, name, tele);
            Counted(m.Value(), Also(filed, LAYER, p), n + 1)
    ensures m.raws == old(m.raws) + [tiles]
  {
    hide Counted, Also, Numbered, TilesPayload;
    CountedItem(m.Value(), AddRaw(m.Value(), tiles), filed, n, LAYER,
      TilesPayload(w, h, flags, 0, image, |m.raws|, name, tele));
    m.TilesLayer(w, h, tiles, image, flags, 0, name, tele);
  }

  method PutInfo(m: MapWriter, author: bytes, version: bytes, credits: bytes, license: bytes, ghost filed: Filed,
          ghost n: nat)
    requires m.Valid() && Counted(m.Value(), filed, n) && m.raws == []
    modifies m
    ensures m.Valid() && Counted(m.Value(), Also(filed, INFO, [1, 0, 1, 2, 3, -1]), n + 1)
    ensures m.raws == [author + [0], version + [0], credits + [0], license + [0]]
  {
    hide Counted, Also, Numbered;
    CountedItem(m.Value(), AddString(AddString(AddString(AddString(m.Value(), author), version), credits), license),
      filed, n, INFO, [1, 0, 1, 2, 3, -1]);
    m.Info(author, version, credits, license);
  }

  lemma NothingCounted()
    ensures Counted(Doc([], map[], map[]), map[], 0)
  {
  }

  lemma HeadChain()
    ensures Also(Also(Also(Also(Also(Also(map[], 0, [1]), INFO, [1, 0, 1, 2, 3, -1]), IMAGE, [1, 1536, 768, 1, 4, -1]),
              IMAGE, [1, 1024, 512, 1, 5, -1]), IMAGE, [1, 1024, 1024, 1, 6, -1]), IMAGE, [1, 128, 128, 1, 7, -1])
            == HeadItems()
    ensures |Of(Also(Also(map[], 0, [1]), INFO, [1, 0, 1, 2, 3, -1]), IMAGE)| == 0
  {
    var a, b, c, d := [1, 1536, 768, 1, 4, -1], [1, 1024, 512, 1, 5, -1], [1, 1024, 1024, 1, 6, -1],
        [1, 128, 128, 1, 7, -1];
    assert [] + [a] + [b] + [c] + [d] == [a, b, c, d];
    var version, info := [1], [1, 0, 1, 2, 3, -1];
    assert [] + [version] == [version] && [] + [info] == [info];
  }

  lemma AlsoLonger(filed: Filed, t: int, p: seq<int>)
    ensures |Of(Also(filed, t, p), t)| == |Of(filed, t)| + 1
  {
  }

  /** What the map says about itself, and the four images. */
  method FileHead(m: MapWriter, dress: Dressing) returns (sky: int, mid: int, tile: int, light: int)
    requires m.Valid() && m.Value() == Doc([], map[], map[])
    modifies m
    ensures m.Valid() && Counted(m.Value(), HeadItems(), 6) && m.raws == HeadBlobs(dress)
    ensures sky == 0 && mid == 1 && tile == 2 && light == 3
  {
    hide Counted, Ascii, MapWriter.Valid;
    ghost var filed: Filed := map[];
    NothingCounted();
    hide Also, HeadItems;
    PutItem(m, 0, [1], filed, 0);
    filed := Also(filed, 0, [1]);
    PutInfo(m, Ascii("The Neon Relay Authors"), Ascii("1"), dress.credits, Ascii("Zlib"), filed, 1);
    filed := Also(filed, INFO, [1, 0, 1, 2, 3, -1]);
    var prefix := Ascii("neonrelay_") + dress.style;
    sky := PutImage(m, prefix + Ascii("_sky"), 1536, 768, filed, 2);
    HeadChain();
    AlsoLonger(filed, IMAGE, [1, 1536, 768, 1, 4, -1]);
    filed := Also(filed, IMAGE, [1, 1536, 768, 1, 4, -1]);
    mid := PutImage(m, prefix + Ascii("_mid"), 1024, 512, filed, 3);
    AlsoLonger(filed, IMAGE, [1, 1024, 512, 1, 5, -1]);
    filed := Also(filed, IMAGE, [1, 1024, 512, 1, 5, -1]);
    tile := PutImage(m, prefix + Ascii("_tiles"), 1024, 1024, filed, 4);
    AlsoLonger(filed, IMAGE, [1, 1024, 1024, 1, 6, -1]);
    filed := Also(filed, IMAGE, [1, 1024, 1024, 1, 6, -1]);
    light := PutImage(m, Ascii("neonrelay_pulse"), 128, 128, filed, 5);
    filed := Also(filed, IMAGE, [1, 128, 128, 1, 7, -1]);
  }

  lemma HeadCount(dress: Dressing)
    ensures |HeadBlobs(dress)| == 8
  {
  }

  lemma SceneryChain(dress: Dressing, w: int, h: int)
    ensures Also(Also(Also(Also(Also(Also(Also(Also(HeadItems(), 3, ENVELOPE), 6, dress.points),
              LAYER, QuadsPayload(|dress.sky|, 8, 0, Ascii("Atmosphere"))), GROUP, FAR),
              LAYER, QuadsPayload(|dress.depth|, 9, 1, Ascii("Depth"))), GROUP, MID),
              LAYER, TilesPayload(w, h, 0, 0, 2, 10, Ascii("Materials"), -1)),
              LAYER, QuadsPayload(|dress.light|, 11, 3, Ascii("Light"))) == SceneryItems(dress, w, h)
  {
    hide QuadsPayload, TilesPayload, Ascii;
    var a, b := QuadsPayload(|dress.sky|, 8, 0, Ascii("Atmosphere")), QuadsPayload(|dress.depth|, 9, 1, Ascii("Depth"));
    var c, d := TilesPayload(w, h, 0, 0, 2, 10, Ascii("Materials"), -1),
        QuadsPayload(|dress.light|, 11, 3, Ascii("Light"));
    assert [] + [a] + [b] + [c] + [d] == SceneryLayers(dress, w, h);
    assert [] + [FAR] + [MID] == [FAR, MID] && [] + [ENVELOPE] == [ENVELOPE] && [] + [dress.points] == [dress.points];
  }

  lemma MapChain(dress: Dressing, w: int, h: int)
    ensures Also(Also(Also(SceneryItems(dress, w, h), LAYER, TilesPayload(w, h, 1, 0, 2, 12, Ascii("Game"), -1)),
              LAYER, TilesPayload(w, h, 2, 0, 2, 14, Ascii("Tele"), 13)), GROUP, GAME) == MapItems(dress, w, h)
  {
    hide TilesPayload, Ascii, SceneryLayers, HeadItems;
    var g, t := TilesPayload(w, h, 1, 0, 2, 12, Ascii("Game"), -1),
        TilesPayload(w, h, 2, 0, 2, 14, Ascii("Tele"), 13);
    assert SceneryLayers(dress, w, h) + [g] + [t] == MapLayerList(dress, w, h);
    assert [FAR, MID] + [GAME] == [FAR, MID, GAME];
  }

  /** Envelope, backgrounds and terrain: the layers and groups in front of the game layer. */
  method Scenery(m: MapWriter, dress: Dressing, w: int, h: int, sky: int, mid: int, tile: int, light: int)
    requires m.Valid() && Counted(m.Value(), HeadItems(), 6) && m.raws == HeadBlobs(dress)
    requires sky == 0 && mid == 1 && tile == 2 && light == 3
    modifies m
    ensures m.Valid() && Counted(m.Value(), SceneryItems(dress, w, h), 14) && m.raws == SceneryBlobs(dress)
  {
    hide Counted, Ascii, MapWriter.Valid, MapWriter.Value, QuadsPayload, TilesPayload, PackName, Concat, Also,
      HeadItems, SceneryItems;
    HeadCount(dress);
    hide HeadBlobs;
    ghost var filed := HeadItems();
    PutItem(m, 3, ENVELOPE, filed, 6);
    filed := Also(filed, 3, ENVELOPE);
    PutItem(m, 6, dress.points, filed, 7);
    filed := Also(filed, 6, dress.points);
    PutQuads(m, dress.sky, sky, Ascii("Atmosphere"), filed, 8);
    filed := Also(filed, LAYER, QuadsPayload(|dress.sky|, 8, 0, Ascii("Atmosphere")));
    PutItem(m, GROUP, FAR, filed, 9);
    filed := Also(filed, GROUP, FAR);
    PutQuads(m, dress.depth, mid, Ascii("Depth"), filed, 10);
    filed := Also(filed, LAYER, QuadsPayload(|dress.depth|, 9, 1, Ascii("Depth")));
    PutItem(m, GROUP, MID, filed, 11);
    filed := Also(filed, GROUP, MID);
    PutTiles(m, w, h, dress.visual, tile, 0, Ascii("Materials"), -1, filed, 12);
    filed := Also(filed, LAYER, TilesPayload(w, h, 0, 0, 2, 10, Ascii("Materials"), -1));
    PutQuads(m, dress.light, light, Ascii("Light"), filed, 13);
    filed := Also(filed, LAYER, QuadsPayload(|dress.light|, 11, 3, Ascii("Light")));
    SceneryChain(dress, w, h);
    assert m.raws == SceneryBlobs(dress);
  }

  lemma {:induction false} LiftFlatten(g: Rows)
    ensures Flatten(LiftRows(g)) == LiftRow(Flatten(g))
  {
    if g != [] {
      var n := |g| - 1;
      LiftFlatten(g[..n]);
      assert LiftRows(g)[..n] == LiftRows(g[..n]);
    }
  }

  /** The game layer, the tele layer and the group around them. */
  method GamePart(m: MapWriter, dress: Dressing, w: nat, h: nat, tile: int, game: bytes, tele: bytes,
          ghost cells: seq<int>)
    requires m.Valid() && Counted(m.Value(), SceneryItems(dress, w, h), 14) && m.raws == SceneryBlobs(dress)
    requires tile == 2 && game == GameBytes(LiftRow(cells)) && tele == TeleBytes(cells)
    modifies m
    ensures m.Valid() && Counted(m.Value(), MapItems(dress, w, h), 17) && m.raws == MapBlobs(dress, w, h, cells)
  {
    SceneryCount(dress, w, h);
    hide Counted, Ascii, MapWriter.Valid, TilesPayload, LiftRow, GameBytes, TeleBytes, SceneryBlobs, SceneryItems,
      SceneryLayers, Also, MapItems;
    ghost var filed := SceneryItems(dress, w, h);
    PutTiles(m, w, h, game, tile, 1, Ascii("Game"), -1, filed, 14);
    filed := Also(filed, LAYER, TilesPayload(w, h, 1, 0, 2, 12, Ascii("Game"), -1));
    var teleIdx := PutRaw(m, tele, filed, 15);
    var zero := Zeros(w * h * 4);
    PutTiles(m, w, h, zero, tile, 2, Ascii("Tele"), teleIdx, filed, 15);
    filed := Also(filed, LAYER, TilesPayload(w, h, 2, 0, 2, 14, Ascii("Tele"), 13));
    PutItem(m, GROUP, GAME, filed, 16);
    MapChain(dress, w, h);
  }

  /** `write_map`: lifts the pads, files info, images, layers and groups and saves. The cells must be
      bytes. */
  method WriteMap(grid: Grid, dress: Dressing, z: Zlib) returns (r: Result<bytes>)
    requires grid.Valid()
    modifies grid`g
    ensures grid.Valid() && grid.g == LiftRows(old(grid.g))
    ensures !AllBytes(Flatten(grid.g)) ==> r == Err(ValueError)
    ensures AllBytes(Flatten(grid.g)) ==>
              exists c :: IsMap(c, dress, grid.w, grid.h, Flatten(old(grid.g))) && r == Encode(c, z)
  {
    hide Counted, Ascii, MapWriter.Valid, LiftRows, LiftRow, GameBytes, TeleBytes, AllBytes, Flatten, Encode,
      SceneryBlobs, SceneryItems, MapItems, MapBlobs;
    ghost var cells := Flatten(grid.g);
    LiftFlatten(grid.g);
    var m := new MapWriter();
    var sky, mid, tile, light := FileHead(m, dress);
    var tele := grid.LiftPads();
    Scenery(m, dress, grid.w, grid.h, sky, mid, tile, light);
    var game := grid.GridBytes();
    if game.Err? { return Err(game.error); }
    GamePart(m, dress, grid.w, grid.h, tile, game.value, tele, cells);
    ghost var c := Contents(m.raws, m.items);
    assert Doc(c.raws, c.items, m.nextId) == m.Value();
    assert IsMap(c, dress, grid.w, grid.h, cells);
    r := m.Save(z);
  }

  lemma SceneryCount(dress: Dressing, w: int, h: int)
    ensures |SceneryBlobs(dress)| == 12
    ensures Of(SceneryItems(dress, w, h), LAYER) == SceneryLayers(dress, w, h)
    ensures Of(SceneryItems(dress, w, h), GROUP) == [FAR, MID]
  {
  }

  // ---- reading it back ---------------------------------------------------------

  predicate OthersReadable(c: Contents) {
    forall t, k :: t in c.items && t != LAYER && 0 <= k < |c.items[t]| ==>
                     Readable(FlatItem(t, c.items[t][k].id, c.items[t][k].payload), c.raws)
  }

  lemma CountedHolds(d: Doc, filed: Filed, n: nat)
    requires Counted(d, filed, n) && n < 0x1_0000
    ensures ShortIds(Contents(d.raws, d.items)) && OthersReadable(Contents(d.raws, d.items))
    ensures forall t :: InOrder(ListOf(d.items, t))
    ensures forall t :: Payloads(ListOf(d.items, t)) == Of(filed, t)
  {
    hide Payloads;
    NoPayloads();
  }

  lemma GridReadable(c: Contents)
    requires OthersReadable(c)
    requires forall k :: 0 <= k < |ListOf(c.items, LAYER)| ==> LayerOf(0, ListOf(c.items, LAYER)[k].payload, c.raws).Ok?
    ensures AllReadable(c.items, c.raws)
  {
    hide LayerOf;
    forall t, k | t in c.items && 0 <= k < |c.items[t]|
      ensures Readable(FlatItem(t, c.items[t][k].id, c.items[t][k].payload), c.raws)
    {
      if t == LAYER { assert ListOf(c.items, LAYER)[k] == c.items[t][k]; }
    }
  }

  /** Tele type where there is one, else the game index. */
  function Overlay(view: View, x: int, y: int): Option<int> {
    match (FirstWith(view.layers, F_GAME), FirstWith(view.layers, F_TELE))
    case (Some(game), Some(tele)) =>
      if game.tiles.None? || tele.tele.None? then None else
      (match (game.tiles.value.Index(x, y), tele.tele.value.Index(x, y))
       case (Ok(g), Ok(t)) => Some(if t != 0 then t else g)
       case _ => None)
    case _ => None
  }

  lemma OverlayCell(w: nat, h: nat, cells: seq<int>, x: nat, y: nat, game: TileArray, tele: TileArray)
    requires AllBytes(cells) && |cells| == h * w && x < w && y < h
    requires game == TileArray(w, h, GameBytes(LiftRow(cells)), 4, 0, 1)
        && tele == TileArray(w, h, TeleBytes(cells), 2, 1, 1)
    ensures 0 <= y * w + x < |cells|
    ensures var v := cells[y * w + x]; var pad := v == 26 || v == 27;
            && game.Index(x, y) == Ok(if pad then 0 else v) && game.Flags(x, y) == Ok(0)
            && tele.Index(x, y) == Ok(if pad then v else 0)
            && 0 <= (y * w + x) * 2 < |tele.data| && tele.data[(y * w + x) * 2] == (if pad then 1 else 0)
  {
    CellBound(y, w, h);
    var k := y * w + x;
    assert IsByte(cells[k]);
    assert k * 4 / 4 == k && k * 4 % 4 == 0 && (k * 4 + 1) / 4 == k && (k * 4 + 1) % 4 == 1;
    assert k * 2 / 2 == k && k * 2 % 2 == 0 && (k * 2 + 1) / 2 == k && (k * 2 + 1) % 2 == 1;
  }

  lemma MapParts(c: Contents, dress: Dressing, w: nat, h: nat, cells: seq<int>)
    requires IsMap(c, dress, w, h, cells)
    ensures ShortIds(c) && OthersReadable(c) && forall t :: InOrder(ListOf(c.items, t))
    ensures Payloads(ListOf(c.items, LAYER)) == MapLayerList(dress, w, h)
    ensures Payloads(ListOf(c.items, GROUP)) == [FAR, MID, GAME]
    ensures Payloads(ListOf(c.items, IMAGE)) == HeadItems()[IMAGE]
        && Payloads(ListOf(c.items, INFO)) == HeadItems()[INFO]
    ensures |c.raws| == 15 && c.raws[..8] == HeadBlobs(dress)
    ensures c.raws[8] == Concat(dress.sky) && c.raws[9] == Concat(dress.depth) && c.raws[11] == Concat(dress.light)
    ensures c.raws[10] == dress.visual && c.raws[12] == GameBytes(LiftRow(cells)) && c.raws[13] == TeleBytes(cells)
    ensures c.raws[14] == Zeros(w * h * 4)
  {
    hide Counted, ShortIds, OthersReadable, InOrder, Payloads, MapLayerList, Ascii, GameBytes, TeleBytes, LiftRow,
      Concat;
    var next :| Counted(Doc(c.raws, c.items, next), MapItems(dress, w, h), 17);
    CountedHolds(Doc(c.raws, c.items, next), MapItems(dress, w, h), 17);
    assert Of(MapItems(dress, w, h), LAYER) == MapLayerList(dress, w, h);
    assert Of(MapItems(dress, w, h), GROUP) == [FAR, MID, GAME];
  }

  /** A layer narrower than two cells is not decoded. */
  function Wide(w: nat, a: TileArray): Option<TileArray> { if w >= 2 then Some(a) else None }

  lemma TeleFlags()
    ensures !Has(0, F_TELE) && !Has(F_GAME, F_TELE) && Has(F_TELE, F_TELE)
  {
  }

  /** The six layers, decoded: only two of them count for physics. */
  lemma MapLayersDecode(dress: Dressing, w: nat, h: nat, raws: seq<bytes>, k: nat)
    requires |raws| == 15 && k < 6
    ensures var l := LayerOf(k, MapLayerList(dress, w, h)[k], raws);
            && l.Ok? && l.value.flags == (if k == 4 then F_GAME else if k == 5 then F_TELE else 0)
            && (k == 4 ==> l.value.tiles == Wide(w, TileArray(w, h, raws[12], 4, 0, 1)))
            && (k == 5 ==> l.value.tele == Wide(w, TileArray(w, h, raws[13], 2, 1, 1)))
    ensures LayerOf(0, MapLayerList(dress, w, h)[k], raws).Ok?
  {
    hide LayerOf, TilesPayload, QuadsPayload, Ascii, Has;
    TeleFlags();
    var p := MapLayerList(dress, w, h)[k];
    if k == 0 {
      QuadsDecode(k, |dress.sky|, 8, 0, Ascii("Atmosphere"), raws);
    } else if k == 1 {
      QuadsDecode(k, |dress.depth|, 9, 1, Ascii("Depth"), raws);
    } else if k == 2 {
      TilesDecode(k, w, h, 0, 0, 2, 10, Ascii("Materials"), -1, raws);
    } else if k == 3 {
      QuadsDecode(k, |dress.light|, 11, 3, Ascii("Light"), raws);
    } else if k == 4 {
      TilesDecode(k, w, h, 1, 0, 2, 12, Ascii("Game"), -1, raws);
    } else {
      TilesDecode(k, w, h, 2, 0, 2, 14, Ascii("Tele"), 13, raws);
    }
    LayerAnywhere(k, p, raws);
  }

  lemma MapReadable(c: Contents, dress: Dressing, w: nat, h: nat, cells: seq<int>)
    requires IsMap(c, dress, w, h, cells)
    ensures AllReadable(c.items, c.raws) && |ListOf(c.items, LAYER)| == 6
    ensures forall k :: 0 <= k < 6 ==> ListOf(c.items, LAYER)[k].payload == MapLayerList(dress, w, h)[k]
  {
    hide IsMap, LayerOf, MapLayerList, ShortIds, OthersReadable, InOrder;
    MapParts(c, dress, w, h, cells);
    var xs, ps := ListOf(c.items, LAYER), MapLayerList(dress, w, h);
    assert |ps| == 6 by { SixLayers(dress, w, h); }
    assert forall k :: 0 <= k < |xs| ==> Payloads(xs)[k] == xs[k].payload;
    forall k | 0 <= k < |xs|
      ensures LayerOf(0, xs[k].payload, c.raws).Ok?
    {
      MapLayersDecode(dress, w, h, c.raws, k);
    }
    GridReadable(c);
  }

  lemma SixLayers(dress: Dressing, w: int, h: int)
    ensures |MapLayerList(dress, w, h)| == 6
  {
  }

  /** The layers of such a writer, as the gallery reader sees them. */
  lemma GridLayers(c: Contents, z: Zlib, dress: Dressing, w: nat, h: nat, cells: seq<int>)
    requires z.Inverse() && Encode(c, z).Ok? && IsMap(c, dress, w, h, cells)
    ensures Parse(Encode(c, z).value, z).Ok?
    ensures var layers := Parse(Encode(c, z).value, z).value.2.layers;
            var (game, tele) := (FirstWith(layers, F_GAME), FirstWith(layers, F_TELE));
            && |layers| == 6
            && game.Some? && game.value.tiles == Wide(w, TileArray(w, h, GameBytes(LiftRow(cells)), 4, 0, 1))
            && tele.Some? && tele.value.tele == Wide(w, TileArray(w, h, TeleBytes(cells), 2, 1, 1))
  {
    hide Encode, Parse, LayerOf, IsMap, ShortIds, GameBytes, TeleBytes, MapLayerList, OthersReadable, InOrder,
      AllReadable, FirstWith;
    MapParts(c, dress, w, h, cells);
    MapReadable(c, dress, w, h, cells);
    LayersAfterSave(c, z);
    var layers := Parse(Encode(c, z).value, z).value.2.layers;
    forall k | 0 <= k < 6
      ensures layers[k].flags == if k == 4 then F_GAME else if k == 5 then F_TELE else 0
    {
      MapLayersDecode(dress, w, h, c.raws, k);
    }
    MapLayersDecode(dress, w, h, c.raws, 4);
    MapLayersDecode(dress, w, h, c.raws, 5);
    FirstWithIs(layers, F_GAME, 4);
    FirstWithIs(layers, F_TELE, 5);
  }

  /** A quads layer over its quads, an image and a name. */
  predicate Pictures(l: Layer, quads: seq<bytes>, image: int, name: string, raws: seq<bytes>) {
    && l.layerType == 3 && l.flags == 0 && l.numQuads == |quads| && l.image == image && l.name == Ascii(name)
    && 0 <= l.dataIndex < |raws| && raws[l.dataIndex] == Concat(quads)
  }

  /** A tiles layer over its tiles, the third image and a name. */
  predicate Tiled(l: Layer, w: nat, h: nat, flags: int, tiles: bytes, name: string, raws: seq<bytes>) {
    && l.layerType == 2 && l.width == w && l.height == h && l.flags == flags && l.image == 2 && l.name == Ascii(name)
    && 0 <= l.dataIndex < |raws| && raws[l.dataIndex] == tiles
  }

  lemma PicturesAt(i: int, quads: seq<bytes>, data: int, image: int, name: string, raws: seq<bytes>)
    requires |name| <= 10 && forall k :: 0 <= k < |name| ==> name[k] as int % 256 != 0
    requires 0 <= data < |raws| && raws[data] == Concat(quads)
    ensures var l := LayerOf(i, QuadsPayload(|quads|, data, image, Ascii(name)), raws);
            l.Ok? && Pictures(l.value, quads, image, name, raws)
  {
    hide LayerOf, QuadsPayload, Concat, PackName, IntsToStr;
    QuadsDecode(i, |quads|, data, image, Ascii(name), raws);
    NameSurvives(Ascii(name), 3);
  }

  lemma TiledAt(i: int, w: nat, h: nat, flags: int, data: int, tele: int, name: string, raws: seq<bytes>)
    requires |name| <= 10 && forall k :: 0 <= k < |name| ==> name[k] as int % 256 != 0
    requires 0 <= data < |raws| && tele < |raws|
    ensures var l := LayerOf(i, TilesPayload(w, h, flags, 0, 2, data, Ascii(name), tele), raws);
            l.Ok? && Tiled(l.value, w, h, flags, raws[data], name, raws)
  {
    hide LayerOf, TilesPayload, PackName, IntsToStr, Has;
    TilesDecode(i, w, h, flags, 0, 2, data, Ascii(name), tele, raws);
    NameSurvives(Ascii(name), 3);
  }

  /** The six layers with what they show. */
  ghost predicate ShowsLayers(ls: seq<Layer>, dress: Dressing, w: nat, h: nat, cells: seq<int>, raws: seq<bytes>) {
    && |ls| == 6
    && Pictures(ls[0], dress.sky, 0, "Atmosphere", raws) && Pictures(ls[1], dress.depth, 1, "Depth", raws)
    && Tiled(ls[2], w, h, 0, dress.visual, "Materials", raws) && Pictures(ls[3], dress.light, 3, "Light", raws)
    && Tiled(ls[4], w, h, 1, GameBytes(LiftRow(cells)), "Game", raws)
    && Tiled(ls[5], w, h, 2, Zeros(w * h * 4), "Tele", raws)
  }

  lemma LayersShown(ls: seq<Layer>, dress: Dressing, w: nat, h: nat, cells: seq<int>, raws: seq<bytes>)
    requires |raws| == 15 && |ls| == 6
    requires raws[8] == Concat(dress.sky) && raws[9] == Concat(dress.depth) && raws[11] == Concat(dress.light)
    requires raws[10] == dress.visual && raws[12] == GameBytes(LiftRow(cells)) && raws[14] == Zeros(w * h * 4)
    requires forall k :: 0 <= k < 6 ==> LayerOf(k, MapLayerList(dress, w, h)[k], raws) == Ok(ls[k])
    ensures ShowsLayers(ls, dress, w, h, cells, raws)
  {
    hide LayerOf, Concat, QuadsPayload, TilesPayload, Pictures, Tiled, Ascii, GameBytes, LiftRow;
    var ps := MapLayerList(dress, w, h);
    PicturesAt(0, dress.sky, 8, 0, "Atmosphere", raws);
    PicturesAt(1, dress.depth, 9, 1, "Depth", raws);
    TiledAt(2, w, h, 0, 10, -1, "Materials", raws);
    PicturesAt(3, dress.light, 11, 3, "Light", raws);
    TiledAt(4, w, h, 1, 12, -1, "Game", raws);
    TiledAt(5, w, h, 2, 14, 13, "Tele", raws);
    assert LayerOf(0, ps[0], raws) == Ok(ls[0]) && LayerOf(1, ps[1], raws) == Ok(ls[1]);
    assert LayerOf(2, ps[2], raws) == Ok(ls[2]) && LayerOf(3, ps[3], raws) == Ok(ls[3]);
    assert LayerOf(4, ps[4], raws) == Ok(ls[4]) && LayerOf(5, ps[5], raws) == Ok(ls[5]);
  }

  /** So the gallery reader sees backgrounds, terrain, lights, the grid and the tele layer, each under its
      name with its image and its data. */
  lemma LayersSeen(c: Contents, z: Zlib, dress: Dressing, w: nat, h: nat, cells: seq<int>)
    requires z.Inverse() && Encode(c, z).Ok? && IsMap(c, dress, w, h, cells)
    ensures Parse(Encode(c, z).value, z).Ok?
    ensures ShowsLayers(Parse(Encode(c, z).value, z).value.2.layers, dress, w, h, cells, c.raws)
  {
    hide Encode, Parse, LayerOf, IsMap, ShortIds, GameBytes, TeleBytes, MapLayerList, OthersReadable, InOrder,
      AllReadable, ShowsLayers, LiftRow, Concat;
    MapParts(c, dress, w, h, cells);
    MapReadable(c, dress, w, h, cells);
    LayersAfterSave(c, z);
    SixLayers(dress, w, h);
    LayersShown(Parse(Encode(c, z).value, z).value.2.layers, dress, w, h, cells, c.raws);
  }

  /** Writing a map and reading it back gives the semantic grid cell for cell exactly when it is at
      least two cells wide: narrower layers are not decoded. */
  lemma GridSurvives(c: Contents, z: Zlib, dress: Dressing, w: nat, h: nat, cells: seq<int>, x: nat, y: nat)
    requires z.Inverse() && Encode(c, z).Ok? && IsMap(c, dress, w, h, cells)
    requires AllBytes(cells) && |cells| == h * w && x < w && y < h
    ensures Parse(Encode(c, z).value, z).Ok?
    ensures 0 <= y * w + x < |cells|
    ensures Overlay(Parse(Encode(c, z).value, z).value.2, x, y) == Some(cells[y * w + x]) <==> w >= 2
  {
    hide Encode, Parse, IsMap, GameBytes, TeleBytes, FirstWith;
    GridLayers(c, z, dress, w, h, cells);
    CellBound(y, w, h);
    if w >= 2 {
      var layers := Parse(Encode(c, z).value, z).value.2.layers;
      var game, tele := FirstWith(layers, F_GAME).value.tiles.value, FirstWith(layers, F_TELE).value.tele.value;
      OverlayCell(w, h, cells, x, y, game, tele);
    }
  }

  // ---- groups, images and info ---------------------------------------------------

  /** A text without a NUL is read back from its blob. */
  lemma TextRead(raws: seq<bytes>, k: nat, text: bytes)
    requires k < |raws| && raws[k] == text + [0] && 0 !in text
    ensures RawStr(raws, k) == text
  {
    UpToNulPrefix(text + [0], |text|);
    assert (text + [0])[..|text|] == text;
  }

  /** The groups tile the layers: each begins where the one before it ends. */
  predicate GroupsTile(groups: seq<GroupRef>, n: int) {
    && groups != [] && groups[0].startLayer == 0
    && (forall k :: 0 < k < |groups| ==> groups[k].startLayer == groups[k - 1].startLayer + groups[k - 1].numLayers)
    && groups[|groups| - 1].startLayer + groups[|groups| - 1].numLayers == n
  }

  /** The gallery reader sees three groups around the six layers, the four images with their sizes and
      the info texts. */
  lemma MapView(c: Contents, z: Zlib, dress: Dressing, w: nat, h: nat, cells: seq<int>)
    requires z.Inverse() && Encode(c, z).Ok? && IsMap(c, dress, w, h, cells)
    requires 0 !in dress.credits && 0 !in dress.style
    ensures Parse(Encode(c, z).value, z).Ok?
    ensures var v := Parse(Encode(c, z).value, z).value.2;
            var prefix := Ascii("neonrelay_") + dress.style;
            && |v.layers| == 6 && GroupsTile(v.groups, 6)
            && v.groups == [GroupRef((0, 0), (0, 0), 0, 1, Ascii("Far")), GroupRef((0, 0), (35, 0), 1, 1, Ascii("Mid")),
                            GroupRef((0, 0), (100, 100), 2, 4, Ascii("Game"))]
            && v.images == [ImageRef(prefix + Ascii("_sky"), 1536, 768, 1),
                            ImageRef(prefix + Ascii("_mid"), 1024, 512, 1),
                            ImageRef(prefix + Ascii("_tiles"), 1024, 1024, 1),
                            ImageRef(Ascii("neonrelay_pulse"), 128, 128, 1)]
            && v.info == Some(Info(Ascii("The Neon Relay Authors"), Ascii("1"), dress.credits, Ascii("Zlib")))
  {
    hide Encode, Parse, LayerOf, IsMap, ShortIds, GameBytes, TeleBytes, MapLayerList, OthersReadable, InOrder,
      AllReadable, RawStr, Ascii, LiftRow;
    MapParts(c, dress, w, h, cells);
    MapReadable(c, dress, w, h, cells);
    GridLayers(c, z, dress, w, h, cells);
    ViewAfterSave(c, z);
    var v := Parse(Encode(c, z).value, z).value.2;
    hide SeesImages, SeesGroups, SeesInfo;
    GroupsSeen(v.groups);
    HeadSeen(v, c.raws, dress);
  }

  lemma GroupsSeen(groups: seq<GroupRef>)
    requires SeesGroups(groups, [FAR, MID, GAME])
    ensures groups == [GroupRef((0, 0), (0, 0), 0, 1, Ascii("Far")), GroupRef((0, 0), (35, 0), 1, 1, Ascii("Mid")),
                       GroupRef((0, 0), (100, 100), 2, 4, Ascii("Game"))]
    ensures GroupsTile(groups, 6)
  {
    hide GroupRead, GroupPayload, Ascii;
    GroupSeen(0, 0, 0, 1, "Far");
    GroupSeen(35, 0, 1, 1, "Mid");
    GroupSeen(100, 100, 2, 4, "Game");
    var ps := [FAR, MID, GAME];
    assert groups[0] == GroupRead(ps[0]) && groups[1] == GroupRead(ps[1]) && groups[2] == GroupRead(ps[2]);
    assert groups == [groups[0], groups[1], groups[2]];
  }

  /** A group without an offset, under a short name. */
  lemma GroupSeen(px: int, py: int, start: int, num: int, s: string)
    requires |s| <= 10 && forall k :: 0 <= k < |s| ==> s[k] as int % 256 != 0
    ensures GroupRead(GroupPayload(0, 0, px, py, start, num, Ascii(s))) ==
            GroupRef((0, 0), (px, py), start, num, Ascii(s))
  {
    hide PackName, IntsToStr, GroupRead, GroupPayload;
    GroupDecodes(0, 0, px, py, start, num, Ascii(s));
    NameSurvives(Ascii(s), 3);
  }

  lemma HeadSeen(v: View, raws: seq<bytes>, dress: Dressing)
    requires |raws| >= 8 && raws[..8] == HeadBlobs(dress) && 0 !in dress.credits && 0 !in dress.style
    requires SeesImages(v.images, HeadItems()[IMAGE], raws) && SeesInfo(v.info, HeadItems()[INFO], raws)
    ensures var prefix := Ascii("neonrelay_") + dress.style;
            v.images == [ImageRef(prefix + Ascii("_sky"), 1536, 768, 1),
                         ImageRef(prefix + Ascii("_mid"), 1024, 512, 1),
                         ImageRef(prefix + Ascii("_tiles"), 1024, 1024, 1),
                         ImageRef(Ascii("neonrelay_pulse"), 128, 128, 1)]
    ensures v.info == Some(Info(Ascii("The Neon Relay Authors"), Ascii("1"), dress.credits, Ascii("Zlib")))
  {
    hide RawStr, Ascii;
    InfoTexts(raws, dress);
    ImageTexts(raws, dress);
    hide HeadBlobs;
    var ps := HeadItems()[IMAGE];
    assert |ps| == 4 && v.images == [v.images[0], v.images[1], v.images[2], v.images[3]];
  }

  lemma InfoTexts(raws: seq<bytes>, dress: Dressing)
    requires |raws| >= 8 && raws[..8] == HeadBlobs(dress) && 0 !in dress.credits
    ensures RawStr(raws, 0) == Ascii("The Neon Relay Authors") && RawStr(raws, 1) == Ascii("1")
    ensures RawStr(raws, 2) == dress.credits && RawStr(raws, 3) == Ascii("Zlib")
  {
    hide RawStr;
    assert forall k :: 0 <= k < 4 ==> raws[k] == raws[..8][k];
    TextRead(raws, 0, Ascii("The Neon Relay Authors"));
    TextRead(raws, 1, Ascii("1"));
    TextRead(raws, 2, dress.credits);
    TextRead(raws, 3, Ascii("Zlib"));
  }

  lemma NamesWithoutNul(prefix: bytes)
    requires 0 !in prefix
    ensures 0 !in prefix + Ascii("_sky") && 0 !in prefix + Ascii("_mid") && 0 !in prefix + Ascii("_tiles")
  {
  }

  lemma ImageTexts(raws: seq<bytes>, dress: Dressing)
    requires |raws| >= 8 && raws[..8] == HeadBlobs(dress) && 0 !in dress.style
    ensures var prefix := Ascii("neonrelay_") + dress.style;
            && RawStr(raws, 4) == prefix + Ascii("_sky") && RawStr(raws, 5) == prefix + Ascii("_mid")
            && RawStr(raws, 6) == prefix + Ascii("_tiles") && RawStr(raws, 7) == Ascii("neonrelay_pulse")
  {
    hide RawStr;
    assert forall k :: 4 <= k < 8 ==> raws[k] == raws[..8][k];
    var prefix := Ascii("neonrelay_") + dress.style;
    NamesWithoutNul(prefix);
    assert 0 !in Ascii("neonrelay_pulse");
    hide Ascii;
    TextRead(raws, 4, prefix + Ascii("_sky"));
    TextRead(raws, 5, prefix + Ascii("_mid"));
    TextRead(raws, 6, prefix + Ascii("_tiles"));
    TextRead(raws, 7, Ascii("neonrelay_pulse"));
  }
}
