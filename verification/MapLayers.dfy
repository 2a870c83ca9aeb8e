/** From the layer items of a writer to the layers the gallery reader decodes. */
module MapLayers {
  import opened Bytes
  import opened Sorting
  import opened SortedSets
  import opened Datafile
  import opened DatafileParse
  import opened Grouping
  import opened DatafileV4
  import opened MapFormat
  import opened MapRead
  import opened Names

  /** The payloads of the items of one type, in list order. */
  function PayloadsOf(flat: seq<FlatItem>, typ: int): seq<seq<int>> {
    if flat == [] then []
    else
      var n := |flat| - 1;
      if flat[n].typ == typ then PayloadsOf(flat[..n], typ) + [flat[n].payload] else PayloadsOf(flat[..n], typ)
  }

  function Payloads(xs: seq<Item>): (r: seq<seq<int>>)
    ensures |r| == |xs|
  {
    seq(|xs|, k requires 0 <= k < |xs| => xs[k].payload)
  }

  /** The item has the integers the reader looks at. */
  predicate Readable(f: FlatItem, raws: seq<bytes>) {
    var p := f.payload;
    && (f.typ == INFO || f.typ == IMAGE ==> |p| >= 5)
    && (f.typ == GROUP ==> |p| >= 7)
    && (f.typ == LAYER ==> LayerOf(0, p, raws).Ok?)
  }

  lemma DecodedAnywhere(l: Layer, i: int, raws: seq<bytes>)
    ensures Decoded(l.(index := i), raws).Ok? == Decoded(l, raws).Ok?
    ensures Decoded(l, raws).Ok? ==> Decoded(l.(index := i), raws) == Ok(Decoded(l, raws).value.(index := i))
  {
    hide PyIndex, Has, TileLayerType;
    var m := l.(index := i);
    assert Physics(m, raws, F_FRONT, l.frontIndex, 4, 0) == Physics(l, raws, F_FRONT, l.frontIndex, 4, 0);
    assert Physics(m, raws, F_TELE, l.teleIndex, 2, 1) == Physics(l, raws, F_TELE, l.teleIndex, 2, 1);
    assert Physics(m, raws, F_SPEEDUP, l.speedupIndex, 6, 0) == Physics(l, raws, F_SPEEDUP, l.speedupIndex, 6, 0);
    assert Physics(m, raws, F_SWITCH, l.switchIndex, 4, 0) == Physics(l, raws, F_SWITCH, l.switchIndex, 4, 0);
    hide Physics;
  }

  /** The position of a layer only shows in its index. */
  lemma LayerAnywhere(i: int, p: seq<int>, raws: seq<bytes>)
    ensures LayerOf(i, p, raws).Ok? == LayerOf(0, p, raws).Ok?
    ensures LayerOf(i, p, raws).Ok? ==> LayerOf(i, p, raws) == Ok(LayerOf(0, p, raws).value.(index := i))
  {
    hide IntsToStr, PhysicsIndex, Decoded, TileLayerType;
    if |p| >= 15 {
      DecodedAnywhere(Undecoded(0, p), i, raws);
    }
  }

  /** Reading a list of readable items succeeds and yields one layer per layer item, in order. */
  lemma {:induction false} LooksLayers(flat: seq<FlatItem>, raws: seq<bytes>, n: nat)
    requires n <= |flat| && forall k :: 0 <= k < n ==> Readable(flat[k], raws)
    ensures LookAll(flat, raws, n).Ok?
    ensures var (ls, ps) := (LookAll(flat, raws, n).value.layers, PayloadsOf(flat[..n], LAYER));
            |ls| == |ps| && forall k :: 0 <= k < |ps| ==> LayerOf(k, ps[k], raws) == Ok(ls[k])
  {
    hide LayerOf, RawStr, IntsToStr;
    if n > 0 {
      LooksLayers(flat, raws, n - 1);
      assert flat[..n][..n - 1] == flat[..n - 1];
      LayerAnywhere(|LookAll(flat, raws, n - 1).value.layers|, flat[n - 1].payload, raws);
    }
  }

  /** The other lists of the view: one entry per item of the type, in order; the last info counts. */
  ghost predicate Sees(v: View, flat: seq<FlatItem>, raws: seq<bytes>) {
    && SeesImages(v.images, PayloadsOf(flat, IMAGE), raws)
    && SeesGroups(v.groups, PayloadsOf(flat, GROUP))
    && SeesInfo(v.info, PayloadsOf(flat, INFO), raws)
  }

  predicate SeesImages(images: seq<ImageRef>, ps: seq<seq<int>>, raws: seq<bytes>) {
    |images| == |ps| && forall k :: 0 <= k < |ps| ==> |ps[k]| >= 5 && images[k] == ImageRead(ps[k], raws)
  }

  predicate SeesGroups(groups: seq<GroupRef>, ps: seq<seq<int>>) {
    |groups| == |ps| && forall k :: 0 <= k < |ps| ==> |ps[k]| >= 7 && groups[k] == GroupRead(ps[k])
  }

  predicate SeesInfo(info: Option<Info>, ps: seq<seq<int>>, raws: seq<bytes>) {
    if ps == [] then info == None else |ps[|ps| - 1]| >= 5 && info == Some(InfoRead(ps[|ps| - 1], raws))
  }

  lemma ImageMore(v: View, f: FlatItem, ps: seq<seq<int>>, raws: seq<bytes>)
    requires SeesImages(v.images, ps, raws) && Look(v, f, raws).Ok?
    ensures SeesImages(Look(v, f, raws).value.images, if f.typ == IMAGE then ps + [f.payload] else ps, raws)
  {
    hide LayerOf, ImageRead, InfoRead, GroupRead;
  }

  lemma GroupMore(v: View, f: FlatItem, ps: seq<seq<int>>, raws: seq<bytes>)
    requires SeesGroups(v.groups, ps) && Look(v, f, raws).Ok?
    ensures SeesGroups(Look(v, f, raws).value.groups, if f.typ == GROUP then ps + [f.payload] else ps)
  {
    hide LayerOf, ImageRead, InfoRead, GroupRead;
  }

  lemma InfoMore(v: View, f: FlatItem, ps: seq<seq<int>>, raws: seq<bytes>)
    requires SeesInfo(v.info, ps, raws) && Look(v, f, raws).Ok?
    ensures SeesInfo(Look(v, f, raws).value.info, if f.typ == INFO then ps + [f.payload] else ps, raws)
  {
    hide LayerOf, ImageRead, InfoRead, GroupRead;
  }

  lemma {:induction false} LooksOthers(flat: seq<FlatItem>, raws: seq<bytes>, n: nat)
    requires n <= |flat| && LookAll(flat, raws, n).Ok?
    ensures Sees(LookAll(flat, raws, n).value, flat[..n], raws)
  {
    if n > 0 {
      hide Look, SeesImages, SeesGroups, SeesInfo, PayloadsOf;
      LooksOthers(flat, raws, n - 1);
      var f, front, v := flat[n - 1], flat[..n - 1], LookAll(flat, raws, n - 1).value;
      assert flat[..n] == front + [f];
      PayloadsPush(front, f, IMAGE);
      PayloadsPush(front, f, GROUP);
      PayloadsPush(front, f, INFO);
      ImageMore(v, f, PayloadsOf(front, IMAGE), raws);
      GroupMore(v, f, PayloadsOf(front, GROUP), raws);
      InfoMore(v, f, PayloadsOf(front, INFO), raws);
    }
  }

  lemma PayloadsPush(flat: seq<FlatItem>, f: FlatItem, typ: int)
    ensures PayloadsOf(flat + [f], typ) ==
            if f.typ == typ then PayloadsOf(flat, typ) + [f.payload] else PayloadsOf(flat, typ)
  {
    assert (flat + [f])[..|flat|] == flat;
  }

  lemma {:induction false} FiledPayloads(flat: seq<FlatItem>, t: int, xs: seq<Item>, typ: int)
    ensures PayloadsOf(flat + Filed(t, xs), typ) ==
            if t == typ then PayloadsOf(flat, typ) + Payloads(xs) else PayloadsOf(flat, typ)
  {
    if xs == [] {
      assert flat + Filed(t, xs) == flat;
      assert PayloadsOf(flat, typ) + Payloads(xs) == PayloadsOf(flat, typ);
    } else {
      var n := |xs| - 1;
      FiledPayloads(flat, t, xs[..n], typ);
      assert Filed(t, xs) == Filed(t, xs[..n]) + [FlatItem(t, xs[n].id, xs[n].payload)];
      assert Payloads(xs) == Payloads(xs[..n]) + [xs[n].payload];
      hide Filed, Payloads;
      PayloadsPush(flat + Filed(t, xs[..n]), FlatItem(t, xs[n].id, xs[n].payload), typ);
      Assoc(flat, Filed(t, xs[..n]), [FlatItem(t, xs[n].id, xs[n].payload)]);
      Assoc(PayloadsOf(flat, typ), Payloads(xs[..n]), [xs[n].payload]);
    }
  }

  lemma {:induction false} FlatPayloads(ts: seq<int>, items: map<int, seq<Item>>, typ: int)
    requires TypesIn(ts, items) && Increasing(ts)
    ensures PayloadsOf(FlatOf(ts, items), typ) == if typ in ts then Payloads(Ordered(items[typ])) else []
  {
    hide Sort, Filed, Payloads, PayloadsOf;
    if ts == [] {
      EmptyPayloads(typ);
    } else {
      var n := |ts| - 1;
      var t, front := ts[n], ts[..n];
      FlatPayloads(front, items, typ);
      FiledPayloads(FlatOf(front, items), t, Ordered(items[t]), typ);
      assert ts == front + [t];
      assert t !in front;
      assert [] + Payloads(Ordered(items[t])) == Payloads(Ordered(items[t]));
    }
  }

  lemma EmptyPayloads(typ: int)
    ensures PayloadsOf([], typ) == []
  {
  }

  /** A type whose ids are in order is listed as it stands. */
  lemma ListedPayloads(c: Contents, typ: int)
    requires InOrder(ListOf(c.items, typ))
    ensures PayloadsOf(Flat(c), typ) == Payloads(ListOf(c.items, typ))
  {
    hide Sort;
    SortedSetLists(c.items.Keys);
    FlatPayloads(Types(c), c.items, typ);
    OrderedAlready(ListOf(c.items, typ));
    assert Payloads([]) == [];
  }

  predicate InOrder(xs: seq<Item>) { forall i, j :: 0 <= i < j < |xs| ==> xs[i].id < xs[j].id }

  lemma OrderedAlready(xs: seq<Item>)
    requires InOrder(xs)
    ensures Ordered(xs) == xs
  {
    SortOfSorted(ItemKey, xs);
  }

  predicate AllReadable(items: map<int, seq<Item>>, raws: seq<bytes>) {
    forall t, k :: t in items && 0 <= k < |items[t]| ==>
        Readable(FlatItem(t, items[t][k].id, items[t][k].payload), raws)
  }

  lemma {:induction false} FlatReadable(ts: seq<int>, items: map<int, seq<Item>>, raws: seq<bytes>)
    requires TypesIn(ts, items) && AllReadable(items, raws)
    ensures forall k :: 0 <= k < |FlatOf(ts, items)| ==> Readable(FlatOf(ts, items)[k], raws)
  {
    hide Readable, Sort;
    if ts != [] {
      var n := |ts| - 1;
      var t := ts[n];
      FlatReadable(ts[..n], items, raws);
      SortSorted(ItemKey, items[t]);
      forall k | 0 <= k < |items[t]|
        ensures Readable(Filed(t, Ordered(items[t]))[k], raws)
      {
        assert Ordered(items[t])[k] in multiset(items[t]);
        var j :| 0 <= j < |items[t]| && items[t][j] == Ordered(items[t])[k];
      }
    }
  }

  /** The gallery reader decodes the layers of a saved writer from its layer items, one by one. */
  lemma LayersAfterSave(c: Contents, z: Zlib)
    requires z.Inverse() && Encode(c, z).Ok? && ShortIds(c)
    requires AllReadable(c.items, c.raws) && InOrder(ListOf(c.items, LAYER))
    ensures Parse(Encode(c, z).value, z).Ok?
    ensures var ls := Parse(Encode(c, z).value, z).value.2.layers; var xs := ListOf(c.items, LAYER);
            |ls| == |xs| && forall k :: 0 <= k < |xs| ==> LayerOf(k, xs[k].payload, c.raws) == Ok(ls[k])
  {
    hide ReadBoth, Encode, LayerOf, Readable;
    BothAfterSave(c, z);
    FlatReadable(Types(c), c.items, c.raws);
    LooksLayers(Flat(c), c.raws, |Flat(c)|);
    assert Flat(c)[..|Flat(c)|] == Flat(c);
    ListedPayloads(c, LAYER);
    assert forall k :: 0 <= k < |ListOf(c.items, LAYER)| ==>
        Payloads(ListOf(c.items, LAYER))[k] == ListOf(c.items, LAYER)[k].payload;
  }

  /** So does it see the images, the groups and the info. */
  lemma ViewAfterSave(c: Contents, z: Zlib)
    requires z.Inverse() && Encode(c, z).Ok? && ShortIds(c) && AllReadable(c.items, c.raws)
    requires InOrder(ListOf(c.items, IMAGE)) && InOrder(ListOf(c.items, GROUP)) && InOrder(ListOf(c.items, INFO))
    ensures Parse(Encode(c, z).value, z).Ok?
    ensures var v := Parse(Encode(c, z).value, z).value.2;
            && SeesImages(v.images, Payloads(ListOf(c.items, IMAGE)), c.raws)
            && SeesGroups(v.groups, Payloads(ListOf(c.items, GROUP)))
            && SeesInfo(v.info, Payloads(ListOf(c.items, INFO)), c.raws)
  {
    hide ReadBoth, Encode, LayerOf, Readable, SeesImages, SeesGroups, SeesInfo, Flat;
    BothAfterSave(c, z);
    FlatIsReadable(c);
    LooksLayers(Flat(c), c.raws, |Flat(c)|);
    LooksOthers(Flat(c), c.raws, |Flat(c)|);
    assert Flat(c)[..|Flat(c)|] == Flat(c);
    ListedPayloads(c, IMAGE);
    ListedPayloads(c, GROUP);
    ListedPayloads(c, INFO);
  }

  lemma FlatIsReadable(c: Contents)
    requires AllReadable(c.items, c.raws)
    ensures forall k :: 0 <= k < |Flat(c)| ==> Readable(Flat(c)[k], c.raws)
  {
    hide Readable;
    FlatReadable(Types(c), c.items, c.raws);
  }

  // ---- what the writer's own payloads decode to -------------------------------

  lemma QuadsDecode(i: int, count: int, data: int, image: int, name: bytes, raws: seq<bytes>)
    ensures var l := LayerOf(i, QuadsPayload(count, data, image, name), raws);
            && l.Ok? && l.value.index == i && l.value.layerType == 3 && l.value.flags == 0
            && l.value.numQuads == count && l.value.dataIndex == data && l.value.image == image
            && l.value.name == IntsToStr(PackName(name, 3))
            && l.value.tiles == None && l.value.tele == None && l.value.speedup == None && l.value.switch == None
  {
    hide IntsToStr, PackName;
    assert QuadsPayload(count, data, image, name)[7..10] == PackName(name, 3);
  }

  /** Whatever the flags: only the tele array is ever decoded beside the tiles, and it alone can fail. */
  lemma TilesDecode(i: int, w: int, h: int, flags: int, layerFlags: int, image: int, data: int, name: bytes,
          tele: int, raws: seq<bytes>)
    requires 0 <= data < |raws|
    ensures var l := LayerOf(i, TilesPayload(w, h, flags, layerFlags, image, data, name, tele), raws);
            && (l.Ok? <==> w < 2 || !Has(flags, F_TELE) || tele < |raws|)
            && (l.Ok? ==>
                  && l.value.index == i && l.value.layerType == 2 && l.value.layerFlags == layerFlags
                  && l.value.width == w && l.value.height == h && l.value.flags == flags
                  && l.value.image == image && l.value.dataIndex == data
                  && l.value.name == IntsToStr(PackName(name, 3))
                  && l.value.tiles == (if w >= 2 then Some(TileArray(w, h, raws[data], 4, 0, 1)) else None)
                  && l.value.tele == (if w >= 2 && Has(flags, F_TELE) && tele >= 0
                                      then Some(TileArray(w, h, raws[tele], 2, 1, 1)) else None)
                  && l.value.speedup == None && l.value.switch == None)
  {
    hide IntsToStr, PackName, Has;
    var p := TilesPayload(w, h, flags, layerFlags, image, data, name, tele);
    assert p[15..18] == PackName(name, 3);
  }

  /** A group as the writer files it and the reader sees it. */
  lemma GroupDecodes(ox: int, oy: int, px: int, py: int, start: int, num: int, name: bytes)
    ensures GroupRead(GroupPayload(ox, oy, px, py, start, num, name)) ==
            GroupRef((ox, oy), (px, py), start, num, IntsToStr(PackName(name, 3)))
  {
    hide IntsToStr, PackName;
    assert GroupPayload(ox, oy, px, py, start, num, name)[12..15] == PackName(name, 3);
  }

  /** What the writer fills in that this reader does not look at: items of the third version for groups
      and layers, of the second for quads; no clipping; opaque white without an envelope; and no
      physics arrays but tele. */
  lemma FixedFields(ox: int, oy: int, px: int, py: int, start: int, num: int, name: bytes, w: int, h: int,
          flags: int, layerFlags: int, image: int, data: int, tele: int, count: int)
    ensures var g := GroupPayload(ox, oy, px, py, start, num, name);
            g[0] == 3 && g[7] == g[8] == g[9] == g[10] == g[11] == 0
    ensures var t := TilesPayload(w, h, flags, layerFlags, image, data, name, tele);
            && t[0] == 2 && t[3] == 3 && t[7] == t[8] == t[9] == t[10] == 255 && t[11] == -1 && t[12] == 0
            && t[19] == t[20] == t[21] == t[22] == -1
    ensures var q := QuadsPayload(count, data, image, name); q[0] == 2 && q[2] == 0 && q[3] == 2
  {
    hide PackName;
  }

  // ---- any tiles layer ----------------------------------------------------------

  /** Integer `at` of an item, or -1 when the item is too short. */
  function IntAt(p: seq<int>, at: nat): int { if at < |p| then p[at] else -1 }

  /** The array of a physics flag: decoded where the flag is set and its index is not negative. */
  predicate Holds(a: Option<TileArray>, p: seq<int>, flag: bool, at: int, raws: seq<bytes>, stride: int, indexAt: int)
    requires |p| >= 15
  {
    if flag && at >= 0 then at < |raws| && a == Some(TileArray(p[4], p[5], raws[at], stride, indexAt, 1)) else a == None
  }

  /** Where a tiles layer of any version keeps what. The references to the tele, speedup, front and switch
      arrays stand at 15 to 18 in version 2 and at 18 to 21 in all others; the flags 2, 4, 8 and 16 say
      which of them count, and a front array replaces the tiles. */
  lemma TilesPositions(i: int, p: seq<int>, raws: seq<bytes>)
    requires |p| >= 15 && (p[1] == 2 || 4 <= p[1] <= 8) && LayerOf(i, p, raws).Ok?
    ensures var (l, at) := (LayerOf(i, p, raws).value, if p[3] == 2 then 15 else 18);
            && l.index == i && l.layerVersion == p[0] && l.layerType == p[1] && l.layerFlags == p[2]
            && l.width == p[4] && l.height == p[5] && l.flags == p[6] && l.image == p[13] && l.dataIndex == p[14]
            && (p[4] < 2 ==> l.tiles == None && l.tele == None && l.speedup == None && l.switch == None)
            && (p[4] >= 2 ==>
                  && Holds(l.tele, p, p[6] / 2 % 2 == 1, IntAt(p, at), raws, 2, 1)
                  && Holds(l.speedup, p, p[6] / 4 % 2 == 1, IntAt(p, at + 1), raws, 6, 0)
                  && Holds(l.switch, p, p[6] / 16 % 2 == 1, IntAt(p, at + 3), raws, 4, 0)
                  && -|raws| <= p[14] < |raws|
                  && if p[6] / 8 % 2 == 1 && IntAt(p, at + 2) >= 0
                     then Holds(l.tiles, p, true, IntAt(p, at + 2), raws, 4, 0)
                     else Holds(l.tiles, p, true, if p[14] < 0 then p[14] + |raws| else p[14], raws, 4, 0))
  {
    hide IntsToStr;
  }

  /** An enabled reference leads to a blob. */
  predicate Leads(flag: bool, at: int, raws: seq<bytes>) { flag ==> at < |raws| }

  /** A layer item is decoded exactly when it has the three integers of its header, the seven of a quads
      layer, and, where arrays are decoded, tiles and only references that lead to blobs. */
  lemma LayerSucceeds(i: int, p: seq<int>, raws: seq<bytes>)
    ensures LayerOf(i, p, raws).Ok? <==>
            && |p| >= 3
            && (p[1] == 3 ==> |p| >= 7)
            && ((p[1] == 2 || 4 <= p[1] <= 8) && |p| >= 15 && p[4] >= 2 ==>
                  var at := if p[3] == 2 then 15 else 18;
                  && -|raws| <= p[14] < |raws|
                  && Leads(p[6] / 2 % 2 == 1, IntAt(p, at), raws) && Leads(p[6] / 4 % 2 == 1, IntAt(p, at + 1), raws)
                  && Leads(p[6] / 8 % 2 == 1, IntAt(p, at + 2), raws)
                      && Leads(p[6] / 16 % 2 == 1, IntAt(p, at + 3), raws))
    ensures LayerOf(i, p, raws).Err? ==> LayerOf(i, p, raws).error == IndexError
  {
    hide IntsToStr;
  }

  /** Of any other item, a sound layer or one that is too short, only the header is kept. */
  lemma OtherLayer(i: int, p: seq<int>, raws: seq<bytes>)
    requires |p| >= 3 && p[1] != 3 && !((p[1] == 2 || 4 <= p[1] <= 8) && |p| >= 15)
    ensures LayerOf(i, p, raws).Ok?
    ensures var l := LayerOf(i, p, raws).value;
            && l.index == i && l.payload == p && l.layerVersion == p[0] && l.layerType == p[1] && l.layerFlags == p[2]
            && l.mapVersion == (if |p| >= 4 then p[3] else 0) && l.name == []
            && l.width == l.height == l.flags == l.numQuads == 0 && l.image == l.dataIndex == -1
            && l.teleIndex == l.speedupIndex == l.frontIndex == l.switchIndex == l.tuneIndex == -1
            && l.tiles == None && l.tele == None && l.speedup == None && l.switch == None
  {
  }
}
