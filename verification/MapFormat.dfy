/** `MapWriter`: collects items and raw blobs and writes them as a datafile. */
module MapFormat {
  import opened Bytes
  import opened Sorting
  import opened SortedSets
  import opened Datafile
  import opened Grouping
  import opened Names

  /** The three fields of a writer, as one value. */
  datatype Doc = Doc(raws: seq<bytes>, items: map<int, seq<Item>>, nextId: map<int, int>)

  function NextId(nextId: map<int, int>, t: int): int { if t in nextId then nextId[t] else 0 }

  /** Only numbers that `item` handed out or that are below one it can still hand out. */
  predicate Numbered(items: map<int, seq<Item>>, nextId: map<int, int>) {
    FreshIds(items, nextId) && NoEmptyList(items) && forall t :: t in nextId ==> nextId[t] >= 0
  }

  /** What `raw` and `item` make of the fields. */
  function AddRaw(d: Doc, payload: bytes): Doc { d.(raws := d.raws + [payload]) }

  function AddItem(d: Doc, t: int, payload: seq<int>): Doc {
    var id := NextId(d.nextId, t);
    Doc(d.raws, d.items[t := ListOf(d.items, t) + [Item(id, payload)]], d.nextId[t := id + 1])
  }

  // ---- item payloads --------------------------------------------------------

  function GroupPayload(ox: int, oy: int, px: int, py: int, startLayer: int, numLayers: int, name: bytes): seq<int> {
    [3, ox, oy, px, py, startLayer, numLayers, 0, 0, 0, 0, 0] + PackName(name, 3)
  }

  function TilesPayload(w: int, h: int, flags: int, layerFlags: int, image: int, data: int, name: bytes,
          tele: int): (p: seq<int>)
    ensures |p| == 23
  {
    [2, 2, layerFlags, 3, w, h, flags, 255, 255, 255, 255, -1, 0, image, data] + PackName(name, 3)
        + [tele, -1, -1, -1, -1]
  }

  function QuadsPayload(count: int, data: int, image: int, name: bytes): (p: seq<int>)
    ensures |p| == 10
  {
    [2, 3, 0, 2, count, data, image] + PackName(name, 3)
  }

  function AddString(d: Doc, s: bytes): Doc { AddRaw(d, s + [0]) }

  function AddInfo(d: Doc, author: bytes, version: bytes, credits: bytes, license: bytes): Doc {
    var n := |d.raws|;
    AddItem(AddString(AddString(AddString(AddString(d, author), version), credits), license), 1,
        [1, n, n + 1, n + 2, n + 3, -1])
  }

  function AddImage(d: Doc, name: bytes, w: int, h: int): Doc {
    AddItem(AddString(d, name), 2, [1, w, h, 1, |d.raws|, -1])
  }

  function AddTiles(d: Doc, w: int, h: int, tiles: bytes, image: int, flags: int, layerFlags: int, name: bytes,
          tele: int): Doc {
    AddItem(AddRaw(d, tiles), 5, TilesPayload(w, h, flags, layerFlags, image, |d.raws|, name, tele))
  }

  function AddQuads(d: Doc, quads: seq<bytes>, image: int, name: bytes): Doc {
    AddItem(AddRaw(d, Concat(quads)), 5, QuadsPayload(|quads|, |d.raws|, image, name))
  }

  // ---- what `save` computes, part by part ----------------------------------

  method FlattenItems(c: Contents) returns (flat: seq<FlatItem>)
    ensures flat == Flat(c)
  {
    flat := [];
    var ts := Types(c);
    assert ts[..|ts|] == ts;
    for j := 0 to |ts|
      invariant TypesIn(ts[..j], c.items) && flat == FlatOf(ts[..j], c.items)
    {
      var t := ts[j];
      var xs := Ordered(c.items[t]);
      ghost var before := flat;
      for k := 0 to |xs|
        invariant flat == before + Filed(t, xs)[..k]
      {
        flat := flat + [FlatItem(t, xs[k].id, xs[k].payload)];
      }
      assert ts[..j + 1][..j] == ts[..j];
    }
  }

  method ItemRegion(flat: seq<FlatItem>) returns (r: Result<(bytes, seq<int>)>)
    ensures AllFit(flat) ==> r == Ok((Concat(Records(flat)), Starts(Records(flat))))
    ensures !AllFit(flat) ==> r == Err(StructError)
  {
    hide Le32, PackInts, Tag, BitOr;
    var itemBytes, offsets := [], [];
    ghost var recs := Records(flat);
    for k := 0 to |flat|
      invariant AllFit(flat[..k])
      invariant itemBytes == Concat(recs[..k])
      invariant offsets == Starts(recs)[..k]
    {
      offsets := offsets + [|itemBytes|];
      var f := flat[k];
      var tag := Tag(f.typ, f.id);
      if !IsU32(tag) || !IsI32(4 * |f.payload|) || !AllI32(f.payload) {
        assert !ItemFits(flat[k]);
        return Err(StructError);
      }
      StartNext(recs, k);
      itemBytes := itemBytes + Record(f);
      assert flat[..k + 1] == flat[..k] + [f];
    }
    assert flat[..|flat|] == flat && recs[..|flat|] == recs && offsets == Starts(recs);
    r := Ok((itemBytes, offsets));
  }

  method DataRegion(raws: seq<bytes>, z: Zlib) returns (blob: bytes, offsets: seq<int>, sizes: seq<int>)
    ensures blob == Concat(Compressed(raws, z)) && offsets == Starts(Compressed(raws, z)) && sizes == Sizes(raws)
  {
    ghost var all := Compressed(raws, z);
    var comp := [];
    sizes := [];
    for k := 0 to |raws|
      invariant comp == all[..k] && sizes == Sizes(raws)[..k]
    {
      comp := comp + [z.compress(raws[k])];
      sizes := sizes + [|raws[k]|];
    }
    var dataOffsets := [0];
    blob := [];
    assert comp == all;
    for k := 0 to |comp|
      invariant blob == Concat(all[..k])
      invariant |dataOffsets| == k + 1 && dataOffsets[k] == |blob|
      invariant dataOffsets[..k] == Starts(all)[..k]
    {
      StartNext(all, k);
      dataOffsets := dataOffsets + [dataOffsets[|dataOffsets| - 1] + |comp[k]|];
      blob := blob + comp[k];
    }
    offsets := dataOffsets[..|dataOffsets| - 1];
    assert all[..|comp|] == all;
  }

  method TypeRows(c: Contents) returns (rows: seq<(int, int, int)>)
    ensures |rows| == |Types(c)|
    ensures forall k :: 0 <= k < |rows| ==> Row(c, k) == rows[k]
  {
    hide Filed, Sort;
    rows := [];
    var start := 0;
    var ts := Types(c);
    assert ts[..|ts|] == ts;
    for j := 0 to |ts|
      invariant TypesIn(ts[..j], c.items) && |rows| == j && start == |FlatOf(ts[..j], c.items)|
      invariant forall k :: 0 <= k < j ==> Row(c, k) == rows[k]
    {
      assert ts[..j + 1][..j] == ts[..j];
      TypeRow(ts, c.items, j);
      rows := rows + [(ts[j], start, |c.items[ts[j]]|)];
      start := start + |c.items[ts[j]]|;
    }
  }

  function Row(c: Contents, k: nat): (int, int, int)
    requires k < |Types(c)|
  {
    var t := TypeTable(Types(c), c.items);
    (t[3 * k], t[3 * k + 1], t[3 * k + 2])
  }

  /** out += struct.pack("<i", x) for each x in turn. */
  method PackEach(out: bytes, xs: seq<int>) returns (r: Result<bytes>)
    ensures AllI32(xs) ==> r == Ok(out + PackInts(xs))
    ensures !AllI32(xs) ==> r == Err(StructError)
  {
    var buf := out;
    for k := 0 to |xs|
      invariant AllI32(xs[..k])
      invariant buf == out + PackInts(xs[..k])
    {
      if !IsI32(xs[k]) {
        return Err(StructError);
      }
      buf := buf + Le32(xs[k]);
      assert xs[..k + 1] == xs[..k] + [xs[k]];
      PackIntsAppend(xs[..k], [xs[k]]);
      PackOne(xs[k]);
    }
    assert xs[..|xs|] == xs;
    r := Ok(buf);
  }

  lemma PackOne(x: int)
    ensures PackInts([x]) == Le32(x)
  {
    PackIntsAt([x], 0);
  }

  /** out += struct.pack("<iii", t, s, c) for each row in turn. */
  method PackRows(out: bytes, rows: seq<(int, int, int)>, ghost table: seq<int>) returns (r: Result<bytes>)
    requires |table| == 3 * |rows|
    requires forall k :: 0 <= k < |rows| ==> rows[k] == (table[3 * k], table[3 * k + 1], table[3 * k + 2])
    ensures AllI32(table) ==> r == Ok(out + PackInts(table))
    ensures !AllI32(table) ==> r == Err(StructError)
  {
    var buf := out;
    for k := 0 to |rows|
      invariant AllI32(table[..3 * k])
      invariant buf == out + PackInts(table[..3 * k])
    {
      var (t, s, c) := rows[k];
      var row := [t, s, c];
      assert row == table[3 * k..3 * k + 3];
      if !AllI32(row) {
        assert !AllI32(table);
        return Err(StructError);
      }
      buf := buf + PackInts(row);
      TakeSplit(table, 3 * k, 3 * k + 3);
      PackIntsAppend(table[..3 * k], row);
      AllI32Both(table[..3 * k], row);
      assert 3 * (k + 1) == 3 * k + 3;
    }
    assert table[..3 * |rows|] == table;
    r := Ok(buf);
  }

  lemma FitsParts(c: Contents, z: Zlib)
    ensures Fits(c, z) <==>
            && AllFit(Flat(c)) && AllI32(Header(c, z)) && AllI32(TypeTable(Types(c), c.items))
            && AllI32(Starts(Records(Flat(c)))) && AllI32(Starts(Compressed(c.raws, z))) && AllI32(Sizes(c.raws))
  {
    hide TypeTable, Starts, Records, Compressed, Sizes, Header, Types, Flat;
    var h, a, b, e, f := Header(c, z), TypeTable(Types(c), c.items), Starts(Records(Flat(c))),
        Starts(Compressed(c.raws, z)), Sizes(c.raws);
    AllI32Both(a, b);
    AllI32Both(a + b, e);
    AllI32Both(a + b + e, f);
    AllI32Both(h, a + b + e + f);
  }

  lemma PackedFile(c: Contents, z: Zlib)
    ensures FileBytes(c, z) ==
            MAGIC + PackInts(Header(c, z)) + PackInts(TypeTable(Types(c), c.items)) + PackInts(Starts(Records(Flat(c))))
            + PackInts(Starts(Compressed(c.raws, z))) + PackInts(Sizes(c.raws)) + Concat(Records(Flat(c)))
                + Concat(Compressed(c.raws, z))
  {
    hide TypeTable, Starts, Records, Compressed, Sizes, Header, Types, Flat, PackInts, Concat;
    var h, a, b, e, f := Header(c, z), TypeTable(Types(c), c.items), Starts(Records(Flat(c))),
        Starts(Compressed(c.raws, z)), Sizes(c.raws);
    PackIntsAppend(a, b);
    PackIntsAppend(a + b, e);
    PackIntsAppend(a + b + e, f);
    PackIntsAppend(h, a + b + e + f);
    Flatten6(MAGIC, PackInts(h), PackInts(a), PackInts(b), PackInts(e), PackInts(f));
  }

  lemma Flatten6<T>(m: seq<T>, h: seq<T>, a: seq<T>, b: seq<T>, e: seq<T>, f: seq<T>)
    ensures m + (h + (a + b + e + f)) == m + h + a + b + e + f
  {
  }

  // ---- the writer ----------------------------------------------------------

  class MapWriter {
    var raws: seq<bytes>
    var items: map<int, seq<Item>>
    var nextId: map<int, int>

    function Value(): Doc
      reads this
    {
      Doc(raws, items, nextId)
    }

    predicate Valid()
      reads this
    {
      Numbered(items, nextId)
    }

    constructor ()
      ensures Value() == Doc([], map[], map[]) && Valid()
    {
      raws, items, nextId := [], map[], map[];
    }

    /** Stores a blob and returns its index; earlier indices keep their blobs. */
    method Raw(payload: bytes) returns (index: int)
      modifies this`raws
      ensures index == |old(raws)| && raws == old(raws) + [payload]
    {
      raws := raws + [payload];
      index := |raws| - 1;
    }

    /** A C string: the bytes of s and a terminating NUL. */
    method String(s: bytes) returns (index: int)
      modifies this`raws
      ensures index == |old(raws)| && raws == old(raws) + [s + [0]]
    {
      index := Raw(s + [0]);
    }

    /** Files an item under the next id of its type. The id was not in use, is above every
        id in use, and no item of any type is disturbed. */
    method Item(t: int, payload: seq<int>) returns (id: int)
      requires Valid()
      modifies this`items, this`nextId
      ensures Valid()
      ensures id == NextId(old(nextId), t) && Value() == AddItem(old(Value()), t, payload)
      ensures forall k :: 0 <= k < |ListOf(old(items), t)| ==> ListOf(old(items), t)[k].id < id
    {
      id := NextId(nextId, t);
      items := items[t := ListOf(items, t) + [Datafile.Item(id, payload)]];
      nextId := nextId[t := id + 1];
    }

    method Version()
      requires Valid()
      modifies this`items, this`nextId
      ensures Valid() && Value() == AddItem(old(Value()), 0, [1])
    {
      var _ := Item(0, [1]);
    }

    method Info(author: bytes, version: bytes, credits: bytes, license: bytes)
      requires Valid()
      modifies this
      ensures Valid() && Value() == AddInfo(old(Value()), author, version, credits, license)
    {
      var a := String(author);
      var v := String(version);
      var c := String(credits);
      var l := String(license);
      var _ := Item(1, [1, a, v, c, l, -1]);
    }

    method Image(name: bytes, w: int, h: int) returns (id: int)
      requires Valid()
      modifies this
      ensures Valid() && id == NextId(old(nextId), 2) && Value() == AddImage(old(Value()), name, w, h)
    {
      var s := String(name);
      id := Item(2, [1, w, h, 1, s, -1]);
    }

    method Group(ox: int, oy: int, px: int, py: int, startLayer: int, numLayers: int, name: bytes)
      requires Valid()
      modifies this`items, this`nextId
      ensures Valid() && Value() == AddItem(old(Value()), 4, GroupPayload(ox, oy, px, py, startLayer, numLayers, name))
    {
      var _ := Item(4, [3, ox, oy, px, py, startLayer, numLayers, 0, 0, 0, 0, 0] + PackName(name, 3));
    }

    method TilesLayer(w: int, h: int, tiles: bytes, image: int, flags: int, layerFlags: int, name: bytes, tele: int)
      requires Valid()
      modifies this
      ensures Valid() && Value() == AddTiles(old(Value()), w, h, tiles, image, flags, layerFlags, name, tele)
    {
      var data := Raw(tiles);
      var _ := Item(5, [2, 2, layerFlags, 3, w, h, flags, 255, 255, 255, 255, -1, 0, image, data]
      + PackName(name, 3) + [tele, -1, -1, -1, -1]);
    }

    method QuadsLayer(quads: seq<bytes>, image: int, name: bytes)
      requires Valid()
      modifies this
      ensures Valid() && Value() == AddQuads(old(Value()), quads, image, name)
    {
      var data := Raw(Concat(quads));
      var _ := Item(5, [2, 3, 0, 2, |quads|, data, image] + PackName(name, 3));
    }

    /** Writes the file that stands for the contents, or fails with struct.error exactly when
        a number does not fit. */
    method Save(z: Zlib) returns (r: Result<bytes>)
      ensures r == Encode(Contents(raws, items), z)
    {
      hide Header, TypeTable, Starts, Records, Compressed, Sizes, PackInts, Concat, Flat, Types;
      ghost var c := Contents(raws, items);
      FitsParts(c, z);
      PackedFile(c, z);
      var flat := FlattenItems(Contents(raws, items));
      var region := ItemRegion(flat);
      if region.Err? { return Err(region.error); }
      var (itemBytes, offsets) := region.value;
      var blob, dataOffsets, dataSizes := DataRegion(raws, z);
      var rows := TypeRows(Contents(raws, items));
      var swaplen := 36 - 16 + |rows| * 12 + |flat| * 4 + |raws| * 8 + |itemBytes|;
      var size := swaplen + |blob|;
      var header := [4, size, swaplen, |rows|, |flat|, |raws|, |itemBytes|, |blob|];
      HeaderValue(c, z, header);
      var out := PackEach(MAGIC, header);
      if out.Err? { return Err(out.error); }
      out := PackRows(out.value, rows, TypeTable(Types(c), c.items));
      if out.Err? { return Err(out.error); }
      out := PackEach(out.value, offsets);
      if out.Err? { return Err(out.error); }
      out := PackEach(out.value, dataOffsets);
      if out.Err? { return Err(out.error); }
      out := PackEach(out.value, dataSizes);
      if out.Err? { return Err(out.error); }
      r := Ok(out.value + itemBytes + blob);
    }
  }

  lemma HeaderValue(c: Contents, z: Zlib, h: seq<int>)
    requires |h| == 8 && h[0] == 4 && h[1] == h[2] + h[7] && h[2] == 36 - 16 + h[3] * 12 + h[4] * 4 + h[5] * 8 + h[6]
    requires h[3] == |Types(c)| && h[4] == |Flat(c)| && h[5] == |c.raws|
    requires h[6] == |Concat(Records(Flat(c)))| && h[7] == |Concat(Compressed(c.raws, z))|
    ensures h == Header(c, z)
  {
  }
}
