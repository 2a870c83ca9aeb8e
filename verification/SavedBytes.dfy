/** Where each number of a saved file stands, byte by byte: the least significant byte first. */
module SavedBytes {
  import opened Bytes
  import opened Sorting
  import opened SortedSets
  import opened Datafile

  /** The four bytes at `at` are the digits of v to base 256, modulo 2^32. */
  predicate Stands(b: bytes, at: int, v: int) {
    && 0 <= at && at + 4 <= |b|
    && var (d0: int, d1: int, d2: int, d3: int) := (b[at], b[at + 1], b[at + 2], b[at + 3]);
       d0 + 0x100 * d1 + 0x1_0000 * d2 + 0x100_0000 * d3 == v % 0x1_0000_0000
  }

  lemma WordStands(v: int)
    ensures Stands(Le32(v), 0, v)
  {
    Digits(v);
  }

  lemma StandsInside(pre: bytes, mid: bytes, post: bytes, at: int, v: int)
    requires Stands(mid, at, v)
    ensures Stands(pre + mid + post, |pre| + at, v)
  {
  }

  lemma StandsSlice(b: bytes, from: nat, part: bytes, at: int, v: int)
    requires Part(b, from, part) && Stands(part, at, v)
    ensures Stands(b, from + at, v)
  {
    assert forall j :: 0 <= j < |part| ==> part[j] == b[from + j];
  }

  lemma PackedStands(xs: seq<int>, k: nat)
    requires k < |xs|
    ensures Stands(PackInts(xs), 4 * k, xs[k])
  {
    hide Le32, PackInts;
    PackIntsAt(xs, k);
    WordStands(xs[k]);
    StandsSlice(PackInts(xs), 4 * k, Le32(xs[k]), 0, xs[k]);
  }

  /** Header and directory integer k of a file. */
  lemma IntegerStands(c: Contents, z: Zlib, k: nat)
    requires k < |Header(c, z) + Directory(c, z)|
    ensures Stands(FileBytes(c, z), 4 + 4 * k, (Header(c, z) + Directory(c, z))[k])
  {
    hide PackInts, Concat, Header, Directory, Flat, Stands;
    var xs, rest := Header(c, z) + Directory(c, z), Concat(Records(Flat(c))) + Concat(Compressed(c.raws, z));
    PackedStands(xs, k);
    StandsInside(MAGIC, PackInts(xs), rest, 4 * k, xs[k]);
    assert FileBytes(c, z) == MAGIC + PackInts(xs) + rest;
  }

  // ---- sizes and positions, counted from the writer's lists ----------------------------

  /** The bytes taken by the first n records: eight for tag and size, four for each payload integer. */
  function RecordRoom(flat: seq<FlatItem>, n: nat): nat
    requires n <= |flat|
  {
    if n == 0 then 0 else RecordRoom(flat, n - 1) + 8 + 4 * |flat[n - 1].payload|
  }

  /** The bytes taken by the first n compressed blobs. */
  function BlobRoom(raws: seq<bytes>, z: Zlib, n: nat): nat
    requires n <= |raws|
  {
    if n == 0 then 0 else BlobRoom(raws, z, n - 1) + |z.compress(raws[n - 1])|
  }

  /** The number of items of the first n types. */
  function ItemCount(ts: seq<int>, items: map<int, seq<Item>>, n: nat): nat
    requires TypesIn(ts, items) && n <= |ts|
  {
    if n == 0 then 0
    else
      var t := ts[n - 1];
      assert t in items;
      ItemCount(ts, items, n - 1) + |items[t]|
  }

  lemma {:induction false} RecordStart(flat: seq<FlatItem>, n: nat)
    requires n <= |flat|
    ensures Start(Records(flat), n) == RecordRoom(flat, n)
  {
    hide Record;
    if n > 0 {
      RecordStart(flat, n - 1);
      hide Start;
      StartNext(Records(flat), n - 1);
    } else {
      assert Records(flat)[..0] == [];
    }
  }

  lemma {:induction false} BlobStart(raws: seq<bytes>, z: Zlib, n: nat)
    requires n <= |raws|
    ensures Start(Compressed(raws, z), n) == BlobRoom(raws, z, n)
  {
    if n > 0 {
      BlobStart(raws, z, n - 1);
      hide Start;
      StartNext(Compressed(raws, z), n - 1);
    } else {
      assert Compressed(raws, z)[..0] == [];
    }
  }

  lemma {:induction false} FlatCount(ts: seq<int>, items: map<int, seq<Item>>, n: nat)
    requires TypesIn(ts, items) && n <= |ts|
    ensures TypesIn(ts[..n], items) && |FlatOf(ts[..n], items)| == ItemCount(ts, items, n)
  {
    hide Filed, Sort;
    if n > 0 {
      FlatCount(ts, items, n - 1);
      assert ts[..n][..n - 1] == ts[..n - 1] && ts[..n][n - 1] == ts[n - 1];
      assert ts[n - 1] in ts;
    }
  }

  lemma RegionSizes(c: Contents, z: Zlib)
    ensures |Concat(Records(Flat(c)))| == RecordRoom(Flat(c), |Flat(c)|)
    ensures |Concat(Compressed(c.raws, z))| == BlobRoom(c.raws, z, |c.raws|)
    ensures |Flat(c)| == ItemCount(Types(c), c.items, |Types(c)|)
  {
    hide FlatOf, Concat, Types, Records, Compressed;
    RecordStart(Flat(c), |Flat(c)|);
    BlobStart(c.raws, z, |c.raws|);
    assert Records(Flat(c))[..|Flat(c)|] == Records(Flat(c));
    assert Compressed(c.raws, z)[..|c.raws|] == Compressed(c.raws, z);
    FlatCount(Types(c), c.items, |Types(c)|);
    assert Types(c)[..|Types(c)|] == Types(c);
  }

  // ---- the header ---------------------------------------------------------------------

  /** The name of the format, then eight numbers: the version, the bytes behind the first 16, those of
      them before the data region, the numbers of types, items and blobs, the sizes of both regions. */
  lemma SavedHeader(c: Contents, z: Zlib)
    requires Encode(c, z).Ok?
    ensures var b := Encode(c, z).value; var (t, n, r) := (|c.items.Keys|, |Flat(c)|, |c.raws|);
            var (records, blobs) := (RecordRoom(Flat(c), n), BlobRoom(c.raws, z, r));
            && |b| == 36 + 12 * t + 4 * n + 8 * r + records + blobs
            && b[0] == 'D' as int && b[1] == 'A' as int && b[2] == 'T' as int && b[3] == 'A' as int
            && Stands(b, 4, 4) && Stands(b, 8, |b| - 16) && Stands(b, 12, |b| - 16 - blobs)
            && Stands(b, 16, t) && Stands(b, 20, n) && Stands(b, 24, r) && Stands(b, 28, records)
                && Stands(b, 32, blobs)
  {
    hide Stands, PackInts, Concat, Flat, Types, Directory, Records, Compressed;
    RegionSizes(c, z);
    TypesCount(c);
    Magic(c, z);
    FileLength(c, z);
    hide FileBytes;
    var h := Header(c, z);
    HeaderStands(c, z, 0);
    HeaderStands(c, z, 1);
    HeaderStands(c, z, 2);
    HeaderStands(c, z, 3);
    HeaderStands(c, z, 4);
    HeaderStands(c, z, 5);
    HeaderStands(c, z, 6);
    HeaderStands(c, z, 7);
  }

  lemma Magic(c: Contents, z: Zlib)
    ensures var b := FileBytes(c, z);
            |b| >= 4 && b[0] == 'D' as int && b[1] == 'A' as int && b[2] == 'T' as int && b[3] == 'A' as int
  {
    hide PackInts, Concat, Header, Directory;
  }

  lemma TypesCount(c: Contents)
    ensures |Types(c)| == |c.items.Keys|
  {
    SortedSetLists(c.items.Keys);
  }

  lemma HeaderStands(c: Contents, z: Zlib, k: nat)
    requires k < 8
    ensures Stands(FileBytes(c, z), 4 + 4 * k, Header(c, z)[k])
  {
    hide Stands, FileBytes, Header, Directory;
    IntegerStands(c, z, k);
  }

  // ---- the tables ------------------------------------------------------------------------

  /** Row j of the type table: the type, how many items all earlier types have, how many it has. */
  lemma SavedTypeRow(c: Contents, z: Zlib, j: nat)
    requires Encode(c, z).Ok? && j < |Types(c)|
    ensures var b, ts := Encode(c, z).value, Types(c);
            && ts[j] in c.items
            && Stands(b, 36 + 12 * j, ts[j]) && Stands(b, 40 + 12 * j, ItemCount(ts, c.items, j))
            && Stands(b, 44 + 12 * j, |c.items[ts[j]]|)
  {
    hide Stands, FileBytes, Flat, Starts, Types, TypeTable, ItemCount, Directory;
    var ts := Types(c);
    TypeRow(ts, c.items, j);
    FlatCount(ts, c.items, j);
    assert ts[j] in ts;
    RowInteger(c, z, 3 * j);
    RowInteger(c, z, 3 * j + 1);
    RowInteger(c, z, 3 * j + 2);
  }

  lemma RowInteger(c: Contents, z: Zlib, k: nat)
    requires k < 3 * |Types(c)|
    ensures Stands(FileBytes(c, z), 36 + 4 * k, TypeTable(Types(c), c.items)[k])
  {
    hide Stands, FileBytes, Flat, Starts, Types, TypeTable;
    assert Directory(c, z)[k] == TypeTable(Types(c), c.items)[k];
    hide Directory;
    DirectoryStands(c, z, k);
  }

  /** Directory integer k stands behind the 36 bytes of the header. */
  lemma DirectoryStands(c: Contents, z: Zlib, k: nat)
    requires k < |Directory(c, z)|
    ensures Stands(FileBytes(c, z), 36 + 4 * k, Directory(c, z)[k])
  {
    hide Stands, FileBytes, Header, Directory;
    IntegerStands(c, z, 8 + k);
  }

  /** Item offset i, behind the type table. */
  lemma SavedItemOffset(c: Contents, z: Zlib, i: nat)
    requires Encode(c, z).Ok? && i < |Flat(c)|
    ensures Stands(Encode(c, z).value, 36 + 12 * |Types(c)| + 4 * i, RecordRoom(Flat(c), i))
  {
    hide Stands, FileBytes, Header, Flat, TypeTable, Types, Start, Records;
    var at := 3 * |Types(c)| + i;
    RecordStart(Flat(c), i);
    assert Directory(c, z)[at] == Starts(Records(Flat(c)))[i];
    hide Directory;
    DirectoryStands(c, z, at);
  }

  /** Blob offset and uncompressed size k, in two tables behind the item offsets. */
  lemma SavedBlobEntry(c: Contents, z: Zlib, k: nat)
    requires Encode(c, z).Ok? && k < |c.raws|
    ensures var at := 36 + 12 * |Types(c)| + 4 * |Flat(c)| + 4 * k;
            && Stands(Encode(c, z).value, at, BlobRoom(c.raws, z, k))
            && Stands(Encode(c, z).value, at + 4 * |c.raws|, |c.raws[k]|)
  {
    hide Stands, FileBytes, Header, Flat, TypeTable, Types, Start, Records, Compressed;
    var at := 3 * |Types(c)| + |Flat(c)| + k;
    BlobStart(c.raws, z, k);
    assert Directory(c, z)[at] == Starts(Compressed(c.raws, z))[k];
    assert Directory(c, z)[at + |c.raws|] == Sizes(c.raws)[k];
    hide Directory;
    DirectoryStands(c, z, at);
    DirectoryStands(c, z, at + |c.raws|);
  }

  // ---- the regions -----------------------------------------------------------------------

  /** Bit n of a number. */
  predicate Bit(v: nat, n: nat) { if n == 0 then v % 2 == 1 else Bit(v / 2, n - 1) }

  lemma {:induction false} OrBit(a: nat, b: nat, n: nat)
    ensures Bit(BitOr(a, b), n) <==> Bit(a, n) || Bit(b, n)
  {
    OrHalf(a, b);
    if n > 0 {
      OrBit(a / 2, b / 2, n - 1);
    }
  }

  lemma OrHalf(a: nat, b: nat)
    ensures BitOr(a, b) / 2 == BitOr(a / 2, b / 2)
    ensures BitOr(a, b) % 2 == 1 <==> a % 2 == 1 || b % 2 == 1
  {
    if a + b == 0 {
      assert BitOr(a, b) == 0 && a / 2 == 0 && b / 2 == 0;
    }
  }

  /** Two bytes, the less significant one first. */
  function Half(b: bytes, at: int): int
    requires 0 <= at && at + 2 <= |b|
  {
    var (d0: int, d1: int) := (b[at], b[at + 1]);
    d0 + 0x100 * d1
  }

  /** An item as it is written at `at`: the low 16 bits of its id; its type with what the id has beyond
      16 bits or-ed in; the size of its payload in bytes; the payload. */
  ghost predicate ItemStands(b: bytes, at: int, f: FlatItem) {
    && 0 <= at && at + 8 + 4 * |f.payload| <= |b| && f.typ >= 0 && f.id >= 0
    && Half(b, at) == f.id % 0x1_0000
    && (f.id < 0x1_0000 ==> Half(b, at + 2) == f.typ)
    && (forall n: nat :: Bit(Half(b, at + 2), n) <==> Bit(f.typ, n) || Bit(f.id / 0x1_0000, n))
    && Stands(b, at + 4, 4 * |f.payload|)
    && forall j :: 0 <= j < |f.payload| ==> Stands(b, at + 8 + 4 * j, f.payload[j])
  }

  lemma Halves(b: bytes, at: int, v: int)
    requires Stands(b, at, v) && 0 <= v < 0x1_0000_0000
    ensures Half(b, at) == v % 0x1_0000 && Half(b, at + 2) == v / 0x1_0000
  {
    var (d0: int, d1: int, d2: int, d3: int) := (b[at], b[at + 1], b[at + 2], b[at + 3]);
    var (lo, hi) := (d0 + 0x100 * d1, d2 + 0x100 * d3);
    assert v == hi * 0x1_0000 + lo;
  }

  /** The halves of a tag. */
  lemma TagHalves(f: FlatItem)
    requires IsU32(Tag(f.typ, f.id))
    ensures f.typ >= 0 && f.id >= 0
    ensures Tag(f.typ, f.id) % 0x1_0000 == f.id % 0x1_0000
    ensures Tag(f.typ, f.id) / 0x1_0000 == BitOr(f.typ, f.id / 0x1_0000)
  {
    hide BitOr;
    var (q, r) := (BitOr(f.typ, f.id / 0x1_0000), f.id % 0x1_0000);
    assert (q * 0x1_0000 + r) / 0x1_0000 == q && (q * 0x1_0000 + r) % 0x1_0000 == r;
  }

  lemma RecordStands(f: FlatItem)
    requires ItemFits(f)
    ensures ItemStands(Record(f), 0, f)
  {
    hide Stands, Le32, PackInts, Tag, BitOr, Bit;
    var (tag, size, body) := (Le32(Tag(f.typ, f.id)), Le32(4 * |f.payload|), PackInts(f.payload));
    assert [] + tag + (size + body) == Record(f);
    WordStands(Tag(f.typ, f.id));
    StandsInside([], tag, size + body, 0, Tag(f.typ, f.id));
    WordStands(4 * |f.payload|);
    StandsInside(tag, size, body, 0, 4 * |f.payload|);
    forall j | 0 <= j < |f.payload|
      ensures Stands(Record(f), 8 + 4 * j, f.payload[j])
    {
      PackedStands(f.payload, j);
      assert tag + size + body + [] == Record(f);
      StandsInside(tag + size, body, [], 4 * j, f.payload[j]);
    }
    Halves(Record(f), 0, Tag(f.typ, f.id));
    TagHalves(f);
    BitOrZero(f.typ);
    forall n: nat
      ensures Bit(BitOr(f.typ, f.id / 0x1_0000), n) <==> Bit(f.typ, n) || Bit(f.id / 0x1_0000, n)
    {
      OrBit(f.typ, f.id / 0x1_0000, n);
    }
  }

  lemma ItemInside(b: bytes, from: nat, f: FlatItem)
    requires Part(b, from, Record(f)) && ItemStands(Record(f), 0, f)
    ensures ItemStands(b, from, f)
  {
    hide Stands, Record, Bit;
    var r := Record(f);
    assert forall j :: 0 <= j < |r| ==> r[j] == b[from + j];
    StandsSlice(b, from, r, 4, 4 * |f.payload|);
    forall j | 0 <= j < |f.payload|
      ensures Stands(b, from + 8 + 4 * j, f.payload[j])
    {
      StandsSlice(b, from, r, 8 + 4 * j, f.payload[j]);
    }
  }

  /** Item i of the flat list stands behind the tables and the records before it. */
  lemma SavedItem(c: Contents, z: Zlib, i: nat)
    requires Encode(c, z).Ok? && i < |Flat(c)|
    ensures var at := 36 + 12 * |Types(c)| + 4 * |Flat(c)| + 8 * |c.raws| + RecordRoom(Flat(c), i);
            ItemStands(Encode(c, z).value, at, Flat(c)[i])
  {
    hide ItemStands, Concat, Flat, Types, Record, Start, RecordRoom, PackInts, Part, AllFit;
    var flat, recs := Flat(c), Records(Flat(c));
    FlatItemFits(flat, i);
    RecordStands(flat[i]);
    BlockPart(recs, i);
    RecordStart(flat, i);
    FrontSize(c, z);
    PartInside(Front(c, z), Concat(recs), Concat(Compressed(c.raws, z)), Start(recs, i), recs[i]);
    ItemInside(FileBytes(c, z), |Front(c, z)| + Start(recs, i), flat[i]);
  }

  lemma FlatItemFits(flat: seq<FlatItem>, i: nat)
    requires AllFit(flat) && i < |flat|
    ensures ItemFits(flat[i]) && Records(flat)[i] == Record(flat[i])
  {
  }

  /** The file up to the item region. */
  function Front(c: Contents, z: Zlib): bytes { MAGIC + PackInts(Header(c, z) + Directory(c, z)) }

  lemma FrontSize(c: Contents, z: Zlib)
    ensures |Front(c, z)| == 36 + 12 * |Types(c)| + 4 * |Flat(c)| + 8 * |c.raws|
    ensures FileBytes(c, z) == Front(c, z) + Concat(Records(Flat(c))) + Concat(Compressed(c.raws, z))
  {
    hide PackInts, Concat, Flat, Types, Header, Directory;
  }

  /** Blob k stands compressed behind the records and the blobs before it. */
  lemma SavedBlob(c: Contents, z: Zlib, k: nat)
    requires Encode(c, z).Ok? && k < |c.raws|
    ensures var at := 36 + 12 * |Types(c)| + 4 * |Flat(c)| + 8 * |c.raws| + RecordRoom(Flat(c), |Flat(c)|)
                      + BlobRoom(c.raws, z, k);
            Part(Encode(c, z).value, at, z.compress(c.raws[k]))
  {
    hide Concat, Front, Flat, Types, Records, Start, RecordRoom, BlobRoom, FileBytes;
    RegionSizes(c, z);
    FrontSize(c, z);
    var comp := Compressed(c.raws, z);
    var front := Front(c, z) + Concat(Records(Flat(c)));
    BlockPart(comp, k);
    BlobStart(c.raws, z, k);
    PartInside(front, Concat(comp), [], Start(comp, k), comp[k]);
    assert front + Concat(comp) + [] == FileBytes(c, z);
  }

  // ---- the order of the items -----------------------------------------------------------

  /** f belongs in front of g: by type, then by id, then by payload. */
  predicate InFront(f: FlatItem, g: FlatItem) {
    || f.typ < g.typ
    || (f.typ == g.typ && (f.id < g.id || (f.id == g.id && LexLe(f.payload, g.payload))))
  }

  predicate Ascending(flat: seq<FlatItem>) { forall i, j :: 0 <= i < j < |flat| ==> InFront(flat[i], flat[j]) }

  lemma OrderedItems(t: int, xs: seq<Item>)
    ensures Ascending(Filed(t, Ordered(xs)))
  {
    SortSorted(ItemKey, xs);
    var ys := Ordered(xs);
    forall i, j | 0 <= i < j < |ys|
      ensures InFront(Filed(t, ys)[i], Filed(t, ys)[j])
    {
      assert Below(ItemKey, ys[i], ys[j]);
      KeyOrder(ys[i], ys[j]);
    }
  }

  lemma KeyOrder(x: Item, y: Item)
    ensures Below(ItemKey, x, y) <==> x.id < y.id || (x.id == y.id && LexLe(x.payload, y.payload))
  {
    assert ItemKey(x)[0] == x.id && ItemKey(x)[1..] == x.payload;
    assert ItemKey(y)[0] == y.id && ItemKey(y)[1..] == y.payload;
  }

  lemma {:induction false} FlatAscends(ts: seq<int>, items: map<int, seq<Item>>)
    requires TypesIn(ts, items) && Increasing(ts)
    ensures Ascending(FlatOf(ts, items))
    ensures forall k :: 0 <= k < |FlatOf(ts, items)| ==> FlatOf(ts, items)[k].typ in ts
  {
    if ts != [] {
      hide Sort;
      var n := |ts| - 1;
      FlatAscends(ts[..n], items);
      OrderedItems(ts[n], items[ts[n]]);
      hide LexLe;
    }
  }

  /** How often an item stands in the flat list: as often as in the list of its type. */
  lemma {:induction false} FlatHas(ts: seq<int>, items: map<int, seq<Item>>, f: FlatItem)
    requires TypesIn(ts, items) && Increasing(ts)
    ensures multiset(FlatOf(ts, items))[f] ==
            if f.typ in ts then multiset(items[f.typ])[Item(f.id, f.payload)] else 0
  {
    if ts != [] {
      hide Sort, Filed;
      var n := |ts| - 1;
      var t := ts[n];
      FlatHas(ts[..n], items, f);
      FiledHas(t, Ordered(items[t]), f);
      SortSorted(ItemKey, items[t]);
      assert ts == ts[..n] + [t];
      assert f.typ == t ==> f.typ !in ts[..n];
    }
  }

  lemma {:induction false} FiledHas(t: int, xs: seq<Item>, f: FlatItem)
    ensures multiset(Filed(t, xs))[f] == if f.typ == t then multiset(xs)[Item(f.id, f.payload)] else 0
  {
    if xs != [] {
      var n := |xs| - 1;
      FiledHas(t, xs[..n], f);
      assert xs == xs[..n] + [xs[n]];
      assert Filed(t, xs) == Filed(t, xs[..n]) + [FlatItem(t, xs[n].id, xs[n].payload)];
    }
  }

  /** The flat list holds every item of every type exactly as often as the writer does, by type, then
      by id and, should ids be equal, by payload. */
  lemma FlatLists(c: Contents, f: FlatItem)
    ensures Ascending(Flat(c))
    ensures multiset(Flat(c))[f] ==
            if f.typ in c.items then multiset(c.items[f.typ])[Item(f.id, f.payload)] else 0
  {
    SortedSetLists(c.items.Keys);
    FlatAscends(Types(c), c.items);
    FlatHas(Types(c), c.items, f);
  }
}
