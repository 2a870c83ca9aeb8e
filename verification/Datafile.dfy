/** The datafile v4 container as a value: what is stored, and the bytes that stand for it. */
module Datafile {
  import opened Integers
  import opened Bytes
  import opened Sorting
  import opened SortedSets

  datatype Item = Item(id: int, payload: seq<int>)

  /** An item together with the type it is filed under, as the item region lists it. */
  datatype FlatItem = FlatItem(typ: int, id: int, payload: seq<int>)

  /** Raw blobs by index, and per item type the list of its items. */
  datatype Contents = Contents(raws: seq<bytes>, items: map<int, seq<Item>>)

  // ---- the item list -------------------------------------------------------

  /** Python orders (id, payload) pairs by id, then by payload. */
  function ItemKey(i: Item): seq<int> { [i.id] + i.payload }

  function Ordered(xs: seq<Item>): seq<Item> { Sort(ItemKey, xs) }

  function Filed(t: int, xs: seq<Item>): (r: seq<FlatItem>)
    ensures |r| == |xs|
  {
    seq(|xs|, k requires 0 <= k < |xs| => FlatItem(t, xs[k].id, xs[k].payload))
  }

  predicate TypesIn(ts: seq<int>, items: map<int, seq<Item>>) { forall t :: t in ts ==> t in items }

  /** The items of the listed types, type after type, each type's list ordered. */
  function FlatOf(ts: seq<int>, items: map<int, seq<Item>>): (r: seq<FlatItem>)
    requires TypesIn(ts, items)
  {
    if ts == [] then []
    else
      var n := |ts| - 1;
      FlatOf(ts[..n], items) + Filed(ts[n], Ordered(items[ts[n]]))
  }

  /** The type table, three integers a row: type, index of its first item, number of items. */
  function TypeTable(ts: seq<int>, items: map<int, seq<Item>>): (r: seq<int>)
    requires TypesIn(ts, items)
    ensures |r| == 3 * |ts|
  {
    if ts == [] then []
    else
      var n := |ts| - 1;
      var t := ts[n];
      assert t in items;
      TypeTable(ts[..n], items) + [t, |FlatOf(ts[..n], items)|, |items[t]|]
  }

  function Types(c: Contents): (ts: seq<int>)
    ensures TypesIn(ts, c.items)
  {
    SortedSetLists(c.items.Keys);
    SortedSet(c.items.Keys)
  }

  function Flat(c: Contents): seq<FlatItem> { FlatOf(Types(c), c.items) }

  // ---- records -------------------------------------------------------------

  /** Bitwise or of two non-negative integers. */
  function BitOr(a: nat, b: nat): nat
    decreases a + b
  {
    if a + b == 0 then 0 else Max(a % 2, b % 2) + 2 * BitOr(a / 2, b / 2)
  }

  lemma {:induction false} BitOrZero(a: nat)
    ensures BitOr(a, 0) == a
  {
    if a > 0 {
      BitOrZero(a / 2);
    }
  }

  /** (t << 16) | i. Python's unbounded `|` keeps an id above 16 bits, which then spills
      into the type; a negative operand makes the result negative. */
  function Tag(t: int, i: int): int {
    if t < 0 || i < 0 then -1 else BitOr(t, i / 0x1_0000) * 0x1_0000 + i % 0x1_0000
  }

  /** What `tag >> 16` and `tag & 65535` read back from the tag of an item. */
  function Retagged(f: FlatItem): FlatItem {
    FlatItem(Tag(f.typ, f.id) / 0x1_0000, Tag(f.typ, f.id) % 0x1_0000, f.payload)
  }

  /** The tag is lossless exactly for ids of 16 bits. */
  lemma RetaggedSame(f: FlatItem)
    requires IsU32(Tag(f.typ, f.id))
    ensures Retagged(f) == f <==> f.id < 0x1_0000
    ensures f.id < 0x1_0000 ==> 0 <= f.typ < 0x1_0000
  {
    if f.id < 0x1_0000 {
      BitOrZero(f.typ);
    }
  }

  function Record(f: FlatItem): (b: bytes)
    ensures |b| == 8 + 4 * |f.payload|
  {
    Le32(Tag(f.typ, f.id)) + Le32(4 * |f.payload|) + PackInts(f.payload)
  }

  predicate ItemFits(f: FlatItem) {
    IsU32(Tag(f.typ, f.id)) && IsI32(4 * |f.payload|) && AllI32(f.payload)
  }

  function Records(flat: seq<FlatItem>): (r: seq<bytes>)
    ensures |r| == |flat|
  {
    seq(|flat|, k requires 0 <= k < |flat| => Record(flat[k]))
  }

  function Compressed(raws: seq<bytes>, z: Zlib): (r: seq<bytes>)
    ensures |r| == |raws|
  {
    seq(|raws|, k requires 0 <= k < |raws| => z.compress(raws[k]))
  }

  function Sizes(raws: seq<bytes>): (r: seq<int>)
    ensures |r| == |raws|
  {
    seq(|raws|, k requires 0 <= k < |raws| => |raws[k]|)
  }

  // ---- the file ------------------------------------------------------------

  const MAGIC: bytes := [0x44, 0x41, 0x54, 0x41]  // "DATA"

  function SwapLen(c: Contents): int {
    36 - 16 + 12 * |Types(c)| + 4 * |Flat(c)| + 8 * |c.raws| + |Concat(Records(Flat(c)))|
  }

  function Header(c: Contents, z: Zlib): (r: seq<int>)
    ensures |r| == 8
  {
    var items, blob := |Concat(Records(Flat(c)))|, |Concat(Compressed(c.raws, z))|;
    [4, SwapLen(c) + blob, SwapLen(c), |Types(c)|, |Flat(c)|, |c.raws|, items, blob]
  }

  function Directory(c: Contents, z: Zlib): (r: seq<int>)
    ensures |r| == 3 * |Types(c)| + |Flat(c)| + 2 * |c.raws|
  {
    TypeTable(Types(c), c.items) + Starts(Records(Flat(c))) + Starts(Compressed(c.raws, z)) + Sizes(c.raws)
  }

  function FileBytes(c: Contents, z: Zlib): bytes {
    MAGIC + PackInts(Header(c, z) + Directory(c, z)) + Concat(Records(Flat(c))) + Concat(Compressed(c.raws, z))
  }

  predicate AllFit(flat: seq<FlatItem>) { forall k :: 0 <= k < |flat| ==> ItemFits(flat[k]) }

  /** Every integer that has to be packed fits its field. */
  predicate Fits(c: Contents, z: Zlib) {
    AllFit(Flat(c)) && AllI32(Header(c, z) + Directory(c, z))
  }

  /** The whole of `MapWriter.save`: a file, or struct.error when a number does not fit. */
  function Encode(c: Contents, z: Zlib): Result<bytes> {
    if Fits(c, z) then Ok(FileBytes(c, z)) else Err(StructError)
  }

  /** `size` counts everything behind the 16 bytes it is measured from. */
  lemma FileLength(c: Contents, z: Zlib)
    ensures |FileBytes(c, z)| == Header(c, z)[1] + 16
    ensures |FileBytes(c, z)| == Header(c, z)[2] + 16 + |Concat(Compressed(c.raws, z))|
  {
  }

  /** A block starts where all blocks before it end, so the starts are bounded by the total. */
  lemma StartBounds(parts: seq<bytes>, k: nat)
    requires k <= |parts|
    ensures 0 <= Start(parts, k) <= |Concat(parts)|
  {
    PrefixOf(parts, k);
  }

  lemma {:induction false} TypeTableBounds(ts: seq<int>, items: map<int, seq<Item>>, total: int)
    requires TypesIn(ts, items) && |FlatOf(ts, items)| <= total < TWO31
    requires forall k :: 0 <= k < |ts| ==> IsI32(ts[k])
    ensures AllI32(TypeTable(ts, items))
  {
    if ts != [] {
      TypeTableBounds(ts[..|ts| - 1], items, total);
    }
  }

  /** The conditions a caller can check: tags, payload integers, type numbers and
      uncompressed sizes fit, and the file stays below 2 GiB. */
  predicate Packable(c: Contents, z: Zlib) {
    && AllFit(Flat(c))
    && AllI32(Types(c))
    && AllI32(Sizes(c.raws))
    && SwapLen(c) + |Concat(Compressed(c.raws, z))| < TWO31
  }

  /** `save` succeeds exactly on packable contents: the offsets, counts and first indices
      it computes always fit when those do. */
  lemma SaveSucceeds(c: Contents, z: Zlib)
    ensures Fits(c, z) <==> Packable(c, z)
  {
    if Fits(c, z) { FitsOnlyIf(c, z); }
    if Packable(c, z) { FitsIf(c, z); }
  }

  lemma FitsOnlyIf(c: Contents, z: Zlib)
    requires AllI32(Header(c, z) + Directory(c, z))
    ensures AllI32(Types(c)) && AllI32(Sizes(c.raws)) && IsI32(Header(c, z)[1])
  {
    var h, d, table := Header(c, z), Directory(c, z), TypeTable(Types(c), c.items);
    assert (h + d)[1] == h[1];
    AllI32Both(h, d);
    AllI32Both(table + Starts(Records(Flat(c))) + Starts(Compressed(c.raws, z)), Sizes(c.raws));
    forall k | 0 <= k < |Types(c)|
      ensures IsI32(Types(c)[k])
    {
      TypeRow(Types(c), c.items, k);
      assert d[3 * k] == table[3 * k];
    }
  }

  lemma AllI32Both(xs: seq<int>, ys: seq<int>)
    ensures AllI32(xs + ys) <==> AllI32(xs) && AllI32(ys)
  {
    if AllI32(xs + ys) {
      assert forall k :: 0 <= k < |xs| ==> (xs + ys)[k] == xs[k];
      assert forall k :: 0 <= k < |ys| ==> (xs + ys)[|xs| + k] == ys[k];
    }
  }

  lemma StartsFit(parts: seq<bytes>)
    requires |Concat(parts)| < TWO31
    ensures AllI32(Starts(parts))
  {
    forall k | 0 <= k < |parts|
      ensures IsI32(Starts(parts)[k])
    {
      StartBounds(parts, k);
    }
  }

  lemma FitsIf(c: Contents, z: Zlib)
    requires Packable(c, z)
    ensures AllI32(Header(c, z) + Directory(c, z))
  {
    var recs, comp, table := Records(Flat(c)), Compressed(c.raws, z), TypeTable(Types(c), c.items);
    TypeTableBounds(Types(c), c.items, |Flat(c)|);
    StartsFit(recs);
    StartsFit(comp);
    AllI32Both(table, Starts(recs));
    AllI32Both(table + Starts(recs), Starts(comp));
    AllI32Both(table + Starts(recs) + Starts(comp), Sizes(c.raws));
    HeaderFits(c, z);
    AllI32Both(Header(c, z), Directory(c, z));
  }

  lemma HeaderFits(c: Contents, z: Zlib)
    requires SwapLen(c) + |Concat(Compressed(c.raws, z))| < TWO31
    ensures AllI32(Header(c, z))
  {
  }

  /** Row k of the type table. */
  lemma {:induction false} TypeRow(ts: seq<int>, items: map<int, seq<Item>>, k: nat)
    requires TypesIn(ts, items) && k < |ts|
    ensures TypesIn(ts[..k], items)
    ensures TypeTable(ts, items)[3 * k] == ts[k]
    ensures TypeTable(ts, items)[3 * k + 1] == |FlatOf(ts[..k], items)|
    ensures TypeTable(ts, items)[3 * k + 2] == |items[ts[k]]|
  {
    var n := |ts| - 1;
    if k < n {
      TypeRow(ts[..n], items, k);
      assert ts[..n][..k] == ts[..k];
    }
  }
}
