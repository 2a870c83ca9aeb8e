/** The lossless reader: rebuilds a writer from a file, and what survives the round trip. */
module DatafileV4 {
  import opened Integers
  import opened Bytes
  import opened Sorting
  import opened SortedSets
  import opened Datafile
  import opened DatafileParse
  import opened Grouping
  import opened MapFormat

  /** What `read` returns: the fields of the rebuilt writer, or the error it raises. */
  function Decode(b: bytes, z: Zlib): Result<Doc> {
    var (magic, h) :- ReadHeader(b);
    if magic != MAGIC || h[0] != 4 then Err(ValueError) else
    var pos := 36 + 12 * h[3];
    var io :- IntsFrom(b, pos, h[4]);
    var ro :- IntsFrom(b, pos + 4 * h[4], h[5]);
    var lengths :- IntsFrom(b, pos + 4 * h[4] + 4 * h[5], h[5]);
    var start := ItemBase(h) + h[6];
    if start + h[7] != |b| then Err(ValueError) else
    var raws :- Blobs(b, start, ro, h[7], Some(lengths), z, |ro|);
    var flat :- Items(b, ItemBase(h), io, false, |io|);
    Ok(Doc(raws, Group(flat), NextIds(flat)))
  }

  method Read(b: bytes, z: Zlib) returns (r: Result<MapWriter>)
    ensures Decode(b, z).Err? ==> r == Err(Decode(b, z).error)
    ensures Decode(b, z).Ok? ==> r.Ok? && fresh(r.value) && r.value.Value() == Decode(b, z).value && r.value.Valid()
  {
    hide Window, WindowAt, UnpackInts, BlobAt, ItemAt, Group, NextIds;
    var header := ReadHeader(b);
    if header.Err? { return Err(header.error); }
    var (magic, h) := header.value;
    if magic != MAGIC || h[0] != 4 { return Err(ValueError); }
    var pos := 36 + h[3] * 12;
    var io := IntsFrom(b, pos, h[4]);
    if io.Err? { return Err(io.error); }
    pos := pos + h[4] * 4;
    var ro := IntsFrom(b, pos, h[5]);
    if ro.Err? { return Err(ro.error); }
    pos := pos + h[5] * 4;
    var lengths := IntsFrom(b, pos, h[5]);
    if lengths.Err? { return Err(lengths.error); }
    pos := pos + h[5] * 4;
    var start := pos + h[6];
    if start + h[7] != |b| { return Err(ValueError); }
    var m := new MapWriter();
    var raws := ReadBlobs(m, b, start, ro.value, h[7], lengths.value, z);
    if raws.Err? { return Err(raws.error); }
    var items := ReadItems(m, b, pos, io.value);
    if items.Err? { return Err(items.error); }
    r := Ok(m);
  }

  datatype Unit = Unit

  /** m.raws.append(raw) for each blob. */
  method ReadBlobs(m: MapWriter, b: bytes, start: int, ro: seq<int>, rawSize: int, lengths: seq<int>,
          z: Zlib) returns (r: Result<Unit>)
    requires |lengths| == |ro| && m.raws == []
    modifies m`raws
    ensures var all := Blobs(b, start, ro, rawSize, Some(lengths), z, |ro|);
            && (all.Err? ==> r == Err(all.error))
            && (all.Ok? ==> r.Ok? && m.raws == all.value)
  {
    for i := 0 to |ro|
      invariant Blobs(b, start, ro, rawSize, Some(lengths), z, i) == Ok(m.raws)
    {
      var end := if i + 1 < |ro| then ro[i + 1] else rawSize;
      var raw := z.decompress(PySlice(b, start + ro[i], start + end));
      if raw.Err? {
        BlobsFail(b, start, ro, rawSize, Some(lengths), z, i, |ro|);
        return Err(raw.error);
      }
      if |raw.value| != lengths[i] {
        BlobsFail(b, start, ro, rawSize, Some(lengths), z, i, |ro|);
        return Err(ValueError);
      }
      m.raws := m.raws + [raw.value];
    }
    r := Ok(Unit);
  }

  /** The first failing blob decides, whatever follows. */
  lemma {:induction false} BlobsFail(b: bytes, start: int, ro: seq<int>, rawSize: int, sizes: Option<seq<int>>,
          z: Zlib, k: nat, n: nat)
    requires k < n <= |ro| && (sizes.Some? ==> |sizes.value| == |ro|)
    requires Blobs(b, start, ro, rawSize, sizes, z, k).Ok? && BlobAt(b, start, ro, rawSize, sizes, z, k).Err?
    ensures Blobs(b, start, ro, rawSize, sizes, z, n) == Err(BlobAt(b, start, ro, rawSize, sizes, z, k).error)
    decreases n
  {
    if k < n - 1 {
      BlobsFail(b, start, ro, rawSize, sizes, z, k, n - 1);
    }
  }

  lemma {:induction false} ItemsFail(b: bytes, base: int, io: seq<int>, signed: bool, k: nat, n: nat)
    requires k < n <= |io|
    requires Items(b, base, io, signed, k).Ok? && ItemAt(b, base, io[k], signed).Err?
    ensures Items(b, base, io, signed, n) == Err(ItemAt(b, base, io[k], signed).error)
    decreases n
  {
    if k < n - 1 {
      ItemsFail(b, base, io, signed, k, n - 1);
    }
  }

  lemma {:induction false} ItemsUnsigned(b: bytes, base: int, io: seq<int>, n: nat)
    requires n <= |io| && Items(b, base, io, false, n).Ok?
    ensures forall k :: 0 <= k < n ==> Items(b, base, io, false, n).value[k].id >= 0
  {
    hide Window, WindowAt, UnpackInts;
    if n > 0 {
      ItemsUnsigned(b, base, io, n - 1);
    }
  }

  lemma NumberedAfter(flat: seq<FlatItem>)
    requires forall k :: 0 <= k < |flat| ==> flat[k].id >= 0
    ensures Numbered(Group(flat), NextIds(flat))
  {
    hide Group, NextIds;
    GroupFresh(flat);
  }

  /** Files every item under its type and keeps the next free id above all ids seen. */
  method ReadItems(m: MapWriter, b: bytes, base: int, io: seq<int>) returns (r: Result<Unit>)
    requires m.items == map[] && m.nextId == map[]
    modifies m`items, m`nextId
    ensures var all := Items(b, base, io, false, |io|);
            && (all.Err? ==> r == Err(all.error))
            && (all.Ok? ==> r.Ok? && m.items == Group(all.value) && m.nextId == NextIds(all.value) && m.Valid())
  {
    hide Window, WindowAt, UnpackInts, ItemAt, Numbered;
    ghost var flat: seq<FlatItem> := [];
    assert Group(flat) == map[] && NextIds(flat) == map[];
    hide Group, NextIds;
    for i := 0 to |io|
      invariant Items(b, base, io, false, i) == Ok(flat)
      invariant m.items == Group(flat) && m.nextId == NextIds(flat)
    {
      var item := ItemAt(b, base, io[i], false);
      if item.Err? {
        ItemsFail(b, base, io, false, i, |io|);
        return Err(item.error);
      }
      var f := item.value;
      m.items := m.items[f.typ := ListOf(m.items, f.typ) + [Item(f.id, f.payload)]];
      m.nextId := m.nextId[f.typ := Max(NextId(m.nextId, f.typ), f.id + 1)];
      GroupPush(flat, f);
      flat := flat + [f];
    }
    ItemsUnsigned(b, base, io, |io|);
    NumberedAfter(flat);
    r := Ok(Unit);
  }

  // ---- reading what was saved ----------------------------------------------

  /** The writer that `read` rebuilds from a saved file. */
  function ReadBack(c: Contents): Doc {
    var flat := ReTagAll(Flat(c), false);
    Doc(c.raws, Group(flat), NextIds(flat))
  }

  lemma DecodeReads(b: bytes, h: seq<int>, table: seq<int>, io: seq<int>, ro: seq<int>, raws: seq<bytes>,
          flat: seq<FlatItem>, z: Zlib)
    requires Reads(b, h, table, io, ro, raws, flat, z)
    ensures Decode(b, z) == Ok(Doc(raws, Group(ReTagAll(flat, false)), NextIds(ReTagAll(flat, false))))
  {
    hide ReadHeader, IntsFrom, Blobs, Items, Group, NextIds, Sizes, ReTagAll;
  }

  /** Every saved file is accepted, and gives back every blob and every item; a type and an id
      come back as the two halves of the tag that was written. */
  lemma ReadAfterSave(c: Contents, z: Zlib)
    requires z.Inverse() && Encode(c, z).Ok?
    ensures Decode(Encode(c, z).value, z) == Ok(ReadBack(c))
  {
    SavedReads(c, z);
    DecodeReads(FileBytes(c, z), Header(c, z), TypeTable(Types(c), c.items), Starts(Records(Flat(c))),
      Starts(Compressed(c.raws, z)), c.raws, Flat(c), z);
  }

  predicate ShortIds(c: Contents) {
    forall t, k :: t in c.items && 0 <= k < |c.items[t]| ==> c.items[t][k].id < 0x1_0000
  }

  /** The items come back as they were (each type's list in order) exactly when every id fits
      16 bits: `save` does not check that, and a longer id spills into the type. */
  lemma ItemsSurvive(c: Contents, z: Zlib)
    requires z.Inverse() && Encode(c, z).Ok?
    ensures Decode(Encode(c, z).value, z) == Ok(ReadBack(c))
    ensures ReadBack(c).raws == c.raws
    ensures ReadBack(c).items == Canonical(c.items) <==> ShortIds(c)
  {
    ReadAfterSave(c, z);
    if ShortIds(c) {
      ShortIdsSurvive(c);
    } else {
      var t, k :| t in c.items && 0 <= k < |c.items[t]| && c.items[t][k].id >= 0x1_0000;
      LongIdLost(c, t, k);
    }
  }

  lemma ShortIdsSurvive(c: Contents)
    requires ShortIds(c) && AllFit(Flat(c))
    ensures ReadBack(c).items == Canonical(c.items)
  {
    ShortFlat(c);
    Unchanged(Flat(c));
    GroupFlat(c);
  }

  lemma {:induction false} FlatOfIds(ts: seq<int>, items: map<int, seq<Item>>)
    requires TypesIn(ts, items)
    requires forall t, k :: t in items && 0 <= k < |items[t]| ==> items[t][k].id < 0x1_0000
    ensures forall k :: 0 <= k < |FlatOf(ts, items)| ==> FlatOf(ts, items)[k].id < 0x1_0000
  {
    if ts != [] {
      var t := ts[|ts| - 1];
      FlatOfIds(ts[..|ts| - 1], items);
      SortSorted(ItemKey, items[t]);
      forall k | 0 <= k < |items[t]|
        ensures Ordered(items[t])[k].id < 0x1_0000
      {
        assert Ordered(items[t])[k] in multiset(items[t]);
      }
    }
  }

  lemma ShortFlat(c: Contents)
    requires ShortIds(c)
    ensures forall k :: 0 <= k < |Flat(c)| ==> Flat(c)[k].id < 0x1_0000
  {
    FlatOfIds(Types(c), c.items);
  }

  lemma Unchanged(flat: seq<FlatItem>)
    requires AllFit(flat) && forall k :: 0 <= k < |flat| ==> flat[k].id < 0x1_0000
    ensures ReTagAll(flat, false) == flat
  {
    forall k | 0 <= k < |flat|
      ensures ReTag(flat[k], false) == flat[k]
    {
      RetaggedSame(flat[k]);
    }
  }

  lemma {:induction false} GroupShort(flat: seq<FlatItem>)
    requires forall k :: 0 <= k < |flat| ==> flat[k].id < 0x1_0000
    ensures forall t, k :: t in Group(flat) && 0 <= k < |Group(flat)[t]| ==> Group(flat)[t][k].id < 0x1_0000
  {
    if flat != [] {
      GroupShort(flat[..|flat| - 1]);
    }
  }

  lemma LongIdLost(c: Contents, t: int, k: nat)
    requires t in c.items && k < |c.items[t]| && c.items[t][k].id >= 0x1_0000
    ensures ReadBack(c).items != Canonical(c.items)
  {
    hide Group, FlatOf, Types;
    var x := c.items[t][k];
    SortSorted(ItemKey, c.items[t]);
    assert x in multiset(Ordered(c.items[t]));
    var j :| 0 <= j < |Ordered(c.items[t])| && Ordered(c.items[t])[j] == x;
    GroupShort(ReTagAll(Flat(c), false));
    assert Canonical(c.items)[t][j].id >= 0x1_0000;
  }

  /** A writer with one empty item of type t under the first id that is too long. */
  function LongId(t: int): Contents { Contents([], map[t := [Item(0x1_0000, [])]]) }

  /** Such a writer is saved without complaint, and its item comes back under another id. */
  lemma LongIdSaved(t: int, z: Zlib)
    requires 0 <= t < 0x1_0000
    ensures Encode(LongId(t), z).Ok? && !ShortIds(LongId(t))
    ensures Flat(LongId(t)) == [FlatItem(t, 0x1_0000, [])]
    ensures ReadBack(LongId(t)).items != Canonical(LongId(t).items)
  {
    hide Header, Directory, FileBytes, Tag, ReadBack;
    var c := LongId(t);
    OneType(t);
    LongTag(t);
    assert c.items[t][0].id == 0x1_0000;
    assert Compressed(c.raws, z) == [] && Concat(Compressed(c.raws, z)) == [];
    SaveSucceeds(c, z);
    LongIdLost(c, t, 0);
  }

  lemma OneType(t: int)
    ensures Types(LongId(t)) == [t] && Flat(LongId(t)) == [FlatItem(t, 0x1_0000, [])]
  {
    var c := LongId(t);
    SortedSetLists(c.items.Keys);
    assert c.items.Keys == {t} && |Types(c)| == 1 && Types(c)[0] in Types(c);
    var one := [Item(0x1_0000, [])];
    assert one[..0] == [] && Ordered(one) == one;
    assert [t][..0] == [] && FlatOf([t][..0], c.items) == [];
    assert FlatOf([t], c.items) == [] + Filed(t, one);
  }

  /** The id's bit beyond 16 lands in the lowest bit of the type. */
  lemma LongTag(t: int)
    requires 0 <= t < 0x1_0000
    ensures Tag(t, 0x1_0000) == (if t % 2 == 0 then t + 1 else t) * 0x1_0000
  {
    BitOrZero(t / 2);
  }

  lemma SameHeader(c: Contents, d: Contents, z: Zlib)
    requires z.Inverse() && Encode(c, z).Ok? && Encode(c, z) == Encode(d, z)
    ensures Header(c, z) == Header(d, z)
  {
    SavedReads(c, z);
    SavedReads(d, z);
  }

  /** A rebuilt writer never hands out an id that its file already uses. */
  lemma RebuiltNumbering(b: bytes, z: Zlib)
    requires Decode(b, z).Ok?
    ensures Numbered(Decode(b, z).value.items, Decode(b, z).value.nextId)
  {
    hide Window, WindowAt, UnpackInts, Blobs, Group, NextIds, ReadHeader, Items, IntsFrom;
    var h := ReadHeader(b).value.1;
    var io := IntsFrom(b, 36 + 12 * h[3], h[4]).value;
    ItemsUnsigned(b, ItemBase(h), io, |io|);
    GroupFresh(Items(b, ItemBase(h), io, false, |io|).value);
  }

  // ---- any accepted file ------------------------------------------------------

  /** An item as it can be read: type and id are halves of a word, and it can be packed again. */
  predicate Readable16(f: FlatItem) { 0 <= f.typ < 0x1_0000 && 0 <= f.id < 0x1_0000 && ItemFits(f) }

  lemma ItemAtReadable(b: bytes, base: int, off: int)
    requires ItemAt(b, base, off, false).Ok?
    ensures Readable16(ItemAt(b, base, off, false).value)
  {
    hide Window, WindowAt, UnpackInts;
    var f := ItemAt(b, base, off, false).value;
    BitOrZero(f.typ);
    assert f.id / 0x1_0000 == 0;
  }

  lemma {:induction false} ItemsReadable(b: bytes, base: int, io: seq<int>, n: nat)
    requires n <= |io| && Items(b, base, io, false, n).Ok?
    ensures forall k :: 0 <= k < n ==> Readable16(Items(b, base, io, false, n).value[k])
  {
    hide ItemAt, Readable16;
    if n > 0 {
      ItemsReadable(b, base, io, n - 1);
      ItemAtReadable(b, base, io[n - 1]);
    }
  }

  lemma {:induction false} BlobLengths(b: bytes, start: int, ro: seq<int>, rawSize: int, sizes: seq<int>, z: Zlib,
      n: nat)
    requires n <= |ro| == |sizes| && Blobs(b, start, ro, rawSize, Some(sizes), z, n).Ok?
    ensures forall k :: 0 <= k < n ==> |Blobs(b, start, ro, rawSize, Some(sizes), z, n).value[k]| == sizes[k]
  {
    if n > 0 {
      BlobLengths(b, start, ro, rawSize, sizes, z, n - 1);
    }
  }

  lemma GroupReadable(flat: seq<FlatItem>)
    requires forall k :: 0 <= k < |flat| ==> Readable16(flat[k])
    ensures AllReadable16(Group(flat)) && NoEmptyList(Group(flat))
  {
    hide Readable16, Group;
    forall t, k | t in Group(flat) && 0 <= k < |Group(flat)[t]|
      ensures Readable16(FlatItem(t, Group(flat)[t][k].id, Group(flat)[t][k].payload))
    {
      GroupMember(flat, t, k);
    }
    forall k | 0 <= k < |flat|
      ensures flat[k].id >= 0
    {
      NotNegative(flat[k]);
    }
    GroupFresh(flat);
  }

  lemma NotNegative(f: FlatItem)
    ensures Readable16(f) ==> f.id >= 0
  {
  }

  predicate AllReadable16(items: map<int, seq<Item>>) {
    forall t, k :: t in items && 0 <= k < |items[t]| ==> Readable16(FlatItem(t, items[t][k].id, items[t][k].payload))
  }

  lemma {:induction false} FlatReadable(ts: seq<int>, items: map<int, seq<Item>>)
    requires TypesIn(ts, items) && AllReadable16(items)
    ensures forall k :: 0 <= k < |FlatOf(ts, items)| ==> Readable16(FlatOf(ts, items)[k])
  {
    hide Readable16;
    if ts != [] {
      var n := |ts| - 1;
      var t := ts[n];
      FlatReadable(ts[..n], items);
      SortSorted(ItemKey, items[t]);
      forall k | 0 <= k < |items[t]|
        ensures Readable16(Filed(t, Ordered(items[t]))[k])
      {
        var x := Ordered(items[t])[k];
        assert x in multiset(items[t]);
        var j :| 0 <= j < |items[t]| && items[t][j] == x;
        assert Readable16(FlatItem(t, items[t][j].id, items[t][j].payload));
      }
    }
  }

  lemma TypesReadable(c: Contents)
    requires AllReadable16(c.items) && NoEmptyList(c.items)
    ensures AllI32(Types(c)) && ShortIds(c)
  {
    SortedSetLists(c.items.Keys);
    forall k | 0 <= k < |Types(c)|
      ensures IsI32(Types(c)[k])
    {
      var t := Types(c)[k];
      assert t in Types(c);
      assert Readable16(FlatItem(t, c.items[t][0].id, c.items[t][0].payload));
    }
    forall t, k | t in c.items && 0 <= k < |c.items[t]|
      ensures c.items[t][k].id < 0x1_0000
    {
      assert Readable16(FlatItem(t, c.items[t][k].id, c.items[t][k].payload));
    }
  }

  /** What a rebuilt writer holds, for any bytes the reader accepts. */
  lemma AcceptedContents(b: bytes, z: Zlib)
    requires Decode(b, z).Ok?
    ensures var c := Contents(Decode(b, z).value.raws, Decode(b, z).value.items);
            ShortIds(c) && NoEmptyList(c.items) && AllFit(Flat(c)) && AllI32(Types(c)) && AllI32(Sizes(c.raws))
  {
    hide ReadHeader, IntsFrom, Blobs, Items, Group, NextIds, Flat, Readable16, Types;
    var h := ReadHeader(b).value.1;
    var pos := 36 + 12 * h[3];
    var io := IntsFrom(b, pos, h[4]).value;
    var ro := IntsFrom(b, pos + 4 * h[4], h[5]).value;
    var sizes := IntsFrom(b, pos + 4 * h[4] + 4 * h[5], h[5]).value;
    IntsAreI32(b, pos + 4 * h[4] + 4 * h[5], h[5]);
    var c := Contents(Decode(b, z).value.raws, Decode(b, z).value.items);
    BlobLengths(b, ItemBase(h) + h[6], ro, h[7], sizes, z, |ro|);
    assert Sizes(c.raws) == sizes;
    ItemsReadable(b, ItemBase(h), io, |io|);
    GroupReadable(Items(b, ItemBase(h), io, false, |io|).value);
    TypesReadable(c);
    FlatFits(c);
  }

  lemma FlatFits(c: Contents)
    requires AllReadable16(c.items)
    ensures AllFit(Flat(c))
  {
    FlatReadable(Types(c), c.items);
  }

  lemma IntsAreI32(b: bytes, off: int, n: int)
    requires IntsFrom(b, off, n).Ok?
    ensures AllI32(IntsFrom(b, off, n).value)
  {
    hide Window, WindowAt;
  }
}
