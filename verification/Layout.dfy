/** The structural contract of a datafile, as the repository's own tests check it on any bytes,
    and the proof that every saved file meets it. */
module Layout {
  import opened Bytes
  import opened Sorting
  import opened SortedSets
  import opened Datafile
  import opened DatafileParse
  import opened Grouping
  import opened DatafileV4

  /** The header fields and tables of a file that has them all. */
  datatype Tables = Tables(h: seq<int>, rows: seq<int>, io: seq<int>, ro: seq<int>, sizes: seq<int>)

  function ReadTables(b: bytes): (r: Result<Tables>)
    ensures r.Ok? ==> |r.value.h| == 8 && |r.value.rows| == 3 * r.value.h[3] && |r.value.io| == r.value.h[4]
    ensures r.Ok? ==> |r.value.ro| == |r.value.sizes| == r.value.h[5]
  {
    var (magic, h) :- ReadHeader(b);
    if magic != MAGIC || h[0] != 4 then Err(AssertionError) else
    var rows :- IntsFrom(b, 36, 3 * h[3]);
    var pos := 36 + 12 * h[3];
    var io :- IntsFrom(b, pos, h[4]);
    var ro :- IntsFrom(b, pos + 4 * h[4], h[5]);
    var sizes :- IntsFrom(b, pos + 4 * h[4] + 4 * h[5], h[5]);
    Ok(Tables(h, rows, io, ro, sizes))
  }

  /** Where record i ends: at the next offset, or at the end of the item region. */
  function RecordEnd(t: Tables, i: nat): int
    requires |t.h| == 8 && i < |t.io|
  {
    if i + 1 < |t.io| then t.io[i + 1] else t.h[6]
  }

  /** Record i carries type `typ` and fills the space up to the next record. */
  predicate RecordOk(b: bytes, t: Tables, i: int, typ: int)
    requires |t.h| == 8
  {
    && 0 <= i < |t.io|
    && var w := Window(b, ItemBase(t.h) + t.io[i], 8);
       w.Ok? && ReadU32Le(w.value[..4]) / 0x1_0000 == typ && ReadI32Le(w.value[4..]) == RecordEnd(t, i) - t.io[i] - 8
  }

  /** The rows cover the items one after the other without a gap, and each row names the type
      of every record it covers. */
  predicate RowsOk(b: bytes, t: Tables, n: nat)
    requires |t.h| == 8 && |t.rows| == 3 * t.h[3] && n <= t.h[3]
  {
    if n == 0 then true else
    && RowsOk(b, t, n - 1)
    && t.rows[3 * (n - 1) + 1] == Covered(t, n - 1)
    && RowOk(b, t, Covered(t, n - 1), Covered(t, n), t.rows[3 * (n - 1)])
  }

  predicate RowOk(b: bytes, t: Tables, lo: int, hi: int, typ: int)
    requires |t.h| == 8
  {
    forall i :: lo <= i < hi ==> RecordOk(b, t, i, typ)
  }

  function Covered(t: Tables, n: nat): int
    requires |t.h| == 8 && |t.rows| == 3 * t.h[3] && n <= t.h[3]
  {
    if n == 0 then 0 else Covered(t, n - 1) + t.rows[3 * (n - 1) + 2]
  }

  predicate BlobsOk(b: bytes, t: Tables, z: Zlib)
    requires |t.h| == 8 && |t.ro| == |t.sizes|
  {
    Blobs(b, ItemBase(t.h) + t.h[6], t.ro, t.h[7], Some(t.sizes), z, |t.ro|).Ok?
  }

  predicate Validate(b: bytes, z: Zlib) {
    var r := ReadTables(b);
    && r.Ok?
    && var t := r.value;
       && t.h[1] + 16 == |b|
       && t.h[2] + 16 == ItemBase(t.h) + t.h[6]
       && ItemBase(t.h) + t.h[6] + t.h[7] == |b|
       && RowsOk(b, t, t.h[3])
       && Covered(t, t.h[3]) == t.h[4]
       && BlobsOk(b, t, z)
  }

  // ---- what the validator demands ------------------------------------------------

  /** The bytes of record i: its tag's high half is the type, and its size field and the eight bytes of its
      own header fill the room up to the next record. */
  ghost predicate RecordMeets(b: bytes, t: Tables, i: int, typ: int)
    requires |t.h| == 8
  {
    && 0 <= i < |t.io|
    && var w := Window(b, 36 + 12 * t.h[3] + 4 * t.h[4] + 8 * t.h[5] + t.io[i], 8);
       && w.Ok? && ReadU32Le(w.value[..4]) / 65536 == typ
       && t.io[i] + 8 + ReadI32Le(w.value[4..]) == if i + 1 < |t.io| then t.io[i + 1] else t.h[6]
  }

  /** Row j starts where the rows before it end, and every record it covers is of its type. */
  ghost predicate RowMeets(b: bytes, t: Tables, j: nat)
    requires |t.h| == 8 && |t.rows| == 3 * t.h[3] && j < t.h[3]
  {
    && t.rows[3 * j + 1] == (if j == 0 then 0 else t.rows[3 * j - 2] + t.rows[3 * j - 1])
    && forall i :: t.rows[3 * j + 1] <= i < t.rows[3 * j + 1] + t.rows[3 * j + 2] ==>
        RecordMeets(b, t, i, t.rows[3 * j])
  }

  lemma {:induction false} RowsMeet(b: bytes, t: Tables, n: nat)
    requires |t.h| == 8 && |t.rows| == 3 * t.h[3] && n <= t.h[3]
    ensures RowsOk(b, t, n) <==> forall j :: 0 <= j < n ==> RowMeets(b, t, j)
    ensures RowsOk(b, t, n) && n > 0 ==> Covered(t, n) == t.rows[3 * n - 2] + t.rows[3 * n - 1]
  {
    hide RecordMeets, RecordOk, RowOk;
    if n > 0 {
      RowsMeet(b, t, n - 1);
      if RowsOk(b, t, n - 1) { LastRow(b, t, n - 1); }
      hide RowMeets;
    }
  }

  lemma LastRow(b: bytes, t: Tables, j: nat)
    requires |t.h| == 8 && |t.rows| == 3 * t.h[3] && j < t.h[3] && RowsOk(b, t, j)
    requires Covered(t, j) == if j == 0 then 0 else t.rows[3 * j - 2] + t.rows[3 * j - 1]
    ensures RowsOk(b, t, j + 1) <==> RowMeets(b, t, j)
    ensures RowsOk(b, t, j + 1) ==> Covered(t, j + 1) == t.rows[3 * j + 1] + t.rows[3 * j + 2]
  {
    hide RecordMeets, RowOk;
    RowStep(b, t, j);
    assert Covered(t, j + 1) == Covered(t, j) + t.rows[3 * j + 2];
  }

  lemma RowStep(b: bytes, t: Tables, j: nat)
    requires |t.h| == 8 && |t.rows| == 3 * t.h[3] && j < t.h[3]
    ensures var (lo, size) := (t.rows[3 * j + 1], t.rows[3 * j + 2]);
            RowOk(b, t, lo, lo + size, t.rows[3 * j]) <==>
            forall i :: lo <= i < lo + size ==> RecordMeets(b, t, i, t.rows[3 * j])
  {
    hide RecordMeets, RecordOk;
    forall i
      ensures RecordOk(b, t, i, t.rows[3 * j]) <==> RecordMeets(b, t, i, t.rows[3 * j])
    {
      RecordIs(b, t, i, t.rows[3 * j]);
    }
  }

  lemma RecordIs(b: bytes, t: Tables, i: int, typ: int)
    requires |t.h| == 8
    ensures RecordOk(b, t, i, typ) <==> RecordMeets(b, t, i, typ)
  {
    hide Window, ReadU32Le, ReadI32Le;
  }

  /** The validator accepts a file exactly when both sizes count what they should, the regions fill it,
      every row starts where the one before it ends, the last row ends with the last item, every
      record is of the type of the row that covers it and reaches to the next one, and every blob
      inflates to its announced size. */
  lemma ValidExactly(b: bytes, z: Zlib)
    ensures Validate(b, z) <==>
            var r := ReadTables(b);
            && r.Ok?
            && var t := r.value; var base := 36 + 12 * t.h[3] + 4 * t.h[4] + 8 * t.h[5];
               && t.h[1] == |b| - 16 && t.h[2] == base + t.h[6] - 16 && |b| == base + t.h[6] + t.h[7]
               && (forall j: nat :: j < t.h[3] ==> RowMeets(b, t, j))
               && (if t.h[3] == 0 then 0 else t.rows[3 * t.h[3] - 2] + t.rows[3 * t.h[3] - 1]) == t.h[4]
               && Blobs(b, base + t.h[6], t.ro, t.h[7], Some(t.sizes), z, |t.ro|).Ok?
  {
    hide ReadTables, RowsOk, RowMeets, Blobs;
    var r := ReadTables(b);
    if r.Ok? {
      RowsMeet(b, r.value, r.value.h[3]);
      NoRows(r.value);
    }
  }

  lemma NoRows(t: Tables)
    requires |t.h| == 8 && |t.rows| == 3 * t.h[3]
    ensures t.h[3] == 0 ==> Covered(t, t.h[3]) == 0
  {
  }

  // ---- saved files ---------------------------------------------------------

  /** Item i of the flat list belongs to type ts[j] exactly when row j covers index i. */
  lemma {:induction false} FlatRow(ts: seq<int>, items: map<int, seq<Item>>, j: nat, i: nat)
    requires TypesIn(ts, items) && Distinct(ts) && j < |ts| && i < |FlatOf(ts, items)|
    ensures TypesIn(ts[..j], items)
    ensures FlatOf(ts, items)[i].typ in ts
    ensures FlatOf(ts, items)[i].typ == ts[j] <==>
        |FlatOf(ts[..j], items)| <= i < |FlatOf(ts[..j], items)| + |items[ts[j]]|
  {
    hide Sort;
    var n := |ts| - 1;
    var front := FlatOf(ts[..n], items);
    assert ts == ts[..n] + [ts[n]];
    if i < |front| {
      FlatRow(ts[..n], items, if j < n then j else 0, i);
      if j < n {
        assert ts[..n][..j] == ts[..j];
      } else {
        assert ts[..n] == ts[..j];
      }
    } else {
      assert FlatOf(ts, items)[i].typ == ts[n];
      if j < n {
        FlatPrefix(ts, items, j);
      }
    }
  }

  /** The rows before row n end at or before the start of row n. */
  lemma {:induction false} FlatPrefix(ts: seq<int>, items: map<int, seq<Item>>, j: nat)
    requires TypesIn(ts, items) && j < |ts| - 1
    ensures TypesIn(ts[..j], items) && TypesIn(ts[..|ts| - 1], items)
    ensures ts[j] in items
    ensures |FlatOf(ts[..j], items)| + |items[ts[j]]| <= |FlatOf(ts[..|ts| - 1], items)|
  {
    var n := |ts| - 1;
    var front := ts[..n];
    assert front[..n - 1] == ts[..n - 1];
    if j < n - 1 {
      FlatPrefix(front, items, j);
      assert front[..j] == ts[..j];
    } else {
      assert front[..n - 1] == ts[..j] && front[n - 1] == ts[j];
      assert FlatOf(front, items) == FlatOf(front[..n - 1], items) + Filed(front[n - 1], Ordered(items[front[n - 1]]));
    }
  }

  function SavedTablesOf(c: Contents, z: Zlib): Tables {
    Tables(Header(c, z), TypeTable(Types(c), c.items), Starts(Records(Flat(c))), Starts(Compressed(c.raws, z)),
        Sizes(c.raws))
  }

  lemma ReadsGiveTables(b: bytes, h: seq<int>, table: seq<int>, io: seq<int>, ro: seq<int>, sizes: seq<int>)
    requires ReadsTables(b, h, table, io, ro, sizes)
    ensures ReadTables(b) == Ok(Tables(h, table, io, ro, sizes))
  {
    hide IntsFrom, ReadHeader;
  }

  lemma {:induction false} CoveredIsStart(t: Tables, ts: seq<int>, items: map<int, seq<Item>>, n: nat)
    requires TypesIn(ts, items) && |t.h| == 8 && t.h[3] == |ts| && t.rows == TypeTable(ts, items) && n <= |ts|
    ensures TypesIn(ts[..n], items) && Covered(t, n) == |FlatOf(ts[..n], items)|
  {
    hide Filed, Sort;
    if n > 0 {
      CoveredIsStart(t, ts, items, n - 1);
      TypeRow(ts, items, n - 1);
      assert ts[..n][..n - 1] == ts[..n - 1];
    }
  }

  /** The eight bytes of record i: its tag and its size, which fills it up to the next record. */
  lemma SavedRecordOk(i: Image, flat: seq<FlatItem>, t: Tables, k: nat)
    requires i.Valid() && i.recs == Records(flat) && AllFit(flat) && k < |flat|
    requires t.h == i.h && t.io == Starts(i.recs)
    ensures RecordOk(i.File(), t, k, Tag(flat[k].typ, flat[k].id) / 0x1_0000)
  {
    hide PackInts, Concat, Le32, Tag;
    var f := flat[k];
    i.RecordAt(k);
    Tiles(i.recs, k);
    RecordParts(f);
    PartPrefix(i.File(), ItemBase(i.h) + Start(i.recs, k), Record(f), 0, 8);
    var w := Record(f)[0..8];
    assert w[..4] == Record(f)[..4] && w[4..] == Record(f)[4..8];
    Le32RoundTrip(Tag(f.typ, f.id));
    Le32RoundTrip(4 * |f.payload|);
    assert RecordEnd(t, k) == Start(i.recs, k + 1);
  }

  /** An index that row j covers is the index of an item of type j. */
  lemma CoveredItem(c: Contents, z: Zlib, j: nat, i: int)
    requires Fits(c, z) && j < |Types(c)|
    requires Covered(SavedTablesOf(c, z), j) <= i < Covered(SavedTablesOf(c, z), j + 1)
    ensures 0 <= i < |Flat(c)| && Flat(c)[i].typ == Types(c)[j]
  {
    hide FlatOf, Records, Compressed, Sort, Filed;
    var t, ts := SavedTablesOf(c, z), Types(c);
    TypesIncrease(c);
    CoveredIsStart(t, ts, c.items, j);
    CoveredIsStart(t, ts, c.items, j + 1);
    TypeRow(ts, c.items, j);
    TypesPrefix(ts, c.items, j + 1);
    FlatRow(ts, c.items, j, i);
  }

  /** The high half of the tag is the type: the bits of a long id that spill into it are set there already. */
  predicate KeepsType(f: FlatItem) { Tag(f.typ, f.id) / 0x1_0000 == f.typ }

  predicate TypesKept(c: Contents) { forall k :: 0 <= k < |Flat(c)| ==> KeepsType(Flat(c)[k]) }

  lemma OneType(b: bytes, t: Tables, i: int, typ: int, other: int)
    requires |t.h| == 8 && RecordOk(b, t, i, typ)
    ensures RecordOk(b, t, i, other) <==> other == typ
  {
  }

  /** A record that row j covers carries the type of that row exactly when its tag keeps it. */
  lemma SavedRow(c: Contents, z: Zlib, j: nat, i: int)
    requires Fits(c, z) && j < |Types(c)|
    requires Covered(SavedTablesOf(c, z), j) <= i < Covered(SavedTablesOf(c, z), j + 1)
    ensures 0 <= i < |Flat(c)|
    ensures RecordOk(FileBytes(c, z), SavedTablesOf(c, z), i, Types(c)[j]) <==> KeepsType(Flat(c)[i])
  {
    hide RecordOk, PackInts, Concat, Covered, FlatOf, Tag;
    CoveredItem(c, z, j, i);
    ImageValid(c, z);
    SavedRecordOk(ImageOf(c, z), Flat(c), SavedTablesOf(c, z), i);
    var f := Flat(c)[i];
    OneType(FileBytes(c, z), SavedTablesOf(c, z), i, Tag(f.typ, f.id) / 0x1_0000, f.typ);
  }

  /** Row j of the table starts where the earlier rows end. */
  lemma SavedRowStart(c: Contents, z: Zlib, j: nat)
    requires j < |Types(c)|
    ensures var t := SavedTablesOf(c, z); t.rows[3 * j + 1] == Covered(t, j) && t.rows[3 * j] == Types(c)[j]
  {
    hide FlatOf, Concat;
    CoveredIsStart(SavedTablesOf(c, z), Types(c), c.items, j);
    TypeRow(Types(c), c.items, j);
  }

  /** The first n rows are in order exactly when the records they cover keep their types. */
  lemma {:induction false} SavedRows(c: Contents, z: Zlib, n: nat)
    requires Fits(c, z) && n <= |Types(c)|
    ensures RowsOk(FileBytes(c, z), SavedTablesOf(c, z), n) <==>
            forall i :: 0 <= i < Covered(SavedTablesOf(c, z), n) && i < |Flat(c)| ==> KeepsType(Flat(c)[i])
  {
    if n > 0 {
      hide FileBytes, Fits, Flat, Covered, Types, TypeTable, KeepsType, RecordOk;
      var t, j := SavedTablesOf(c, z), n - 1;
      SavedRows(c, z, j);
      SavedRowStart(c, z, j);
      CoveredGrows(c, z, j);
      forall i | Covered(t, j) <= i < Covered(t, n)
        ensures 0 <= i < |Flat(c)|
        ensures RecordOk(FileBytes(c, z), t, i, Types(c)[j]) <==> KeepsType(Flat(c)[i])
      {
        SavedRow(c, z, j, i);
      }
    }
  }

  lemma CoveredGrows(c: Contents, z: Zlib, j: nat)
    requires j < |Types(c)|
    ensures 0 <= Covered(SavedTablesOf(c, z), j) <= Covered(SavedTablesOf(c, z), j + 1)
  {
    hide FlatOf, Concat;
    CoveredIsStart(SavedTablesOf(c, z), Types(c), c.items, j);
    TypeRow(Types(c), c.items, j);
  }

  lemma TypesIncrease(c: Contents)
    ensures Distinct(Types(c))
  {
    SortedSetLists(c.items.Keys);
  }

  lemma {:induction false} TypesPrefix(ts: seq<int>, items: map<int, seq<Item>>, n: nat)
    requires TypesIn(ts, items) && n <= |ts|
    ensures TypesIn(ts[..n], items) && |FlatOf(ts[..n], items)| <= |FlatOf(ts, items)|
  {
    if n < |ts| {
      TypesPrefix(ts[..|ts| - 1], items, n);
      assert ts[..|ts| - 1][..n] == ts[..n];
    } else {
      assert ts[..n] == ts;
    }
  }

  /** The independent validator accepts a saved file exactly when every item keeps its type, as all
      items with ids of 16 bits do: sizes and region starts always add up, records and blobs tile
      their regions, and the rest is the agreement of the type table with the records it indexes. */
  lemma SavedIsValid(c: Contents, z: Zlib)
    requires z.Inverse() && Encode(c, z).Ok?
    ensures Validate(Encode(c, z).value, z) <==> TypesKept(c)
    ensures ShortIds(c) ==> TypesKept(c)
  {
    hide IntsFrom, ReadHeader, Blobs, Items, ReTagAll, RowsOk, FlatOf, Starts, Compressed, Records, TypeTable,
      Covered, Types, KeepsType;
    var t := SavedTablesOf(c, z);
    SavedReads(c, z);
    ReadsGiveTables(FileBytes(c, z), t.h, t.rows, t.io, t.ro, t.sizes);
    SavedRows(c, z, |Types(c)|);
    CoveredIsStart(t, Types(c), c.items, |Types(c)|);
    assert Types(c)[..|Types(c)|] == Types(c);
    assert Covered(t, t.h[3]) == |FlatOf(Types(c), c.items)| == |Flat(c)|;
    if ShortIds(c) { ShortKeeps(c); }
  }

  lemma ShortKeeps(c: Contents)
    requires ShortIds(c) && AllFit(Flat(c))
    ensures TypesKept(c)
  {
    hide Flat, Tag;
    ShortFlat(c);
    forall k | 0 <= k < |Flat(c)|
      ensures KeepsType(Flat(c)[k])
    {
      assert ItemFits(Flat(c)[k]);
      RetaggedSame(Flat(c)[k]);
    }
  }

  /** A long id can break the table: one item of type 4 with id 65536 is tagged as type 5. */
  lemma TypeFourFails(z: Zlib)
    requires z.Inverse()
    ensures Encode(LongId(4), z).Ok? && !Validate(Encode(LongId(4), z).value, z)
  {
    hide Encode, Validate, Flat, ReadBack, Tag;
    LongIdSaved(4, z);
    LongTag(4);
    SavedIsValid(LongId(4), z);
    assert !KeepsType(Flat(LongId(4))[0]);
  }

  /** It need not: with type 1 the spilled bit is set already. */
  lemma TypeOneHolds(z: Zlib)
    requires z.Inverse()
    ensures Encode(LongId(1), z).Ok? && Validate(Encode(LongId(1), z).value, z) && !ShortIds(LongId(1))
  {
    hide Encode, Validate, Flat, ReadBack, Tag;
    LongIdSaved(1, z);
    LongTag(1);
    SavedIsValid(LongId(1), z);
  }

  /** Row j covers record i exactly when record i is tagged with row j's type. */
  ghost predicate Agrees(c: Contents, z: Zlib, j: nat, i: nat)
    requires j < |Types(c)| && i < |Flat(c)|
  {
    var t := SavedTablesOf(c, z);
    var item := ItemAt(FileBytes(c, z), ItemBase(t.h), t.io[i], false);
    item.Ok? && (item.value.typ == t.rows[3 * j] <==> t.rows[3 * j + 1] <= i < t.rows[3 * j + 1] + t.rows[3 * j + 2])
  }

  /** Looking types up through the type table or reading them off the records is the same for all
      rows and records of a saved file exactly when every item keeps its type. */
  lemma IndexAgreesWithScan(c: Contents, z: Zlib)
    requires z.Inverse() && Encode(c, z).Ok?
    ensures ReadTables(Encode(c, z).value) == Ok(SavedTablesOf(c, z))
    ensures (forall j, i :: 0 <= j < |Types(c)| && 0 <= i < |Flat(c)| ==> Agrees(c, z, j, i)) <==> TypesKept(c)
  {
    hide IntsFrom, ReadHeader, Blobs, Items, ItemAt, KeepsType, Flat, Types, Agrees, FileBytes, Header, Directory;
    var t := SavedTablesOf(c, z);
    SavedReads(c, z);
    ReadsGiveTables(FileBytes(c, z), t.h, t.rows, t.io, t.ro, t.sizes);
    forall j, i | 0 <= j < |Types(c)| && 0 <= i < |Flat(c)|
      ensures KeepsType(Flat(c)[i]) ==> Agrees(c, z, j, i)
      ensures Flat(c)[i].typ == Types(c)[j] && Agrees(c, z, j, i) ==> KeepsType(Flat(c)[i])
    {
      AgreesExactly(c, z, j, i);
    }
    forall i | 0 <= i < |Flat(c)|
      ensures exists j :: 0 <= j < |Types(c)| && Flat(c)[i].typ == Types(c)[j]
    {
      HasRow(c, i);
    }
  }

  lemma HasRow(c: Contents, i: nat)
    requires i < |Flat(c)|
    ensures exists j :: 0 <= j < |Types(c)| && Flat(c)[i].typ == Types(c)[j]
  {
    TypesIncrease(c);
    var ts := Types(c);
    if ts != [] {
      FlatRow(ts, c.items, 0, i);
      assert Flat(c)[i].typ in ts;
    }
  }

  lemma AgreesExactly(c: Contents, z: Zlib, j: nat, i: nat)
    requires Fits(c, z) && j < |Types(c)| && i < |Flat(c)|
    ensures KeepsType(Flat(c)[i]) ==> Agrees(c, z, j, i)
    ensures Flat(c)[i].typ == Types(c)[j] && Agrees(c, z, j, i) ==> KeepsType(Flat(c)[i])
  {
    hide ItemAt, Tag, FlatOf;
    var ts := Types(c);
    SavedItemAt(c, z, i);
    TypesIncrease(c);
    TypeRow(ts, c.items, j);
    FlatRow(ts, c.items, j, i);
  }

  lemma SavedItemAt(c: Contents, z: Zlib, i: nat)
    requires Fits(c, z) && i < |Flat(c)|
    ensures ItemAt(FileBytes(c, z), ItemBase(Header(c, z)), Starts(Records(Flat(c)))[i], false) ==
        Ok(ReTag(Flat(c)[i], false))
  {
    hide ItemAt;
    var image, flat := ImageOf(c, z), Flat(c);
    ImageValid(c, z);
    image.RecordAt(i);
    RecordParses(image.File(), ItemBase(image.h), Start(image.recs, i), flat[i], false);
  }
}
