/** Saving a writer that was rebuilt from a file: when it gives the same bytes again. */
module Resave {
  import opened Bytes
  import opened Sorting
  import opened SortedSets
  import opened Datafile
  import opened DatafileParse
  import opened Grouping
  import opened DatafileV4
  import opened Layout

  /** The items with the 16 bits of their ids that a tag has room for. */
  function Cut(xs: seq<Item>): (r: seq<Item>)
    ensures |r| == |xs|
  {
    seq(|xs|, k requires 0 <= k < |xs| => Item(xs[k].id % 0x1_0000, xs[k].payload))
  }

  /** Every type's list in the order it is written, with its ids cut. */
  function CutLists(items: map<int, seq<Item>>): (r: map<int, seq<Item>>)
    ensures r.Keys == items.Keys
  {
    map t | t in items :: Cut(Ordered(items[t]))
  }

  /** Cutting the ids leaves every list in order. */
  predicate OrderKept(c: Contents) { forall t :: t in c.items ==> SortedBy(ItemKey, CutLists(c.items)[t]) }

  /** What `read` rebuilds from the file of c, as a writer to save. */
  function Rebuilt(c: Contents): Contents { Contents(ReadBack(c).raws, ReadBack(c).items) }

  // ---- what is read back where every item keeps its type -----------------------------

  /** The lists one after the other, as they are. */
  function Blocks(ts: seq<int>, lists: map<int, seq<Item>>): seq<FlatItem>
    requires TypesIn(ts, lists)
  {
    if ts == [] then []
    else
      var n := |ts| - 1;
      Blocks(ts[..n], lists) + Filed(ts[n], lists[ts[n]])
  }

  lemma {:induction false} GroupBlocks(ts: seq<int>, lists: map<int, seq<Item>>)
    requires TypesIn(ts, lists) && Distinct(ts)
    ensures forall t :: t in Group(Blocks(ts, lists)) <==> t in ts && lists[t] != []
    ensures forall t :: t in ts && lists[t] != [] ==> Group(Blocks(ts, lists))[t] == lists[t]
  {
    if ts != [] {
      var n := |ts| - 1;
      var t := ts[n];
      GroupBlocks(ts[..n], lists);
      assert t !in ts[..n];
      GroupBlock(Blocks(ts[..n], lists), t, lists[t]);
      assert ts == ts[..n] + [t];
    }
  }

  lemma Halves(q: int, r: int)
    requires 0 <= r < 0x1_0000
    ensures (q * 0x1_0000 + r) / 0x1_0000 == q && (q * 0x1_0000 + r) % 0x1_0000 == r
  {
  }

  /** The tag of an id and of its 16 low bits is the same if no bit of the id spills over. */
  lemma KeptTag(t: nat, i: nat)
    requires Tag(t, i) / 0x1_0000 == t
    ensures Tag(t, i % 0x1_0000) == Tag(t, i) && Tag(t, i) % 0x1_0000 == i % 0x1_0000
  {
    hide BitOr;
    var r := i % 0x1_0000;
    Halves(BitOr(t, i / 0x1_0000), r);
    Halves(0, r);
    BitOrZero(t);
  }

  lemma KeptItem(f: FlatItem)
    requires ItemFits(f) && KeepsType(f)
    ensures ReTag(f, false) == FlatItem(f.typ, f.id % 0x1_0000, f.payload)
    ensures Record(ReTag(f, false)) == Record(f) && ItemFits(ReTag(f, false))
  {
    hide PackInts, Le32, Tag;
    NonNegative(f);
    KeptTag(f.typ, f.id);
  }

  lemma NonNegative(f: FlatItem)
    requires ItemFits(f)
    ensures f.typ >= 0 && f.id >= 0
  {
  }

  lemma ReTagAppend(a: seq<FlatItem>, b: seq<FlatItem>)
    ensures ReTagAll(a + b, false) == ReTagAll(a, false) + ReTagAll(b, false)
  {
    hide ReTag;
  }

  lemma KeptBlock(t: int, xs: seq<Item>)
    requires forall k :: 0 <= k < |xs| ==> ItemFits(Filed(t, xs)[k]) && KeepsType(Filed(t, xs)[k])
    ensures ReTagAll(Filed(t, xs), false) == Filed(t, Cut(xs))
  {
    hide ReTag, ItemFits, KeepsType;
    forall k | 0 <= k < |xs|
      ensures ReTag(Filed(t, xs)[k], false) == Filed(t, Cut(xs))[k]
    {
      KeptItem(Filed(t, xs)[k]);
    }
  }

  predicate Kept(flat: seq<FlatItem>) { forall k :: 0 <= k < |flat| ==> ItemFits(flat[k]) && KeepsType(flat[k]) }

  lemma KeptParts(a: seq<FlatItem>, b: seq<FlatItem>)
    requires Kept(a + b)
    ensures Kept(a) && Kept(b)
  {
    hide ItemFits, KeepsType;
    assert forall k :: 0 <= k < |a| ==> (a + b)[k] == a[k];
    assert forall k :: 0 <= k < |b| ==> (a + b)[|a| + k] == b[k];
  }

  lemma {:induction false} KeptBlocks(ts: seq<int>, items: map<int, seq<Item>>)
    requires TypesIn(ts, items) && Kept(FlatOf(ts, items))
    ensures ReTagAll(FlatOf(ts, items), false) == Blocks(ts, CutLists(items))
  {
    if ts != [] {
      hide ReTagAll, Kept, Filed, Ordered, Cut;
      var n := |ts| - 1;
      var block := Filed(ts[n], Ordered(items[ts[n]]));
      KeptParts(FlatOf(ts[..n], items), block);
      KeptBlocks(ts[..n], items);
      KeptFiled(ts[n], Ordered(items[ts[n]]));
      ReTagAppend(FlatOf(ts[..n], items), block);
    }
  }

  lemma KeptFiled(t: int, xs: seq<Item>)
    requires Kept(Filed(t, xs))
    ensures ReTagAll(Filed(t, xs), false) == Filed(t, Cut(xs))
  {
    KeptBlock(t, xs);
  }

  /** Types without an item leave no trace. */
  function NonEmpty(lists: map<int, seq<Item>>): map<int, seq<Item>> {
    map t | t in lists && lists[t] != [] :: lists[t]
  }

  lemma GroupsNonEmpty(ts: seq<int>, lists: map<int, seq<Item>>)
    requires TypesIn(ts, lists) && Distinct(ts) && forall t :: t in lists ==> t in ts
    ensures Group(Blocks(ts, lists)) == NonEmpty(lists)
  {
    GroupBlocks(ts, lists);
    var g, k := Group(Blocks(ts, lists)), NonEmpty(lists);
    forall t
      ensures t in g <==> t in k
      ensures t in g ==> g[t] == k[t]
    {
      assert t in ts <==> t in lists;
    }
  }

  /** Where every item keeps its type, the reader files the cut lists of all types that have items. */
  lemma KeptReadBack(c: Contents)
    requires AllFit(Flat(c)) && TypesKept(c)
    ensures ReadBack(c).items == NonEmpty(CutLists(c.items))
  {
    hide Group, CutLists, ReTagAll, FlatOf, Blocks, ItemFits, KeepsType, NonEmpty;
    TypesIncrease(c);
    SortedSetLists(c.items.Keys);
    KeptBlocks(Types(c), c.items);
    GroupsNonEmpty(Types(c), CutLists(c.items));
  }

  lemma CutNone(items: map<int, seq<Item>>)
    ensures forall t :: t in items ==> |CutLists(items)[t]| == |items[t]|
  {
  }

  lemma NonEmptyAll(items: map<int, seq<Item>>)
    requires NoEmptyList(items)
    ensures NonEmpty(CutLists(items)) == CutLists(items)
  {
    hide Sort;
    var lists := CutLists(items);
    forall t | t in lists
      ensures lists[t] != []
    {
      CutNone(items);
    }
  }

  // ---- the condition is enough ---------------------------------------------------------

  lemma {:induction false} SortedBlocks(ts: seq<int>, lists: map<int, seq<Item>>)
    requires TypesIn(ts, lists) && forall t :: t in ts ==> SortedBy(ItemKey, lists[t])
    ensures FlatOf(ts, lists) == Blocks(ts, lists)
  {
    if ts != [] {
      hide SortedBy, Filed, Sort;
      var n := |ts| - 1;
      var t := ts[n];
      SortedBlocks(ts[..n], lists);
      assert t in ts;
      SortOfSorted(ItemKey, lists[t]);
    }
  }

  lemma {:induction false} SameTable(ts: seq<int>, a: map<int, seq<Item>>, b: map<int, seq<Item>>)
    requires TypesIn(ts, a) && TypesIn(ts, b) && forall t :: t in ts ==> |a[t]| == |b[t]|
    ensures TypeTable(ts, a) == TypeTable(ts, b) && |FlatOf(ts, a)| == |FlatOf(ts, b)|
  {
    if ts != [] {
      hide Filed, Sort;
      SameTable(ts[..|ts| - 1], a, b);
    }
  }

  lemma SameBytes(c: Contents, d: Contents, z: Zlib)
    requires c.raws == d.raws && Types(c) == Types(d) && TypeTable(Types(c), c.items) == TypeTable(Types(d), d.items)
    requires Records(Flat(c)) == Records(Flat(d)) && AllFit(Flat(c)) && AllFit(Flat(d))
    ensures Encode(c, z) == Encode(d, z)
  {
    hide Concat, Starts, PackInts, Flat, Types, Records, ItemFits;
    assert |Flat(c)| == |Records(Flat(c))| == |Flat(d)|;
    assert Directory(c, z) == Directory(d, z);
    assert SwapLen(c) == SwapLen(d);
    assert Header(c, z) == Header(d, z);
  }

  lemma KeptRecords(flat: seq<FlatItem>)
    requires Kept(flat)
    ensures Records(ReTagAll(flat, false)) == Records(flat) && AllFit(ReTagAll(flat, false))
  {
    hide Record, ItemFits, KeepsType, ReTag;
    forall k | 0 <= k < |flat|
      ensures Record(ReTag(flat[k], false)) == Record(flat[k]) && ItemFits(ReTag(flat[k], false))
    {
      KeptItem(flat[k]);
    }
  }

  lemma KeptMap(c: Contents)
    requires AllFit(Flat(c)) && TypesKept(c) && NoEmptyList(c.items)
    ensures Rebuilt(c).items == CutLists(c.items) && Types(Rebuilt(c)) == Types(c)
  {
    hide ReadBack, Flat, CutLists, NonEmpty, TypesKept, AllFit;
    KeptReadBack(c);
    NonEmptyAll(c.items);
  }

  lemma ResavesIf(c: Contents, z: Zlib)
    requires AllFit(Flat(c)) && NoEmptyList(c.items) && TypesKept(c) && OrderKept(c)
    ensures Encode(Rebuilt(c), z) == Encode(c, z)
  {
    hide Encode, FlatOf, Types, ReadBack, Records, ItemFits, KeepsType, Ordered, Cut, SortedBy, ReTagAll;
    var d, ts := Rebuilt(c), Types(c);
    KeptMap(c);
    KeptBlocks(ts, c.items);
    SortedBlocks(ts, d.items);
    CutNone(c.items);
    SameTable(ts, c.items, d.items);
    KeptRecords(Flat(c));
    assert Flat(d) == ReTagAll(Flat(c), false);
    SameRaws(c);
    SameBytes(c, d, z);
  }

  lemma SameRaws(c: Contents)
    ensures Rebuilt(c).raws == c.raws
  {
  }

  // ---- and needed ------------------------------------------------------------------------

  lemma RebuiltShort(c: Contents, z: Zlib)
    requires z.Inverse() && Encode(c, z).Ok?
    ensures Decode(Encode(c, z).value, z) == Ok(ReadBack(c))
    ensures ShortIds(Rebuilt(c)) && NoEmptyList(Rebuilt(c).items)
  {
    hide Encode, ReadBack, Decode, Flat, Types;
    ReadAfterSave(c, z);
    AcceptedContents(Encode(c, z).value, z);
  }

  /** The same bytes give the same verdict of the validator, and a rebuilt writer always passes. */
  lemma TypesKeptIfSame(c: Contents, z: Zlib)
    requires z.Inverse() && Encode(c, z).Ok? && Encode(Rebuilt(c), z) == Encode(c, z)
    ensures TypesKept(c)
  {
    hide Encode, Rebuilt, Validate, Decode, TypesKept, ShortIds;
    RebuiltShort(c, z);
    SavedIsValid(Rebuilt(c), z);
    SavedIsValid(c, z);
  }

  /** They have as many rows in the type table, so no type was dropped. */
  lemma NoneDroppedIfSame(c: Contents, z: Zlib)
    requires z.Inverse() && Encode(c, z).Ok? && Encode(Rebuilt(c), z) == Encode(c, z) && TypesKept(c)
    ensures NoEmptyList(c.items)
  {
    if !NoEmptyList(c.items) {
      hide Encode, ReadBack, Decode, Flat, Types, TypesKept, Header, CutLists, Canonical, NonEmpty, NoEmptyList;
      var d := Contents(c.raws, Canonical(c.items));
      SameHeader(c, Rebuilt(c), z);
      HeaderTypes(c, Rebuilt(c), z);
      EncodedFits(c, z);
      KeptReadBack(c);
      SameKeys(c.items);
      TypeCount(Rebuilt(c));
      TypeCount(d);
      EmptyListFile(c);
    }
  }

  lemma SameKeys(items: map<int, seq<Item>>)
    ensures NonEmpty(CutLists(items)).Keys == Canonical(items).Keys
  {
    hide Sort;
    var lists := CutLists(items);
    forall t
      ensures t in NonEmpty(lists) <==> t in Canonical(items)
    {
      CutNone(items);
      assert t in items ==> |lists[t]| == |items[t]|;
    }
  }

  lemma EncodedFits(c: Contents, z: Zlib)
    requires Encode(c, z).Ok?
    ensures AllFit(Flat(c))
  {
  }

  lemma HeaderTypes(c: Contents, d: Contents, z: Zlib)
    requires Header(c, z) == Header(d, z)
    ensures |Types(c)| == |Types(d)|
  {
    assert Header(c, z)[3] == |Types(c)|;
  }

  /** They are read as the same lists, and one of them has its lists in order. */
  lemma OrderKeptIfSame(c: Contents, z: Zlib)
    requires z.Inverse() && Encode(c, z).Ok? && Encode(Rebuilt(c), z) == Encode(c, z)
    requires TypesKept(c) && NoEmptyList(c.items)
    ensures OrderKept(c)
  {
    hide Encode, ReadBack, Decode, Flat, Types, TypesKept, ShortIds, SortedBy, Sort, Cut;
    EncodedFits(c, z);
    KeptMap(c);
    RebuiltShort(c, z);
    ItemsSurvive(Rebuilt(c), z);
    var lists := CutLists(c.items);
    assert Canonical(lists) == lists;
    forall t | t in c.items
      ensures SortedBy(ItemKey, lists[t])
    {
      assert Ordered(lists[t]) == lists[t];
      SortSorted(ItemKey, lists[t]);
    }
  }

  // ---- the theorem -------------------------------------------------------------------------

  /** For every writer that can be saved: reading its file and saving again gives the same bytes if
      and only if no type has an empty list, every item keeps its type in its tag, and every list is
      still in order once its ids are cut to 16 bits. */
  lemma ResavesExactly(c: Contents, z: Zlib)
    requires z.Inverse() && Encode(c, z).Ok?
    ensures Decode(Encode(c, z).value, z) == Ok(ReadBack(c))
    ensures Encode(Rebuilt(c), z) == Encode(c, z) <==> NoEmptyList(c.items) && TypesKept(c) && OrderKept(c)
  {
    hide Encode, ReadBack, Rebuilt, Decode, Flat, TypesKept, OrderKept, NoEmptyList;
    ReadAfterSave(c, z);
    if Encode(Rebuilt(c), z) == Encode(c, z) {
      TypesKeptIfSame(c, z);
      NoneDroppedIfSame(c, z);
      OrderKeptIfSame(c, z);
    } else if NoEmptyList(c.items) && TypesKept(c) && OrderKept(c) {
      EncodedFits(c, z);
      ResavesIf(c, z);
    }
  }

  // ---- ids of 16 bits ------------------------------------------------------------------------

  /** Ids of 16 bits keep types and order. */
  lemma ShortKeepsAll(c: Contents)
    requires AllFit(Flat(c)) && ShortIds(c)
    ensures TypesKept(c) && OrderKept(c)
  {
    hide Flat, ReadBack, Cut, Sort, TypesKept, SortedBy, ItemFits;
    ShortKeeps(c);
    ShortIdsSurvive(c);
    KeptReadBack(c);
    CutNone(c.items);
    forall t | t in c.items
      ensures SortedBy(ItemKey, CutLists(c.items)[t])
    {
      SortSorted(ItemKey, c.items[t]);
      NothingSorted(CutLists(c.items)[t]);
      assert c.items[t] != [] ==> Canonical(c.items)[t] == NonEmpty(CutLists(c.items))[t];
    }
  }

  lemma NothingSorted(xs: seq<Item>)
    ensures xs == [] ==> SortedBy(ItemKey, xs)
  {
  }

  /** So with ids of 16 bits it only takes that no type was left without items. */
  lemma ResaveIdentical(c: Contents, z: Zlib)
    requires z.Inverse() && Encode(c, z).Ok? && ShortIds(c)
    ensures Encode(Rebuilt(c), z) == Encode(c, z) <==> NoEmptyList(c.items)
  {
    hide Encode, Rebuilt, Flat, TypesKept, OrderKept, NoEmptyList, ShortIds;
    ResavesExactly(c, z);
    EncodedFits(c, z);
    ShortKeepsAll(c);
  }

  /** Any file the reader accepts can be saved again, as long as that stays below 2 GiB, and then
      gives back the same blobs and the same items in order. From there on the bytes are stable. */
  lemma AcceptedResaves(b: bytes, z: Zlib)
    requires Decode(b, z).Ok? && z.Inverse()
    ensures var c := Contents(Decode(b, z).value.raws, Decode(b, z).value.items);
            && (Encode(c, z).Ok? <==> SwapLen(c) + |Concat(Compressed(c.raws, z))| < TWO31)
            && (Encode(c, z).Ok? ==>
                  && Decode(Encode(c, z).value, z) == Ok(ReadBack(c))
                  && ReadBack(c).raws == c.raws && ReadBack(c).items == Canonical(c.items)
                  && Encode(Rebuilt(c), z) == Encode(c, z))
  {
    hide Decode, Flat, Types, Canonical, ReadBack, Rebuilt, FileBytes, Header, Directory;
    var c := Contents(Decode(b, z).value.raws, Decode(b, z).value.items);
    AcceptedContents(b, z);
    SaveSucceeds(c, z);
    if Encode(c, z).Ok? {
      ItemsSurvive(c, z);
      ResaveIdentical(c, z);
    }
  }

  // ---- each condition can fail alone ------------------------------------------------------------

  /** An item of type 4 with id 65536 is tagged as type 5: no list is empty, and the bytes differ. */
  lemma TypeFourResaved(z: Zlib)
    requires z.Inverse()
    ensures Encode(LongId(4), z).Ok? && NoEmptyList(LongId(4).items) && OrderKept(LongId(4))
    ensures Encode(Rebuilt(LongId(4)), z) != Encode(LongId(4), z)
  {
    hide Encode, Rebuilt, Validate, Flat, OrderKept, TypesKept;
    TypeFourFails(z);
    SavedIsValid(LongId(4), z);
    LongIdOrder(4);
    ResavesExactly(LongId(4), z);
  }

  /** The same under type 1 keeps its type, and the bytes are the same although the id is long. */
  lemma TypeOneResaved(z: Zlib)
    requires z.Inverse()
    ensures Encode(LongId(1), z).Ok? && !ShortIds(LongId(1))
    ensures Encode(Rebuilt(LongId(1)), z) == Encode(LongId(1), z)
  {
    hide Encode, Rebuilt, Validate, Flat, OrderKept, TypesKept;
    TypeOneHolds(z);
    SavedIsValid(LongId(1), z);
    LongIdOrder(1);
    ResavesExactly(LongId(1), z);
  }

  lemma LongIdOrder(t: int)
    ensures OrderKept(LongId(t)) && NoEmptyList(LongId(t).items)
  {
    assert |CutLists(LongId(t).items)[t]| == 1;
  }

  /** Two items of type 1, the second with the first id that is too long. */
  const CROSSED: Contents := Contents([], map[1 := [Item(5, []), Item(0x1_0000, [])]])

  /** Both keep their type, but cut to 16 bits their ids are out of order, and the bytes differ. */
  lemma CrossedResaved(z: Zlib)
    requires z.Inverse()
    ensures Encode(CROSSED, z).Ok? && NoEmptyList(CROSSED.items) && TypesKept(CROSSED)
    ensures Encode(Rebuilt(CROSSED), z) != Encode(CROSSED, z)
  {
    hide Encode, Rebuilt, OrderKept, TypesKept, NoEmptyList;
    CrossedSaved(z);
    CrossedOrder();
    CrossedTypes();
    ResavesExactly(CROSSED, z);
  }

  lemma CrossedTypes()
    ensures TypesKept(CROSSED)
  {
    hide Flat, Types, Tag;
    LongTag(1);
    ShortTag(1, 5);
    CrossedFlat();
  }

  lemma CrossedOrder()
    ensures !OrderKept(CROSSED) && NoEmptyList(CROSSED.items)
  {
    hide Sort, Types, Flat;
    CrossedFlat();
    var cut := CutLists(CROSSED.items)[1];
    assert ItemKey(cut[0]) == [5] && ItemKey(cut[1]) == [0];
    assert !Below(ItemKey, cut[0], cut[1]);
  }

  lemma CrossedSaved(z: Zlib)
    ensures Encode(CROSSED, z).Ok?
  {
    hide Header, Directory, FileBytes, Tag, Flat, Types;
    CrossedFlat();
    LongTag(1);
    ShortTag(1, 5);
    assert Compressed(CROSSED.raws, z) == [] && Concat(Compressed(CROSSED.raws, z)) == [];
    SaveSucceeds(CROSSED, z);
  }

  lemma ShortTag(t: nat, i: nat)
    requires i < 0x1_0000
    ensures Tag(t, i) == t * 0x1_0000 + i
  {
    BitOrZero(t);
  }

  lemma CrossedFlat()
    ensures Types(CROSSED) == [1] && Ordered(CROSSED.items[1]) == CROSSED.items[1]
    ensures Flat(CROSSED) == [FlatItem(1, 5, []), FlatItem(1, 0x1_0000, [])]
  {
    hide Sort;
    CrossedSorted();
    SortedSetLists(CROSSED.items.Keys);
    assert CROSSED.items.Keys == {1} && |Types(CROSSED)| == 1 && Types(CROSSED)[0] in Types(CROSSED);
    assert [1][..0] == [] && FlatOf([1][..0], CROSSED.items) == [];
    assert FlatOf([1], CROSSED.items) == [] + Filed(1, CROSSED.items[1]);
  }

  lemma CrossedSorted()
    ensures Ordered(CROSSED.items[1]) == CROSSED.items[1]
  {
    hide Sort;
    var xs := CROSSED.items[1];
    assert LexLe([5], [0x1_0000]) && ItemKey(xs[0]) == [5] && ItemKey(xs[1]) == [0x1_0000];
    SortOfSorted(ItemKey, xs);
  }
}
