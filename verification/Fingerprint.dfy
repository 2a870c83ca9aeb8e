/** The gameplay fingerprint: what is hashed, and what it does not depend on. The digest itself
    is a function of this preimage. */
module Fingerprint {
  import opened Bytes
  import opened Sorting
  import opened SortedSets
  import opened Datafile
  import opened DatafileParse
  import opened Grouping
  import MapFormat
  import opened DatafileV4
  import opened MapRead

  datatype Entry =
    | PhysicsLayer(w: int, h: int, flags: int, blob: bytes, extras: seq<Option<bytes>>)
    | Settings(blob: bytes)

  /** [raws[i].hex() if i >= 0 else None for i in indices] */
  function Extras(raws: seq<bytes>, indices: seq<int>): Result<seq<Option<bytes>>> {
    if indices == [] then Ok([]) else
    var n := |indices| - 1;
    var before :- Extras(raws, indices[..n]);
    if indices[n] < 0 then Ok(before + [None]) else
    var raw :- PyIndex(raws, indices[n]);
    Ok(before + [Some(raw)])
  }

  /** p[18:23] */
  function ExtraIndices(p: seq<int>): seq<int> {
    if |p| <= 18 then [] else if |p| <= 23 then p[18..] else p[18..23]
  }

  /** What one item contributes. */
  function EntryOf(f: FlatItem, raws: seq<bytes>): Result<seq<Entry>> {
    var p := f.payload;
    if f.typ == 5 then
      if |p| < 2 then Err(IndexError)
      else if p[1] != 2 then Ok([])
      else if |p| < 7 then Err(IndexError)
      else if p[6] == 0 then Ok([])
      else if |p| < 15 then Err(IndexError)
      else
        var blob :- PyIndex(raws, p[14]);
        var extras :- Extras(raws, ExtraIndices(p));
        Ok([PhysicsLayer(p[4], p[5], p[6], blob, extras)])
    else if f.typ == 1 && |p| > 5 && p[5] >= 0 then
      var blob :- PyIndex(raws, p[5]);
      Ok([Settings(blob)])
    else Ok([])
  }

  /** The first n items' contributions, read straight from the file. */
  function Collect(b: bytes, base: int, io: seq<int>, raws: seq<bytes>, n: nat): Result<seq<Entry>>
    requires n <= |io|
  {
    if n == 0 then Ok([]) else
    var before :- Collect(b, base, io, raws, n - 1);
    var item :- ItemAt(b, base, io[n - 1], true);
    var entry :- EntryOf(item, raws);
    Ok(before + entry)
  }

  function Preimage(b: bytes, z: Zlib): Result<seq<Entry>> {
    var (_, h) :- ReadHeader(b);
    var pos := 36 + 12 * h[3];
    var io :- IntsFrom(b, pos, h[4]);
    var ro :- IntsFrom(b, pos + 4 * h[4], h[5]);
    var raws :- Blobs(b, ItemBase(h) + h[6], ro, h[7], None, z, |ro|);
    Collect(b, ItemBase(h), io, raws, |io|)
  }

  lemma {:induction false} CollectFails(b: bytes, base: int, io: seq<int>, raws: seq<bytes>, k: nat, n: nat, e: Error)
    requires k < n <= |io| && Collect(b, base, io, raws, k).Ok? && Collect(b, base, io, raws, k + 1) == Err(e)
    ensures Collect(b, base, io, raws, n) == Err(e)
    decreases n
  {
    hide ItemAt, EntryOf;
    if k + 1 < n {
      CollectFails(b, base, io, raws, k, n - 1, e);
    }
  }

  method Gameplay(b: bytes, z: Zlib) returns (r: Result<seq<Entry>>)
    ensures r == Preimage(b, z)
  {
    hide Window, WindowAt, UnpackInts, ItemAt, EntryOf;
    var header := ReadHeader(b);
    if header.Err? { return Err(header.error); }
    var h := header.value.1;
    var pos := 36 + h[3] * 12;
    var io := IntsFrom(b, pos, h[4]);
    if io.Err? { return Err(io.error); }
    pos := pos + h[4] * 4;
    var ro := IntsFrom(b, pos, h[5]);
    if ro.Err? { return Err(ro.error); }
    pos := pos + h[5] * 8;
    var rawStart := pos + h[6];
    var raws := Blobs(b, rawStart, ro.value, h[7], None, z, |ro.value|);
    if raws.Err? { return Err(raws.error); }
    var result: seq<Entry> := [];
    for i := 0 to |io.value|
      invariant Collect(b, pos, io.value, raws.value, i) == Ok(result)
    {
      var item := ItemAt(b, pos, io.value[i], true);
      if item.Err? {
        CollectFails(b, pos, io.value, raws.value, i, |io.value|, item.error);
        return Err(item.error);
      }
      var entry := EntryOf(item.value, raws.value);
      if entry.Err? {
        CollectFails(b, pos, io.value, raws.value, i, |io.value|, entry.error);
        return Err(entry.error);
      }
      result := result + entry.value;
    }
    r := Ok(result);
  }

  // ---- the preimage as a function of the item list ---------------------------

  /** Contributions of a list of items, or the first failure. */
  function Entries(flat: seq<FlatItem>, raws: seq<bytes>): Result<seq<Entry>> {
    if flat == [] then Ok([]) else
    var n := |flat| - 1;
    var before :- Entries(flat[..n], raws);
    var entry :- EntryOf(flat[n], raws);
    Ok(before + entry)
  }

  lemma {:induction false} CollectItems(b: bytes, base: int, io: seq<int>, raws: seq<bytes>, n: nat)
    requires n <= |io| && Items(b, base, io, true, n).Ok?
    ensures Collect(b, base, io, raws, n) == Entries(Items(b, base, io, true, n).value, raws)
  {
    hide ItemAt, EntryOf;
    if n > 0 {
      CollectItems(b, base, io, raws, n - 1);
      var before := Items(b, base, io, true, n - 1).value;
      var all := Items(b, base, io, true, n).value;
      assert all[..n - 1] == before;
    }
  }

  /** Reading the tag as signed moves the high types below zero; the two types the fingerprint
      looks for are read the same. */
  lemma {:induction false} SignIgnored(flat: seq<FlatItem>, raws: seq<bytes>)
    requires AllFit(flat)
    ensures Entries(ReTagAll(flat, true), raws) == Entries(ReTagAll(flat, false), raws)
  {
    hide ReTag, EntryOf, ItemFits;
    if flat != [] {
      var n := |flat| - 1;
      SignIgnored(flat[..n], raws);
      assert ReTagAll(flat, true)[..n] == ReTagAll(flat[..n], true);
      assert ReTagAll(flat, false)[..n] == ReTagAll(flat[..n], false);
      SignedEntry(flat[n], raws);
    }
  }

  lemma SignedEntry(f: FlatItem, raws: seq<bytes>)
    requires ItemFits(f)
    ensures EntryOf(ReTag(f, true), raws) == EntryOf(ReTag(f, false), raws)
  {
    var tag := Tag(f.typ, f.id);
    if tag >= TWO31 {
      assert (tag - TWO32) / 0x1_0000 < 0 && tag / 0x1_0000 >= 0x8000;
    }
  }

  lemma PreimageFromReads(b: bytes, h: seq<int>, table: seq<int>, io: seq<int>, ro: seq<int>, raws: seq<bytes>,
          flat: seq<FlatItem>, z: Zlib)
    requires Reads(b, h, table, io, ro, raws, flat, z)
    ensures Preimage(b, z) == Entries(ReTagAll(flat, true), raws)
  {
    hide ReadHeader, IntsFrom, Blobs, Items, Sizes, ReTagAll, Entries, Collect;
    CollectItems(b, ItemBase(h), io, raws, |io|);
  }

  /** On every saved file, whatever its ids, the three readers agree: the strict reader, the gallery
      reader and the fingerprint see the same blobs and the same items in the same order. */
  lemma ThreeReadersAgree(c: Contents, z: Zlib)
    requires z.Inverse() && Encode(c, z).Ok?
    ensures var b, flat := Encode(c, z).value, ReTagAll(Flat(c), false);
            && Decode(b, z) == Ok(MapFormat.Doc(c.raws, Group(flat), NextIds(flat)))
            && ReadBoth(b, z) == Ok((flat, c.raws))
            && Preimage(b, z) == Entries(flat, c.raws)
  {
    hide Flat, Entries, Preimage, Group, NextIds, ReTagAll;
    SavedReads(c, z);
    var table, io, ro := TypeTable(Types(c), c.items), Starts(Records(Flat(c))), Starts(Compressed(c.raws, z));
    DecodeReads(FileBytes(c, z), Header(c, z), table, io, ro, c.raws, Flat(c), z);
    BothFromReads(FileBytes(c, z), Header(c, z), table, io, ro, c.raws, Flat(c), z);
    PreimageFromReads(FileBytes(c, z), Header(c, z), table, io, ro, c.raws, Flat(c), z);
    SignIgnored(Flat(c), c.raws);
  }

  /** With ids of 16 bits those are the writer's own items. */
  lemma PreimageAfterSave(c: Contents, z: Zlib)
    requires z.Inverse() && Encode(c, z).Ok? && ShortIds(c)
    ensures Preimage(Encode(c, z).value, z) == Entries(Flat(c), c.raws)
  {
    hide Flat, Entries, Preimage;
    ThreeReadersAgree(c, z);
    ShortFlat(c);
    Unchanged(Flat(c));
  }

  // ---- what it does not depend on --------------------------------------------

  /** Items that only concern looks: images, envelopes, groups, ...; quad layers; tile layers
      without a physics flag; info items without settings. */
  predicate Visual(f: FlatItem) {
    var p := f.payload;
    if f.typ == 5 then |p| >= 2 && (p[1] != 2 || (|p| >= 7 && p[6] == 0))
    else if f.typ == 1 then |p| <= 5 || p[5] < 0
    else true
  }

  predicate Playable(f: FlatItem) { !Visual(f) }

  lemma {:induction false} EntriesAppend(xs: seq<FlatItem>, ys: seq<FlatItem>, raws: seq<bytes>)
    ensures Entries(xs + ys, raws) ==
            match Entries(xs, raws)
            case Err(e) => Err(e)
            case Ok(a) => (match Entries(ys, raws) case Err(e) => Err(e) case Ok(b) => Ok(a + b))
  {
    hide EntryOf;
    if ys == [] {
      assert xs + ys == xs;
      if Entries(xs, raws).Ok? { assert Entries(xs, raws).value + [] == Entries(xs, raws).value; }
    } else {
      var n := |ys| - 1;
      EntriesAppend(xs, ys[..n], raws);
      assert (xs + ys)[..|xs| + n] == xs + ys[..n];
      if Entries(xs, raws).Ok? && Entries(ys[..n], raws).Ok? && EntryOf(ys[n], raws).Ok? {
        var (a, b, e) := (Entries(xs, raws).value, Entries(ys[..n], raws).value, EntryOf(ys[n], raws).value);
        assert (a + b) + e == a + (b + e);
      }
    }
  }

  lemma EntriesOne(f: FlatItem, raws: seq<bytes>)
    ensures Entries([f], raws) == EntryOf(f, raws)
  {
    hide EntryOf;
    assert Entries([f][..0], raws) == Ok([]);
    assert EntryOf(f, raws).Ok? ==> [] + EntryOf(f, raws).value == EntryOf(f, raws).value;
  }

  /** Only the playable items matter. */
  lemma {:induction false} EntriesOfPlayable(flat: seq<FlatItem>, raws: seq<bytes>)
    ensures Entries(flat, raws) == Entries(Filter(Playable, flat), raws)
  {
    if flat != [] {
      var f, rest := flat[0], flat[1..];
      EntriesOfPlayable(rest, raws);
      assert flat == [f] + rest;
      EntriesAppend([f], rest, raws);
      EntriesOne(f, raws);
      if Playable(f) {
        EntriesAppend([f], Filter(Playable, rest), raws);
      } else {
        assert EntryOf(f, raws) == Ok([]);
        if Entries(rest, raws).Ok? { assert [] + Entries(rest, raws).value == Entries(rest, raws).value; }
      }
    }
  }

  /** The same blob, under whatever index each side files it. */
  predicate SameBlob(i: int, j: int, raws: seq<bytes>, raws': seq<bytes>) {
    0 <= i < |raws| && 0 <= j < |raws'| && raws[i] == raws'[j]
  }

  /** The same gameplay, item by item: size, flags and referenced blobs agree; names, images,
      colours, envelopes and the numbering of blobs are free. */
  predicate SamePlay(f: FlatItem, g: FlatItem, raws: seq<bytes>, raws': seq<bytes>) {
    var (p, q) := (f.payload, g.payload);
    && f.typ == g.typ
    && |p| == |q|
    && (f.typ == 5 ==>
          && |p| >= 15 && p[1] == q[1] && p[4] == q[4] && p[5] == q[5] && p[6] == q[6]
          && SameBlob(p[14], q[14], raws, raws')
          && forall k :: 18 <= k < |p| && k < 23 ==> (p[k] < 0 && q[k] < 0) || SameBlob(p[k], q[k], raws, raws'))
    && (f.typ == 1 && |p| > 5 ==> (p[5] < 0 && q[5] < 0) || SameBlob(p[5], q[5], raws, raws'))
  }

  lemma {:induction false} SameExtras(p: seq<int>, q: seq<int>, raws: seq<bytes>, raws': seq<bytes>)
    requires |p| == |q|
    requires forall k :: 0 <= k < |p| ==> (p[k] < 0 && q[k] < 0) || SameBlob(p[k], q[k], raws, raws')
    ensures Extras(raws, p) == Extras(raws', q)
  {
    if p != [] {
      SameExtras(p[..|p| - 1], q[..|q| - 1], raws, raws');
    }
  }

  lemma SameEntry(f: FlatItem, g: FlatItem, raws: seq<bytes>, raws': seq<bytes>)
    requires SamePlay(f, g, raws, raws')
    ensures EntryOf(f, raws) == EntryOf(g, raws')
  {
    var (p, q) := (f.payload, g.payload);
    if f.typ == 5 {
      var (i, j) := (ExtraIndices(p), ExtraIndices(q));
      forall k | 0 <= k < |i|
        ensures (i[k] < 0 && j[k] < 0) || SameBlob(i[k], j[k], raws, raws')
      {
        assert i[k] == p[18 + k] && j[k] == q[18 + k];
      }
      SameExtras(i, j, raws, raws');
    }
  }

  lemma {:induction false} SameEntries(flat: seq<FlatItem>, flat': seq<FlatItem>, raws: seq<bytes>, raws': seq<bytes>)
    requires |flat| == |flat'| && forall k :: 0 <= k < |flat| ==> SamePlay(flat[k], flat'[k], raws, raws')
    ensures Entries(flat, raws) == Entries(flat', raws')
  {
    hide EntryOf, SamePlay;
    if flat != [] {
      var n := |flat| - 1;
      SameEntries(flat[..n], flat'[..n], raws, raws');
      SameEntry(flat[n], flat'[n], raws, raws');
    }
  }

  /** The items a reader sees on the saved file: the writer's own where ids have 16 bits. */
  function Seen(c: Contents): seq<FlatItem> { ReTagAll(Flat(c), false) }

  /** Two contents whose playable items correspond, in order, with the same gameplay. */
  ghost predicate SameGame(c: Contents, d: Contents) {
    var (f, g) := (Filter(Playable, Seen(c)), Filter(Playable, Seen(d)));
    |f| == |g| && forall k :: 0 <= k < |f| ==> SamePlay(f[k], g[k], c.raws, d.raws)
  }

  /** Two saved files with the same gameplay hash the same preimage, whatever else differs. */
  lemma FingerprintInvariant(c: Contents, d: Contents, z: Zlib)
    requires z.Inverse() && Encode(c, z).Ok? && Encode(d, z).Ok?
    requires SameGame(c, d)
    ensures Preimage(Encode(c, z).value, z) == Preimage(Encode(d, z).value, z)
  {
    hide Preimage, Entries, Flat, Encode, SamePlay, Filter, ReTagAll, Decode, ReadBoth, Group, NextIds;
    ThreeReadersAgree(c, z);
    ThreeReadersAgree(d, z);
    EntriesOfPlayable(Seen(c), c.raws);
    EntriesOfPlayable(Seen(d), d.raws);
    SameEntries(Filter(Playable, Seen(c)), Filter(Playable, Seen(d)), c.raws, d.raws);
  }

  // ---- and what it does depend on --------------------------------------------

  /** The same blob under Python's indices, which count from the end below zero. */
  predicate OneBlob(i: int, j: int, raws: seq<bytes>, raws': seq<bytes>) {
    && -|raws| <= i < |raws| && -|raws'| <= j < |raws'|
    && raws[if i < 0 then i + |raws| else i] == raws'[if j < 0 then j + |raws'| else j]
  }

  /** The same reference behind the first 18 integers: absent on both sides, or to the same blob. */
  predicate SameExtra(i: int, j: int, raws: seq<bytes>, raws': seq<bytes>) {
    (i < 0 && j < 0) || (0 <= i && 0 <= j && OneBlob(i, j, raws, raws'))
  }

  /** Two physics layers of the same size and flags over the same tiles, with the same extra blobs; or
      two infos with the same settings. */
  predicate Twin(f: FlatItem, g: FlatItem, raws: seq<bytes>, raws': seq<bytes>) {
    var (p, q) := (f.payload, g.payload);
    && f.typ == g.typ
    && (f.typ == 5 ==>
          && |p| >= 15 && |q| >= 15 && p[4] == q[4] && p[5] == q[5] && p[6] == q[6]
          && OneBlob(p[14], q[14], raws, raws')
          && (|p| == |q| || (|p| <= 18 && |q| <= 18) || (|p| >= 23 && |q| >= 23))
          && forall k :: 18 <= k < |p| && k < |q| && k < 23 ==> SameExtra(p[k], q[k], raws, raws'))
    && (f.typ == 1 ==> |p| > 5 && |q| > 5 && 0 <= p[5] && 0 <= q[5] && OneBlob(p[5], q[5], raws, raws'))
  }

  /** A playable item that can be hashed: all its references lead to blobs. */
  predicate Hashable(f: FlatItem, raws: seq<bytes>) {
    var p := f.payload;
    && (f.typ == 5 ==> |p| >= 15 && -|raws| <= p[14] < |raws|
                       && forall k :: 18 <= k < |p| && k < 23 ==> p[k] < |raws|)
    && (f.typ == 1 ==> |p| > 5 && p[5] < |raws|)
  }

  lemma {:induction false} ExtrasOk(p: seq<int>, raws: seq<bytes>)
    ensures Extras(raws, p).Ok? <==> forall k :: 0 <= k < |p| ==> p[k] < |raws|
    ensures Extras(raws, p).Ok? ==> |Extras(raws, p).value| == |p|
    ensures Extras(raws, p).Ok? ==> forall k :: 0 <= k < |p| ==>
        Extras(raws, p).value[k] == if p[k] < 0 then None else Some(raws[p[k]])
  {
    if p != [] {
      var n := |p| - 1;
      ExtrasOk(p[..n], raws);
      if forall k :: 0 <= k < |p| ==> p[k] < |raws| {
        assert forall k :: 0 <= k < n ==> p[..n][k] == p[k];
      }
      if Extras(raws, p).Ok? {
        assert forall k :: 0 <= k < n ==> p[k] == p[..n][k];
      }
    }
  }

  lemma ExtrasAt(p: seq<int>)
    ensures |ExtraIndices(p)| == if |p| <= 18 then 0 else if |p| <= 23 then |p| - 18 else 5
    ensures forall k :: 0 <= k < |ExtraIndices(p)| ==> ExtraIndices(p)[k] == p[18 + k]
    ensures forall k :: 18 <= k < |p| && k < 23 ==> ExtraIndices(p)[k - 18] == p[k]
  {
  }

  /** An item fails exactly when it is playable and not hashable; a playable one makes one entry. */
  lemma EntrySucceeds(f: FlatItem, raws: seq<bytes>)
    ensures EntryOf(f, raws).Ok? <==> Visual(f) || Hashable(f, raws)
    ensures EntryOf(f, raws).Ok? ==> |EntryOf(f, raws).value| == if Visual(f) then 0 else 1
    ensures EntryOf(f, raws).Err? ==> EntryOf(f, raws).error == IndexError
  {
    var p := f.payload;
    if f.typ == 5 && !Visual(f) && |p| >= 15 {
      ExtrasAt(p);
      ExtrasOk(ExtraIndices(p), raws);
      ExtrasError(ExtraIndices(p), raws);
    }
  }

  lemma {:induction false} ExtrasError(p: seq<int>, raws: seq<bytes>)
    ensures Extras(raws, p).Err? ==> Extras(raws, p).error == IndexError
  {
    if p != [] {
      ExtrasError(p[..|p| - 1], raws);
    }
  }

  lemma SameReference(i: int, j: int, raws: seq<bytes>, raws': seq<bytes>)
    requires i < |raws| && j < |raws'|
    ensures (if i < 0 then None else Some(raws[i])) == (if j < 0 then None else Some(raws'[j])) <==>
            SameExtra(i, j, raws, raws')
  {
  }

  lemma SameExtraLists(p: seq<int>, q: seq<int>, raws: seq<bytes>, raws': seq<bytes>)
    requires Extras(raws, p).Ok? && Extras(raws', q).Ok?
    ensures Extras(raws, p) == Extras(raws', q) <==>
            |p| == |q| && forall k :: 0 <= k < |p| ==> SameExtra(p[k], q[k], raws, raws')
  {
    hide SameExtra, Extras;
    ExtrasOk(p, raws);
    ExtrasOk(q, raws');
    var (a, b) := (Extras(raws, p).value, Extras(raws', q).value);
    if |p| == |q| {
      forall k | 0 <= k < |p|
        ensures a[k] == b[k] <==> SameExtra(p[k], q[k], raws, raws')
      {
        SameReference(p[k], q[k], raws, raws');
      }
      SameSeqs(a, b);
    }
  }

  /** Two playable items make the same entry exactly when they are twins. */
  lemma TwinEntries(f: FlatItem, g: FlatItem, raws: seq<bytes>, raws': seq<bytes>)
    requires Playable(f) && Playable(g) && EntryOf(f, raws).Ok? && EntryOf(g, raws').Ok?
    ensures EntryOf(f, raws) == EntryOf(g, raws') <==> Twin(f, g, raws, raws')
  {
    hide Extras, ExtraIndices, SameExtra;
    EntrySucceeds(f, raws);
    EntrySucceeds(g, raws');
    var (p, q) := (f.payload, g.payload);
    if f.typ == 5 && g.typ == 5 {
      var (i, j) := (ExtraIndices(p), ExtraIndices(q));
      ExtrasAt(p);
      ExtrasAt(q);
      SameExtraLists(i, j, raws, raws');
      if forall k :: 0 <= k < |i| && k < |j| ==> SameExtra(i[k], j[k], raws, raws') {
        forall k | 18 <= k < |p| && k < |q| && k < 23
          ensures SameExtra(p[k], q[k], raws, raws')
        {
          assert i[k - 18] == p[k] && j[k - 18] == q[k];
        }
      }
      if forall k :: 18 <= k < |p| && k < |q| && k < 23 ==> SameExtra(p[k], q[k], raws, raws') {
        forall k | 0 <= k < |i| && k < |j|
          ensures SameExtra(i[k], j[k], raws, raws')
        {
          assert i[k] == p[18 + k] && j[k] == q[18 + k];
        }
      }
    }
  }

  /** Of playable items, one entry each. */
  lemma {:induction false} EntriesInOrder(flat: seq<FlatItem>, raws: seq<bytes>)
    requires forall k :: 0 <= k < |flat| ==> Playable(flat[k])
    ensures Entries(flat, raws).Ok? <==> forall k :: 0 <= k < |flat| ==> EntryOf(flat[k], raws).Ok?
    ensures Entries(flat, raws).Ok? ==> |Entries(flat, raws).value| == |flat|
    ensures Entries(flat, raws).Ok? ==> forall k :: 0 <= k < |flat| ==>
        EntryOf(flat[k], raws) == Ok([Entries(flat, raws).value[k]])
  {
    hide EntryOf, Visual;
    if flat != [] {
      var n := |flat| - 1;
      EntriesInOrder(flat[..n], raws);
      EntrySucceeds(flat[n], raws);
      if forall k :: 0 <= k < |flat| ==> EntryOf(flat[k], raws).Ok? {
        assert forall k :: 0 <= k < n ==> flat[..n][k] == flat[k];
      }
      if Entries(flat, raws).Ok? {
        OneMore(Entries(flat[..n], raws).value, EntryOf(flat[n], raws).value);
        assert forall k :: 0 <= k < n ==> flat[k] == flat[..n][k];
      }
    }
  }

  lemma SameSeqs<T>(a: seq<T>, b: seq<T>)
    ensures a == b <==> |a| == |b| && forall k :: 0 <= k < |a| ==> a[k] == b[k]
  {
  }

  lemma OneMore<T>(a: seq<T>, b: seq<T>)
    requires |b| == 1
    ensures |a + b| == |a| + 1 && [(a + b)[|a|]] == b && forall k :: 0 <= k < |a| ==> (a + b)[k] == a[k]
  {
  }

  /** The playable items that a reader sees, in order. */
  ghost function PlayablesSeen(c: Contents): (r: seq<FlatItem>)
    ensures forall k :: 0 <= k < |r| ==> Playable(r[k])
  {
    hide Playable, Seen;
    assert forall f :: f in Filter(Playable, Seen(c)) ==> Playable(f);
    Filter(Playable, Seen(c))
  }

  lemma PreimageIs(c: Contents, z: Zlib)
    requires z.Inverse() && Encode(c, z).Ok?
    ensures Preimage(Encode(c, z).value, z) == Entries(PlayablesSeen(c), c.raws)
  {
    hide Preimage, Entries, Flat, Encode, Filter, ReTagAll, Decode, ReadBoth, Group, NextIds;
    ThreeReadersAgree(c, z);
    EntriesOfPlayable(Seen(c), c.raws);
  }

  /** The fingerprint of a saved file exists exactly when every playable item refers to blobs only. */
  lemma FingerprintSucceeds(c: Contents, z: Zlib)
    requires z.Inverse() && Encode(c, z).Ok?
    ensures var f := PlayablesSeen(c);
            Preimage(Encode(c, z).value, z).Ok? <==> forall k :: 0 <= k < |f| ==> Hashable(f[k], c.raws)
  {
    hide Preimage, Entries, Encode, PlayablesSeen, EntryOf, Hashable, Visual;
    var f := PlayablesSeen(c);
    PreimageIs(c, z);
    EntriesInOrder(f, c.raws);
    forall k | 0 <= k < |f|
      ensures EntryOf(f[k], c.raws).Ok? <==> Hashable(f[k], c.raws)
    {
      EntrySucceeds(f[k], c.raws);
    }
  }

  /** What an entry holds of its item. */
  predicate Shows(e: Entry, f: FlatItem, raws: seq<bytes>) {
    var p := f.payload;
    && Hashable(f, raws)
    && (f.typ == 5 ==>
          && e.PhysicsLayer? && e.w == p[4] && e.h == p[5] && e.flags == p[6]
          && e.blob == raws[if p[14] < 0 then p[14] + |raws| else p[14]]
          && |e.extras| == (if |p| <= 18 then 0 else if |p| <= 23 then |p| - 18 else 5)
          && forall k :: 0 <= k < |e.extras| ==> e.extras[k] == if p[18 + k] < 0 then None else Some(raws[p[18 + k]]))
    && (f.typ == 1 ==> p[5] >= 0 && e == Settings(raws[p[5]]))
  }

  lemma EntryShows(f: FlatItem, raws: seq<bytes>)
    requires Playable(f) && EntryOf(f, raws).Ok?
    ensures |EntryOf(f, raws).value| == 1 && Shows(EntryOf(f, raws).value[0], f, raws)
  {
    hide Extras, ExtraIndices;
    EntrySucceeds(f, raws);
    if f.typ == 5 {
      ExtrasAt(f.payload);
      ExtrasOk(ExtraIndices(f.payload), raws);
    }
  }

  /** The hashed list of a saved file: one entry per playable item, in order. */
  lemma FingerprintShows(c: Contents, z: Zlib)
    requires z.Inverse() && Encode(c, z).Ok? && Preimage(Encode(c, z).value, z).Ok?
    ensures var (e, f) := (Preimage(Encode(c, z).value, z).value, PlayablesSeen(c));
            |e| == |f| && forall k :: 0 <= k < |e| ==> Shows(e[k], f[k], c.raws)
  {
    hide Preimage, Entries, Encode, PlayablesSeen, EntryOf, Shows, Visual;
    var f := PlayablesSeen(c);
    PreimageIs(c, z);
    EntriesInOrder(f, c.raws);
    var e := Entries(f, c.raws).value;
    forall k | 0 <= k < |f|
      ensures Shows(e[k], f[k], c.raws)
    {
      EntryShows(f[k], c.raws);
    }
  }

  /** Two saved files have the same fingerprint exactly when their playable items correspond one by one,
      in order, as twins: a map that differs in one tile of a physics layer has another one. */
  lemma FingerprintExactly(c: Contents, d: Contents, z: Zlib)
    requires z.Inverse() && Encode(c, z).Ok? && Encode(d, z).Ok?
    requires Preimage(Encode(c, z).value, z).Ok? && Preimage(Encode(d, z).value, z).Ok?
    ensures var (f, g) := (PlayablesSeen(c), PlayablesSeen(d));
            Preimage(Encode(c, z).value, z) == Preimage(Encode(d, z).value, z) <==>
            |f| == |g| && forall k :: 0 <= k < |f| ==> Twin(f[k], g[k], c.raws, d.raws)
  {
    hide Preimage, Entries, Encode, PlayablesSeen, EntryOf, Twin, Visual;
    var (f, g) := (PlayablesSeen(c), PlayablesSeen(d));
    PreimageIs(c, z);
    PreimageIs(d, z);
    EntriesInOrder(f, c.raws);
    EntriesInOrder(g, d.raws);
    var (x, y) := (Entries(f, c.raws).value, Entries(g, d.raws).value);
    if |f| == |g| {
      forall k | 0 <= k < |f|
        ensures x[k] == y[k] <==> Twin(f[k], g[k], c.raws, d.raws)
      {
        TwinEntries(f[k], g[k], c.raws, d.raws);
      }
      SameSeqs(x, y);
    }
  }

  // ---- adding visuals to a writer --------------------------------------------

  function PlayableIn(t: int): Item -> bool { (i: Item) => Playable(FlatItem(t, i.id, i.payload)) }

  lemma {:induction false} FilterFiled(t: int, xs: seq<Item>)
    ensures Filter(Playable, Filed(t, xs)) == Filed(t, Filter(PlayableIn(t), xs))
  {
    hide Playable, Visual;
    if xs != [] {
      FilterFiled(t, xs[1..]);
      assert Filed(t, xs)[1..] == Filed(t, xs[1..]);
      assert Filed(t, xs)[0] == FlatItem(t, xs[0].id, xs[0].payload);
    }
  }

  /** The playable items of a writer, type after type: each list can be filtered before it is ordered. */
  lemma {:induction false} FilterFlat(ts: seq<int>, items: map<int, seq<Item>>)
    requires TypesIn(ts, items)
    ensures Filter(Playable, FlatOf(ts, items)) == PlayOf(ts, items)
  {
    hide Playable, Visual, Sort;
    if ts != [] {
      var n := |ts| - 1;
      var t := ts[n];
      FilterFlat(ts[..n], items);
      FilterAppend(Playable, FlatOf(ts[..n], items), Filed(t, Ordered(items[t])));
      FilterFiled(t, Ordered(items[t]));
      FilterSort(ItemKey, PlayableIn(t), items[t]);
    }
  }

  function PlayOf(ts: seq<int>, items: map<int, seq<Item>>): seq<FlatItem>
    requires TypesIn(ts, items)
  {
    if ts == [] then []
    else
      var n := |ts| - 1;
      PlayOf(ts[..n], items) + Filed(ts[n], Ordered(Filter(PlayableIn(ts[n]), items[ts[n]])))
  }

  /** The two types the fingerprint looks at, in the order of the type table. */
  function PlayList(items: map<int, seq<Item>>): seq<FlatItem> {
    Filed(1, Ordered(Filter(PlayableIn(1), ListOf(items, 1))))
        + Filed(5, Ordered(Filter(PlayableIn(5), ListOf(items, 5))))
  }

  lemma {:induction false} NonePlayable(t: int, xs: seq<Item>)
    requires t != 1 && t != 5
    ensures Filter(PlayableIn(t), xs) == [] && Filed(t, Ordered(Filter(PlayableIn(t), xs))) == []
  {
    if xs != [] {
      NonePlayable(t, xs[1..]);
    }
  }

  lemma LastIsLargest(ts: seq<int>)
    requires Increasing(ts) && ts != []
    ensures var t, front := ts[|ts| - 1], ts[..|ts| - 1];
            && (forall x :: x in ts <==> x in front || x == t)
            && (forall x :: x in front ==> x < t)
  {
    var t, front := ts[|ts| - 1], ts[..|ts| - 1];
    assert ts == front + [t];
    forall x | x in front
      ensures x < t
    {
      var k :| 0 <= k < |front| && front[k] == x;
      assert ts[k] == x;
    }
  }

  /** The playable items of one type, if it is listed. */
  function PlayOfType(t: int, ts: seq<int>, items: map<int, seq<Item>>): seq<FlatItem>
    requires TypesIn(ts, items)
  {
    if t in ts then
      assert t in items;
      Filed(t, Ordered(Filter(PlayableIn(t), items[t])))
    else []
  }

  lemma PlayPush(t: int, ts: seq<int>, items: map<int, seq<Item>>)
    requires TypesIn(ts, items) && Increasing(ts) && ts != []
    ensures var (last, front) := (ts[|ts| - 1], ts[..|ts| - 1]);
            && TypesIn(front, items)
            && (t != last ==> PlayOfType(t, ts, items) == PlayOfType(t, front, items))
            && (t >= last ==> PlayOfType(t, front, items) == [])
            && PlayOf(ts, items) == PlayOf(front, items) + PlayOfType(last, ts, items)
  {
    hide Filed, Sort, Filter;
    LastIsLargest(ts);
    assert ts[|ts| - 1] in ts;
  }

  lemma AddLast<T>(one: seq<T>, five: seq<T>, more: seq<T>)
    ensures one == [] && five == [] ==> one + five + more == more + five
    ensures five == [] ==> one + five + more == one + more
    ensures more == [] ==> one + five + more == one + five
  {
  }

  /** In increasing type order the playable items are those of type 1, then those of type 5. */
  lemma {:induction false} PlayOfIsPlayList(ts: seq<int>, items: map<int, seq<Item>>)
    requires TypesIn(ts, items) && Increasing(ts)
    ensures PlayOf(ts, items) == PlayOfType(1, ts, items) + PlayOfType(5, ts, items)
  {
    if ts != [] {
      hide PlayOfType, PlayOf, Filed, Filter, Sort;
      var n := |ts| - 1;
      var t, front := ts[n], ts[..n];
      PlayPush(1, ts, items);
      PlayPush(5, ts, items);
      PlayOfIsPlayList(front, items);
      AddLast(PlayOfType(1, front, items), PlayOfType(5, front, items), PlayOfType(t, ts, items));
      if t != 1 && t != 5 {
        NothingOfType(t, ts, items);
      }
    }
  }

  lemma NothingOfType(t: int, ts: seq<int>, items: map<int, seq<Item>>)
    requires TypesIn(ts, items) && t != 1 && t != 5
    ensures PlayOfType(t, ts, items) == []
  {
    hide Playable, Sort, Filter, Filed;
    if t in ts { NonePlayable(t, items[t]); }
  }

  lemma PlayablesOf(c: Contents)
    ensures Filter(Playable, Flat(c)) == PlayList(c.items)
  {
    hide Playable, Visual;
    SortedSetLists(c.items.Keys);
    FilterFlat(Types(c), c.items);
    PlayOfIsPlayList(Types(c), c.items);
    assert Filter(PlayableIn(1), []) == [] && Filter(PlayableIn(5), []) == [];
    assert Filed(1, Ordered([])) == [] && Filed(5, Ordered([])) == [];
  }

  /** A playable item whose references are in range has the same gameplay after blobs were appended. */
  predicate InRange(f: FlatItem, raws: seq<bytes>) { SamePlay(f, f, raws, raws) }

  /** Visual items may be filed anywhere in the lists of a writer, in any number, and blobs appended
      for them: the fingerprint of the saved file stays the same. */
  lemma VisualsDoNotMatter(c: Contents, d: Contents, z: Zlib)
    requires z.Inverse() && Encode(c, z).Ok? && Encode(d, z).Ok? && ShortIds(c) && ShortIds(d)
    requires c.raws <= d.raws
    requires Filter(PlayableIn(1), ListOf(c.items, 1)) == Filter(PlayableIn(1), ListOf(d.items, 1))
    requires Filter(PlayableIn(5), ListOf(c.items, 5)) == Filter(PlayableIn(5), ListOf(d.items, 5))
    requires forall f :: f in PlayList(c.items) ==> InRange(f, c.raws)
    ensures Preimage(Encode(c, z).value, z) == Preimage(Encode(d, z).value, z)
  {
    hide Preimage, Encode, Filter, Flat, SamePlay, Sort;
    PlayablesOf(c);
    PlayablesOf(d);
    var f := PlayList(c.items);
    assert f == PlayList(d.items);
    forall k | 0 <= k < |f|
      ensures SamePlay(f[k], f[k], c.raws, d.raws)
    {
      assert f[k] in f;
      StillInRange(f[k], c.raws, d.raws);
    }
    SeenAsWritten(c, z);
    SeenAsWritten(d, z);
    FingerprintInvariant(c, d, z);
  }

  lemma SeenAsWritten(c: Contents, z: Zlib)
    requires ShortIds(c) && Encode(c, z).Ok?
    ensures Seen(c) == Flat(c)
  {
    hide Flat, ReTagAll;
    ShortFlat(c);
    Unchanged(Flat(c));
  }

  lemma StillInRange(f: FlatItem, raws: seq<bytes>, raws': seq<bytes>)
    requires InRange(f, raws) && raws <= raws'
    ensures SamePlay(f, f, raws, raws')
  {
  }

  /** Filing one visual item between any two others leaves a type's playable items alone. */
  lemma InsertVisual(t: int, before: seq<Item>, v: Item, after: seq<Item>)
    requires Visual(FlatItem(t, v.id, v.payload))
    ensures Filter(PlayableIn(t), before + [v] + after) == Filter(PlayableIn(t), before + after)
  {
    FilterAppend(PlayableIn(t), before + [v], after);
    FilterAppend(PlayableIn(t), before, [v]);
    FilterAppend(PlayableIn(t), before, after);
    FilterCons(PlayableIn(t), v, []);
    assert Filter(PlayableIn(t), before) + [] == Filter(PlayableIn(t), before);
  }
}
