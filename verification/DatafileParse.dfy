/** The steps every reader of a datafile takes, and what they give on a file that `save` wrote. */
module DatafileParse {
  import opened Bytes
  import opened Datafile

  /** struct.unpack_from("<4s8i", b): the magic and the eight header integers. */
  function ReadHeader(b: bytes): (r: Result<(bytes, seq<int>)>)
    ensures r.Ok? ==> |r.value.1| == 8
  {
    var w :- Window(b, 0, 36);
    Ok((w[..4], UnpackInts(w[4..])))
  }

  /** Offset of the first item record: header, type table, item offsets and two integers per blob. */
  function ItemBase(h: seq<int>): int
    requires |h| == 8
  {
    36 + 12 * h[3] + 4 * h[4] + 8 * h[5]
  }

  function BlobEnd(ro: seq<int>, k: nat, rawSize: int): int
    requires k < |ro|
  {
    if k + 1 < |ro| then ro[k + 1] else rawSize
  }

  /** Blob k, decompressed; with `sizes`, its length must be the one the file announces. */
  function BlobAt(b: bytes, start: int, ro: seq<int>, rawSize: int, sizes: Option<seq<int>>, z: Zlib,
          k: nat): Result<bytes>
    requires k < |ro| && (sizes.Some? ==> |sizes.value| == |ro|)
  {
    var raw :- z.decompress(PySlice(b, start + ro[k], start + BlobEnd(ro, k, rawSize)));
    if sizes.Some? && |raw| != sizes.value[k] then Err(ValueError) else Ok(raw)
  }

  /** The first n blobs, or the first failure. */
  function Blobs(b: bytes, start: int, ro: seq<int>, rawSize: int, sizes: Option<seq<int>>, z: Zlib,
          n: nat): (r: Result<seq<bytes>>)
    requires n <= |ro| && (sizes.Some? ==> |sizes.value| == |ro|)
    ensures r.Ok? ==> |r.value| == n
  {
    if n == 0 then Ok([]) else
    var before :- Blobs(b, start, ro, rawSize, sizes, z, n - 1);
    var raw :- BlobAt(b, start, ro, rawSize, sizes, z, n - 1);
    Ok(before + [raw])
  }

  /** The item record at `off`. The tag is an unsigned word for two of the readers and a
      signed one for the fingerprint; `>>` and `& 65535` are floor division and modulus. */
  function ItemAt(b: bytes, base: int, off: int, signed: bool): Result<FlatItem> {
    var w :- Window(b, base + off, 8);
    var u, n := ReadU32Le(w[..4]), ReadI32Le(w[4..]);
    var tag := if signed then Signed(u) else u;
    var payload :- IntsFrom(b, base + off + 8, n / 4);
    Ok(FlatItem(tag / 0x1_0000, tag % 0x1_0000, payload))
  }

  /** The first n items, or the first failure. */
  function Items(b: bytes, base: int, io: seq<int>, signed: bool, n: nat): (r: Result<seq<FlatItem>>)
    requires n <= |io|
    ensures r.Ok? ==> |r.value| == n
  {
    if n == 0 then Ok([]) else
    var before :- Items(b, base, io, signed, n - 1);
    var item :- ItemAt(b, base, io[n - 1], signed);
    Ok(before + [item])
  }

  // ---- on a file that `save` wrote ----------------------------------------

  function ReTag(f: FlatItem, signed: bool): FlatItem {
    var tag := if signed && Tag(f.typ, f.id) >= TWO31 then Tag(f.typ, f.id) - TWO32 else Tag(f.typ, f.id);
    FlatItem(tag / 0x1_0000, tag % 0x1_0000, f.payload)
  }

  function ReTagAll(flat: seq<FlatItem>, signed: bool): (r: seq<FlatItem>)
    ensures |r| == |flat|
  {
    seq(|flat|, k requires 0 <= k < |flat| => ReTag(flat[k], signed))
  }

  lemma HeaderOf(h: seq<int>, d: seq<int>, post: bytes)
    requires |h| == 8 && AllI32(h)
    ensures ReadHeader(MAGIC + PackInts(h + d) + post) == Ok((MAGIC, h))
  {
    PackIntsAppend(h, d);
    var rest := PackInts(d) + post;
    var b := MAGIC + PackInts(h + d) + post;
    assert b == MAGIC + PackInts(h) + rest;
    var w := MAGIC + PackInts(h);
    assert b[0..36] == w;
    assert w[..4] == MAGIC && w[4..] == PackInts(h);
    UnpackPack(h);
  }

  /** A file as its regions: header and directory integers, item records, compressed blobs. */
  datatype Image = Image(h: seq<int>, d: seq<int>, recs: seq<bytes>, comp: seq<bytes>) {
    predicate Valid() {
      |h| == 8 && ItemBase(h) == 36 + 4 * |d| && h[6] == |Concat(recs)| && h[7] == |Concat(comp)| && AllI32(h + d)
    }
    function File(): bytes { MAGIC + PackInts(h + d) + Concat(recs) + Concat(comp) }

    lemma HeaderAndDirectory()
      ensures File() == MAGIC + PackInts(h + d) + (Concat(recs) + Concat(comp))
    {
      var front, items, blob := MAGIC + PackInts(h + d), Concat(recs), Concat(comp);
      assert front + items + blob == front + (items + blob);
    }

    lemma RecordAt(k: nat)
      requires Valid() && k < |recs|
      ensures Part(File(), ItemBase(h) + Start(recs, k), recs[k])
    {
      BlockPart(recs, k);
      PartInside(MAGIC + PackInts(h + d), Concat(recs), Concat(comp), Start(recs, k), recs[k]);
    }

    lemma BlobSlice(k: nat)
      requires Valid() && k < |comp|
      ensures var start := ItemBase(h) + h[6];
              PySlice(File(), start + Starts(comp)[k], start + BlobEnd(Starts(comp), k, h[7])) == comp[k]
    {
      BlockPart(comp, k);
      Tiles(comp, k);
      var front, blob := MAGIC + PackInts(h + d) + Concat(recs), Concat(comp);
      PartInside(front, blob, [], Start(comp, k), comp[k]);
      assert front + blob + [] == front + blob;
      SliceIsPart(front + blob, |front| + Start(comp, k), comp[k]);
    }
  }

  function ImageOf(c: Contents, z: Zlib): (i: Image)
    ensures FileBytes(c, z) == i.File()
  {
    Image(Header(c, z), Directory(c, z), Records(Flat(c)), Compressed(c.raws, z))
  }

  lemma ImageValid(c: Contents, z: Zlib)
    requires Fits(c, z)
    ensures ImageOf(c, z).Valid()
  {
  }

  lemma SavedHeader(i: Image)
    requires i.Valid()
    ensures ReadHeader(i.File()) == Ok((MAGIC, i.h))
  {
    i.HeaderAndDirectory();
    AllI32Both(i.h, i.d);
    HeaderOf(i.h, i.d, Concat(i.recs) + Concat(i.comp));
  }

  lemma DirectoryInts(h: seq<int>, d: seq<int>, post: bytes, k: nat, n: nat)
    requires |h| == 8 && AllI32(h + d) && k + n <= |d|
    ensures IntsFrom(MAGIC + PackInts(h + d) + post, 36 + 4 * k, n) == Ok(d[k..k + n])
  {
    IntsFromPacked(MAGIC, h + d, post, 8 + k, n);
    SuffixSlice(h, d, k, n);
    assert |MAGIC| + 4 * (8 + k) == 36 + 4 * k;
  }

  lemma SuffixSlice<T>(h: seq<T>, d: seq<T>, k: nat, n: nat)
    requires k + n <= |d|
    ensures (h + d)[|h| + k..|h| + k + n] == d[k..k + n]
  {
  }

  /** n integers at index k of the directory. */
  lemma SavedInts(i: Image, k: nat, n: nat)
    requires i.Valid() && k + n <= |i.d|
    ensures IntsFrom(i.File(), 36 + 4 * k, n) == Ok(i.d[k..k + n])
  {
    i.HeaderAndDirectory();
    DirectoryInts(i.h, i.d, Concat(i.recs) + Concat(i.comp), k, n);
  }

  /** One table of the directory, as a reader cuts it out of the file. */
  lemma SavedTable(i: Image, before: seq<int>, table: seq<int>, after: seq<int>)
    requires i.Valid() && i.d == before + table + after
    ensures IntsFrom(i.File(), 36 + 4 * |before|, |table|) == Ok(table)
  {
    SavedInts(i, |before|, |table|);
    MiddleSlice(before, table, after, 0, |table|);
  }

  lemma Regroup<T>(a: seq<T>, b: seq<T>, c: seq<T>, d: seq<T>)
    ensures a + b + c + d == [] + a + (b + c + d) == a + b + (c + d) == (a + b) + c + d == (a + b + c) + d + []
  {
  }

  lemma RecordParts(f: FlatItem)
    ensures Record(f)[..4] == Le32(Tag(f.typ, f.id))
    ensures Record(f)[4..8] == Le32(4 * |f.payload|)
    ensures Record(f)[8..8 + 4 * |f.payload|] == PackInts(f.payload)
  {
  }

  lemma SubSlice<T>(s: seq<T>, lo: nat, hi: nat, i: nat, j: nat)
    requires lo <= hi <= |s| && i <= j <= hi - lo
    ensures s[lo..hi][i..j] == s[lo + i..lo + j]
  {
    var a, b := s[lo..hi][i..j], s[lo + i..lo + j];
    forall k | 0 <= k < j - i
      ensures a[k] == b[k]
    {
      assert a[k] == s[lo..hi][i + k] == s[lo + (i + k)];
    }
  }

  lemma PartPrefix(b: bytes, at: int, part: bytes, i: nat, j: nat)
    requires Part(b, at, part) && i <= j <= |part|
    ensures Window(b, at + i, j - i) == Ok(part[i..j])
  {
    SubSlice(b, at, at + |part|, i, j);
    assert at + i + (j - i) == at + j;
  }

  /** A record standing in the item region parses to its item, up to the tag. */
  lemma RecordParses(b: bytes, base: int, off: int, f: FlatItem, signed: bool)
    requires ItemFits(f) && Part(b, base + off, Record(f))
    ensures ItemAt(b, base, off, signed) == Ok(ReTag(f, signed))
  {
    var r, n := Record(f), 4 * |f.payload|;
    RecordParts(f);
    PartPrefix(b, base + off, r, 0, 8);
    PartPrefix(b, base + off, r, 8, 8 + n);
    assert r[0..8][..4] == r[..4] && r[0..8][4..] == r[4..8];
    Le32RoundTrip(Tag(f.typ, f.id));
    Le32RoundTrip(n);
    assert n / 4 == |f.payload|;
    IntsFromWindow(b, base + off + 8, f.payload);
  }

  lemma {:induction false} SavedItems(i: Image, flat: seq<FlatItem>, signed: bool, n: nat)
    requires i.Valid() && i.recs == Records(flat) && AllFit(flat) && n <= |flat|
    ensures Items(i.File(), ItemBase(i.h), Starts(i.recs), signed, n) == Ok(ReTagAll(flat, signed)[..n])
  {
    hide ItemAt, Record, ReTag, Part, ItemFits, Start, Concat;
    if n > 0 {
      SavedItems(i, flat, signed, n - 1);
      i.RecordAt(n - 1);
      RecordParses(i.File(), ItemBase(i.h), Start(i.recs, n - 1), flat[n - 1], signed);
      TakeLast(ReTagAll(flat, signed), n);
    }
  }

  lemma TakeLast<T>(s: seq<T>, n: nat)
    requires 0 < n <= |s|
    ensures s[..n] == s[..n - 1] + [s[n - 1]]
  {
  }

  lemma SliceIsPart(b: bytes, at: nat, part: bytes)
    requires Part(b, at, part)
    ensures PySlice(b, at, at + |part|) == part
  {
  }

  lemma SavedBlob(i: Image, raws: seq<bytes>, z: Zlib, sizes: Option<seq<int>>, k: nat)
    requires i.Valid() && z.Inverse() && i.comp == Compressed(raws, z) && k < |raws|
    requires sizes == None || sizes == Some(Sizes(raws))
    ensures BlobAt(i.File(), ItemBase(i.h) + i.h[6], Starts(i.comp), i.h[7], sizes, z, k) == Ok(raws[k])
  {
    i.BlobSlice(k);
    assert z.decompress(i.comp[k]) == Ok(raws[k]);
  }

  lemma {:induction false} SavedBlobs(i: Image, raws: seq<bytes>, z: Zlib, sizes: Option<seq<int>>, n: nat)
    requires i.Valid() && z.Inverse() && i.comp == Compressed(raws, z) && n <= |raws|
    requires sizes == None || sizes == Some(Sizes(raws))
    ensures Blobs(i.File(), ItemBase(i.h) + i.h[6], Starts(i.comp), i.h[7], sizes, z, n) == Ok(raws[..n])
  {
    if n > 0 {
      SavedBlobs(i, raws, z, sizes, n - 1);
      SavedBlob(i, raws, z, sizes, n - 1);
      TakeLast(raws, n);
    }
  }

  /** Everything the readers take from a saved file: header, tables, blobs and items. */
  ghost predicate Reads(b: bytes, h: seq<int>, table: seq<int>, io: seq<int>, ro: seq<int>, raws: seq<bytes>,
          flat: seq<FlatItem>, z: Zlib) {
    && ReadsTables(b, h, table, io, ro, Sizes(raws))
    && |io| == |flat| && |ro| == |raws|
    && ReadsBlobs(b, h, ro, raws, z)
    && Items(b, ItemBase(h), io, false, |io|) == Ok(ReTagAll(flat, false))
    && Items(b, ItemBase(h), io, true, |io|) == Ok(ReTagAll(flat, true))
  }

  ghost predicate ReadsTables(b: bytes, h: seq<int>, table: seq<int>, io: seq<int>, ro: seq<int>, sizes: seq<int>) {
    && |h| == 8 && h[0] == 4 && h[4] == |io| && h[5] == |ro| == |sizes| && 3 * h[3] == |table|
    && ReadHeader(b) == Ok((MAGIC, h))
    && IntsFrom(b, 36, 3 * h[3]) == Ok(table)
    && IntsFrom(b, 36 + 12 * h[3], h[4]) == Ok(io)
    && IntsFrom(b, 36 + 12 * h[3] + 4 * h[4], h[5]) == Ok(ro)
    && IntsFrom(b, 36 + 12 * h[3] + 4 * h[4] + 4 * h[5], h[5]) == Ok(sizes)
    && ItemBase(h) + h[6] + h[7] == |b| == h[1] + 16 == h[2] + 16 + h[7]
  }

  ghost predicate ReadsBlobs(b: bytes, h: seq<int>, ro: seq<int>, raws: seq<bytes>, z: Zlib) {
    && |h| == 8 && |ro| == |raws|
    && Blobs(b, ItemBase(h) + h[6], ro, h[7], Some(Sizes(raws)), z, |ro|) == Ok(raws)
    && Blobs(b, ItemBase(h) + h[6], ro, h[7], None, z, |ro|) == Ok(raws)
  }

  lemma ImageTables(i: Image, table: seq<int>, sizes: seq<int>)
    requires i.Valid() && i.d == table + Starts(i.recs) + Starts(i.comp) + sizes
    ensures IntsFrom(i.File(), 36, |table|) == Ok(table)
    ensures IntsFrom(i.File(), 36 + 4 * |table|, |i.recs|) == Ok(Starts(i.recs))
    ensures IntsFrom(i.File(), 36 + 4 * (|table| + |i.recs|), |i.comp|) == Ok(Starts(i.comp))
    ensures IntsFrom(i.File(), 36 + 4 * (|table| + |i.recs| + |i.comp|), |sizes|) == Ok(sizes)
  {
    hide Starts, IntsFrom, Image.Valid, Image.File;
    Regroup(table, Starts(i.recs), Starts(i.comp), sizes);
    SavedTable(i, [], table, Starts(i.recs) + Starts(i.comp) + sizes);
    SavedTable(i, table, Starts(i.recs), Starts(i.comp) + sizes);
    SavedTable(i, table + Starts(i.recs), Starts(i.comp), sizes);
    SavedTable(i, table + Starts(i.recs) + Starts(i.comp), sizes, []);
  }

  lemma ImageReadsTables(i: Image, table: seq<int>, sizes: seq<int>)
    requires i.Valid() && i.d == table + Starts(i.recs) + Starts(i.comp) + sizes
    requires i.h[0] == 4 && i.h[4] == |i.recs| && i.h[5] == |i.comp| == |sizes| && 3 * i.h[3] == |table|
    requires |i.File()| == i.h[1] + 16 == i.h[2] + 16 + i.h[7]
    ensures ReadsTables(i.File(), i.h, table, Starts(i.recs), Starts(i.comp), sizes)
  {
    hide Window, WindowAt, UnpackInts, IntsFrom, PackInts, Starts, Concat;
    SavedHeader(i);
    ImageTables(i, table, sizes);
    var (t, n, r) := (i.h[3], i.h[4], i.h[5]);
    assert 36 + 4 * |table| == 36 + 12 * t;
    assert 36 + 4 * (|table| + |i.recs|) == 36 + 12 * t + 4 * n;
    assert 36 + 4 * (|table| + |i.recs| + |i.comp|) == 36 + 12 * t + 4 * n + 4 * r;
  }

  lemma ImageReadsBlobs(i: Image, raws: seq<bytes>, z: Zlib)
    requires i.Valid() && z.Inverse() && i.comp == Compressed(raws, z)
    ensures ReadsBlobs(i.File(), i.h, Starts(i.comp), raws, z)
  {
    SavedBlobs(i, raws, z, None, |raws|);
    SavedBlobs(i, raws, z, Some(Sizes(raws)), |raws|);
    Whole(raws);
  }

  lemma ImageReads(i: Image, raws: seq<bytes>, flat: seq<FlatItem>, table: seq<int>, z: Zlib)
    requires i.Valid() && z.Inverse() && AllFit(flat) && i.recs == Records(flat) && i.comp == Compressed(raws, z)
    requires i.d == table + Starts(i.recs) + Starts(i.comp) + Sizes(raws)
    requires i.h[0] == 4 && i.h[4] == |flat| && i.h[5] == |raws| && 3 * i.h[3] == |table|
    requires |i.File()| == i.h[1] + 16 == i.h[2] + 16 + i.h[7]
    ensures Reads(i.File(), i.h, table, Starts(i.recs), Starts(i.comp), raws, flat, z)
  {
    ImageReadsTables(i, table, Sizes(raws));
    ImageReadsBlobs(i, raws, z);
    SavedItems(i, flat, false, |flat|);
    SavedItems(i, flat, true, |flat|);
    Whole(ReTagAll(flat, false));
    Whole(ReTagAll(flat, true));
  }

  lemma SavedReads(c: Contents, z: Zlib)
    requires Fits(c, z) && z.Inverse()
    ensures Reads(FileBytes(c, z), Header(c, z), TypeTable(Types(c), c.items), Starts(Records(Flat(c))),
        Starts(Compressed(c.raws, z)), c.raws, Flat(c), z)
  {
    ImageValid(c, z);
    FileLength(c, z);
    ImageReads(ImageOf(c, z), c.raws, Flat(c), TypeTable(Types(c), c.items), z);
  }

  lemma Whole<T>(s: seq<T>)
    ensures s[..|s|] == s
  {
  }
}
