/** What the reader gives back: for every encoder that follows the format, and for the tools' own writer. */
module PngRoundTrip {
  import opened Bytes
  import opened PngFilter
  import opened PngFile

  // ---- any encoder -----------------------------------------------------------

  /** The scanlines as an encoder stores them: a filter byte of its choice, then the filtered row. */
  function Stream(rows: seq<bytes>, filters: seq<Filter>, bpp: nat, prev: bytes): bytes
    requires bpp > 0 && |filters| == |rows| && forall k :: 0 <= k < |rows| ==> |rows[k]| == |prev|
  {
    if rows == [] then []
    else [filters[0] as int] + Apply(filters[0], rows[0], prev, bpp) + Stream(rows[1..], filters[1..], bpp, rows[0])
  }

  /** The reader recovers every row, whatever filter each row was given. */
  lemma {:induction false} LinesOfStream(rows: seq<bytes>, filters: seq<Filter>, bpp: nat, prev: bytes)
    requires bpp > 0 && |filters| == |rows| && forall k :: 0 <= k < |rows| ==> |rows[k]| == |prev|
    ensures |Stream(rows, filters, bpp, prev)| == |rows| * (|prev| + 1)
    ensures Lines(Stream(rows, filters, bpp, prev), |prev|, bpp, prev, |rows|) == Ok(rows)
  {
    if rows == [] {
      assert |rows| * (|prev| + 1) == 0;
    } else {
      hide Apply, Undo, Lines, Stream;
      var f, row := filters[0], rows[0];
      LinesOfStream(rows[1..], filters[1..], bpp, row);
      LineFits(|rows|, |prev|);
      StreamParts(rows, filters, bpp, prev);
      LinesStep(Stream(rows, filters, bpp, prev), |prev|, bpp, prev, |rows|);
      UndoApply(f, row, prev, bpp, |prev|);
      assert row[..|prev|] == row && rows == [row] + rows[1..];
    }
  }

  lemma StreamParts(rows: seq<bytes>, filters: seq<Filter>, bpp: nat, prev: bytes)
    requires bpp > 0 && |filters| == |rows| && rows != [] && forall k :: 0 <= k < |rows| ==> |rows[k]| == |prev|
    ensures var (s, rest) := (Stream(rows, filters, bpp, prev), Stream(rows[1..], filters[1..], bpp, rows[0]));
            && |s| == |prev| + 1 + |rest| && s[0] == filters[0]
            && s[1..|prev| + 1] == Apply(filters[0], rows[0], prev, bpp) && s[|prev| + 1..] == rest
  {
    hide Apply;
  }

  /** The thirteen bytes of an IHDR body. */
  function HeadBytes(head: Head, compression: byte, filter: byte): bytes {
    Be32(head.width) + Be32(head.height) + [head.bitDepth, head.colorType, compression, filter, head.interlace]
  }

  lemma HeadBack(head: Head, compression: byte, filter: byte)
    requires IsU32(head.width) && IsU32(head.height)
    ensures HeadOf(HeadBytes(head, compression, filter)) == Ok(head)
  {
    hide Be32;
    var b := HeadBytes(head, compression, filter);
    assert b[..4] == Be32(head.width) && b[4..8] == Be32(head.height);
    Be32RoundTrip(head.width);
    Be32RoundTrip(head.height);
  }

  /** The IDAT bodies, concatenated; other chunks may stand anywhere between them. */
  function ImageData(cs: seq<Chunk>): bytes {
    if cs == [] then []
    else
      var n := |cs| - 1;
      if cs[n].ctype == IDAT then ImageData(cs[..n]) + cs[n].body else ImageData(cs[..n])
  }

  lemma {:induction false} GatherFile(header: Chunk, head: Head, cs: seq<Chunk>)
    requires header.ctype == IHDR && HeadOf(header.body) == Ok(head)
    requires forall k :: 0 <= k < |cs| ==> cs[k].ctype != IHDR
    ensures Gather([header] + cs) == Ok(Gathered(Some(head), ImageData(cs)))
  {
    hide HeadOf;
    var all := [header] + cs;
    var n := |all| - 1;
    if cs == [] {
      assert all[..0] == [];
    } else {
      GatherFile(header, head, cs[..|cs| - 1]);
      assert all[..n] == [header] + cs[..|cs| - 1];
    }
  }

  predicate WellFramed(cs: seq<Chunk>, crcs: seq<bytes>) {
    |cs| == |crcs| && forall k :: 0 <= k < |cs| ==> Frameable(cs[k], crcs[k])
  }

  lemma ChunksBack(cs: seq<Chunk>, crcs: seq<bytes>)
    requires WellFramed(cs, crcs)
    ensures Chunks(PNG_MAGIC + FramedAll(cs, crcs)) == Ok(cs)
  {
    hide FramedAll;
    var data := PNG_MAGIC + FramedAll(cs, crcs);
    assert data[0..8] == PNG_MAGIC;
    FramedBack(PNG_MAGIC, cs, crcs);
  }

  /** Every conforming file is read back exactly: a header chunk, then any chunks, with the image
      data split over any number of IDATs, any filter per row, RGB or RGBA, any CRC fields. */
  lemma ReadsEveryEncoder(head: Head, comp: byte, filt: byte, cs: seq<Chunk>, crcs: seq<bytes>, rows: seq<bytes>,
          filters: seq<Filter>, z: Zlib)
    requires Supported(head) && IsU32(head.width) && IsU32(head.height)
    requires WellFramed([Chunk(IHDR, HeadBytes(head, comp, filt))] + cs, crcs)
    requires forall k :: 0 <= k < |cs| ==> cs[k].ctype != IHDR
    requires |rows| == |filters| == head.height && forall k :: 0 <= k < |rows| ==>
        |rows[k]| == head.width * Channels(head)
    requires z.decompress(ImageData(cs)) ==
        Ok(Stream(rows, filters, Channels(head), Zeros(head.width * Channels(head))))
    ensures forall k :: 0 <= k < |rows| ==> |rows[k]| % Channels(head) == 0
    ensures Decode(PNG_MAGIC + FramedAll([Chunk(IHDR, HeadBytes(head, comp, filt))] + cs, crcs), z)
            == Ok(Image(head.width, head.height, Concat(ExpandAll(rows, Channels(head)))))
  {
    hide Chunks, Gather, FramedAll, HeadBytes, HeadOf, Stream, Concat;
    var header := Chunk(IHDR, HeadBytes(head, comp, filt));
    ChunksBack([header] + cs, crcs);
    HeadBack(head, comp, filt);
    GatherFile(header, head, cs);
    RasterOfStream(head, rows, filters);
  }

  lemma RasterOfStream(head: Head, rows: seq<bytes>, filters: seq<Filter>)
    requires |rows| == |filters| == head.height && forall k :: 0 <= k < |rows| ==>
        |rows[k]| == head.width * Channels(head)
    ensures forall k :: 0 <= k < |rows| ==> |rows[k]| % Channels(head) == 0
    ensures Raster(head, Stream(rows, filters, Channels(head), Zeros(head.width * Channels(head)))) ==
        Ok(ExpandAll(rows, Channels(head)))
  {
    hide Stream, Lines, Expand;
    LinesOfStream(rows, filters, Channels(head), Zeros(head.width * Channels(head)));
    StrideMultiple(head.width, Channels(head));
  }

  // ---- the tools' own writer ----------------------------------------------------

  function SubRow(row: bytes): (r: bytes)
    ensures |r| == |row|
  {
    seq(|row|, i requires 0 <= i < |row| => Sub(row[i], Left(row, i, 4)))
  }

  /** Every row with filter byte 1 and its Sub-filtered bytes. */
  function SubStream(rows: seq<bytes>): bytes {
    if rows == [] then []
    else SubStream(rows[..|rows| - 1]) + [1] + SubRow(rows[|rows| - 1])
  }

  function Ones(n: nat): (r: seq<Filter>)
    ensures |r| == n
  {
    seq(n, k => 1)
  }

  lemma {:induction false} SubStreamFront(rows: seq<bytes>)
    requires rows != []
    ensures SubStream(rows) == [1] + SubRow(rows[0]) + SubStream(rows[1..])
  {
    hide SubRow;
    var n := |rows| - 1;
    if n > 0 {
      SubStreamFront(rows[..n]);
      assert rows[..n][1..] == rows[1..][..n - 1];
    }
  }

  /** The Sub filter never looks at the previous row. */
  lemma {:induction false} SubStreamIsStream(rows: seq<bytes>, prev: bytes)
    requires forall k :: 0 <= k < |rows| ==> |rows[k]| == |prev|
    ensures Stream(rows, Ones(|rows|), 4, prev) == SubStream(rows)
  {
    if rows != [] {
      SubStreamFront(rows);
      SubStreamIsStream(rows[1..], rows[0]);
      assert Ones(|rows|)[1..] == Ones(|rows| - 1);
      assert Apply(1, rows[0], prev, 4) == SubRow(rows[0]);
    }
  }

  /** rgba cut into h rows. */
  function RowsOf(rgba: bytes, stride: nat, h: nat): (r: seq<bytes>)
    requires |rgba| == h * stride
    ensures |r| == h && forall k :: 0 <= k < h ==> |r[k]| == stride
  {
    if h == 0 then [] else
    Split(h, stride);
    RowsOf(rgba[..(h - 1) * stride], stride, h - 1) + [rgba[(h - 1) * stride..]]
  }

  lemma Split(h: nat, stride: nat)
    requires h > 0
    ensures h * stride == (h - 1) * stride + stride
  {
  }

  lemma {:induction false} RowsJoin(rgba: bytes, stride: nat, h: nat)
    requires |rgba| == h * stride
    ensures Concat(RowsOf(rgba, stride, h)) == rgba
  {
    if h > 0 {
      Split(h, stride);
      var rows, front := RowsOf(rgba, stride, h), RowsOf(rgba[..(h - 1) * stride], stride, h - 1);
      RowsJoin(rgba[..(h - 1) * stride], stride, h - 1);
      assert rows[..h - 1] == front;
    }
  }

  lemma {:induction false} RowAt(rgba: bytes, stride: nat, h: nat, y: nat)
    requires |rgba| == h * stride && y < h
    ensures y * stride + stride <= |rgba|
    ensures RowsOf(rgba, stride, h)[y] == rgba[y * stride..y * stride + stride]
  {
    Split(h, stride);
    var cut := (h - 1) * stride;
    var front := rgba[..cut];
    if y < h - 1 {
      RowAt(front, stride, h - 1, y);
      FrontSlice(rgba, cut, y * stride, y * stride + stride);
    }
  }

  lemma FrontSlice<T>(s: seq<T>, cut: nat, i: nat, j: nat)
    requires i <= j <= cut <= |s|
    ensures s[..cut][i..j] == s[i..j]
  {
  }

  function FileChunks(w: int, h: int, comp: bytes): seq<Chunk> {
    [Chunk(IHDR, Be32(w) + Be32(h) + [8, 6, 0, 0, 0]), Chunk(IDAT, comp), Chunk(IEND, [])]
  }

  function CrcField(c: Chunk, crc: bytes -> int): (b: bytes)
    ensures |b| == 4
  {
    Be32(crc(c.ctype + c.body))
  }

  function Crcs(cs: seq<Chunk>, crc: bytes -> int): (r: seq<bytes>)
    ensures |r| == |cs| && forall k :: 0 <= k < |cs| ==> r[k] == CrcField(cs[k], crc)
  {
    seq(|cs|, k requires 0 <= k < |cs| => CrcField(cs[k], crc))
  }

  /** `write_png` behind the file access; crc is zlib.crc32. */
  function Encode(w: int, h: int, rgba: bytes, z: Zlib, crc: bytes -> int): Result<bytes> {
    if |rgba| != w * h * 4 then Err(AssertionError)
    else if w < 0 || h < 0 then Err(StructError)
    else
      Area(w, h);
      var comp := z.compress(SubStream(RowsOf(rgba, w * 4, h)));
      if !IsU32(w) || !IsU32(h) || !IsU32(|comp|) then Err(StructError)
      else Ok(PNG_MAGIC + FramedAll(FileChunks(w, h, comp), Crcs(FileChunks(w, h, comp), crc)))
  }

  lemma Area(w: nat, h: nat)
    ensures w * h * 4 == h * (w * 4)
  {
  }

  method FilterImage(w: nat, h: nat, rgba: bytes) returns (filt: bytes)
    requires |rgba| == h * (w * 4)
    ensures filt == SubStream(RowsOf(rgba, w * 4, h))
  {
    hide RowsOf, SubRow;
    var stride := w * 4;
    ghost var rows := RowsOf(rgba, stride, h);
    filt := [];
    for y := 0 to h
      invariant filt == SubStream(rows[..y])
    {
      RowAt(rgba, stride, h, y);
      filt := filt + [1];
      var row := rgba[y * stride..y * stride + stride];
      var line := FilterLine(row);
      filt := filt + line;
      assert rows[..y + 1][..y] == rows[..y];
    }
    assert rows[..h] == rows;
  }

  method FilterLine(row: bytes) returns (line: bytes)
    requires |row| % 4 == 0
    ensures line == SubRow(row)
  {
    line := if |row| >= 4 then row[..4] else row;
    if |row| == 0 { return; }
    for i := 4 to |row|
      invariant line == SubRow(row)[..i]
    {
      line := line + [Sub(row[i], row[i - 4])];
    }
  }

  method WritePng(w: int, h: int, rgba: bytes, z: Zlib, crc: bytes -> int) returns (r: Result<bytes>)
    ensures r == Encode(w, h, rgba, z, crc)
  {
    hide SubStream, RowsOf, FramedAll, Crcs, FileChunks, MakeChunk, Be32;
    if |rgba| != w * h * 4 { return Err(AssertionError); }
    if w < 0 || h < 0 { return Err(StructError); }
    Area(w, h);
    var filt := FilterImage(w, h, rgba);
    var comp := z.compress(filt);
    if !IsU32(w) || !IsU32(h) { return Err(StructError); }
    var png := PNG_MAGIC + MakeChunk(IHDR, Be32(w) + Be32(h) + [8, 6, 0, 0, 0], crc);
    if !IsU32(|comp|) { return Err(StructError); }
    png := png + MakeChunk(IDAT, comp, crc);
    png := png + MakeChunk(IEND, [], crc);
    ThreeChunks(w, h, comp, crc);
    AssocFour(PNG_MAGIC, MakeChunk(IHDR, Be32(w) + Be32(h) + [8, 6, 0, 0, 0], crc), MakeChunk(IDAT, comp, crc),
      MakeChunk(IEND, [], crc));
    r := Ok(png);
  }

  function MakeChunk(ctype: bytes, body: bytes, crc: bytes -> int): bytes {
    Be32(|body|) + ctype + body + Be32(crc(ctype + body))
  }

  lemma AssocFour<T>(a: seq<T>, b: seq<T>, c: seq<T>, d: seq<T>)
    ensures a + b + c + d == a + (b + (c + d))
  {
  }

  lemma ThreeChunks(w: int, h: int, comp: bytes, crc: bytes -> int)
    ensures var cs := FileChunks(w, h, comp);
            FramedAll(cs, Crcs(cs, crc)) ==
                MakeChunk(IHDR, Be32(w) + Be32(h) + [8, 6, 0, 0, 0], crc)
                + (MakeChunk(IDAT, comp, crc) + MakeChunk(IEND, [], crc))
  {
    hide Be32, FramedAll;
    var cs := FileChunks(w, h, comp);
    var k := Crcs(cs, crc);
    FramedSplit(cs, k);
    FramedSplit(cs[1..], k[1..]);
    LastChunk(cs[2], k[2]);
    assert cs[1..][1..] == [cs[2]] && k[1..][1..] == [k[2]];
  }

  lemma LastChunk(c: Chunk, crc: bytes)
    ensures FramedAll([c], [crc]) == Framed(c, crc)
  {
    hide Framed;
    FramedSplit([c], [crc]);
    assert Framed(c, crc) + [] == Framed(c, crc);
  }

  /** What the tools write, they read back: width, height and every byte. */
  lemma WriteThenRead(w: int, h: int, rgba: bytes, z: Zlib, crc: bytes -> int)
    requires z.Inverse() && Encode(w, h, rgba, z, crc).Ok?
    ensures Decode(Encode(w, h, rgba, z, crc).value, z) == Ok(Image(w, h, rgba))
  {
    hide FramedAll, Crcs, SubStream, RowsOf, Stream, Decode, Concat, Be32;
    Area(w, h);
    var rows := RowsOf(rgba, w * 4, h);
    var comp := z.compress(SubStream(rows));
    var head := Head(w, h, 8, 6, 0);
    var cs := FileChunks(w, h, comp);
    assert cs[0] == Chunk(IHDR, HeadBytes(head, 0, 0));
    assert cs == [cs[0]] + cs[1..];
    SubStreamIsStream(rows, Zeros(w * 4));
    DataOfThree(w, h, comp);
    CrcsFrame(w, h, comp, crc);
    ReadsEveryEncoder(head, 0, 0, cs[1..], Crcs(cs, crc), rows, Ones(h), z);
    RowsJoin(rgba, w * 4, h);
    assert ExpandAll(rows, 4) == rows;
  }

  lemma DataOfThree(w: int, h: int, comp: bytes)
    ensures ImageData(FileChunks(w, h, comp)[1..]) == comp
  {
    hide Be32;
    var cs := FileChunks(w, h, comp)[1..];
    assert cs == [Chunk(IDAT, comp), Chunk(IEND, [])];
    assert IEND[1] != IDAT[1];
    assert cs[..1] == [Chunk(IDAT, comp)] && cs[..1][..0] == [];
    assert ImageData(cs[..1]) == [] + comp == comp;
  }

  lemma CrcsFrame(w: int, h: int, comp: bytes, crc: bytes -> int)
    requires IsU32(|comp|)
    ensures WellFramed(FileChunks(w, h, comp), Crcs(FileChunks(w, h, comp), crc))
  {
    var cs := FileChunks(w, h, comp);
    var k := Crcs(cs, crc);
    assert cs[0].ctype == IHDR && cs[1].ctype == IDAT && cs[2].ctype == IEND;
    assert |k[0]| == 4 && |k[1]| == 4 && |k[2]| == 4;
    assert Frameable(cs[0], k[0]);
    assert Frameable(cs[1], k[1]);
    assert Frameable(cs[2], k[2]);
  }
}
