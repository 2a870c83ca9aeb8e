/** PNG files byte by byte: integers stand most significant byte first, pixels are what the five
    filter types of section 6 of RFC 2083 make of the stored bytes. */
module PngBytes {
  import opened Bytes
  import opened PngFilter
  import opened PngFile
  import opened PngRoundTrip

  /** The four bytes at `at` are the digits of v to base 256, modulo 2^32. */
  predicate StandsBig(b: bytes, at: int, v: int) {
    && 0 <= at && at + 4 <= |b|
    && var (d0: int, d1: int, d2: int, d3: int) := (b[at], b[at + 1], b[at + 2], b[at + 3]);
       0x100_0000 * d0 + 0x1_0000 * d1 + 0x100 * d2 + d3 == v % 0x1_0000_0000
  }

  lemma BigWord(v: int)
    ensures StandsBig(Be32(v), 0, v)
  {
    Digits(v);
  }

  lemma BigInside(pre: bytes, mid: bytes, post: bytes, at: int, v: int)
    requires StandsBig(mid, at, v)
    ensures StandsBig(pre + mid + post, |pre| + at, v)
  {
  }

  lemma BigPart(b: bytes, from: nat, part: bytes, at: int, v: int)
    requires Part(b, from, part) && StandsBig(part, at, v)
    ensures StandsBig(b, from + at, v)
  {
    assert forall j :: 0 <= j < |part| ==> part[j] == b[from + j];
  }

  // ---- chunks ---------------------------------------------------------------------------

  /** A chunk with its length in front and a checksum over type and body behind. */
  predicate ChunkStands(b: bytes, at: int, ctype: bytes, body: bytes, check: int) {
    && |ctype| == 4 && StandsBig(b, at, |body|) && Part(b, at + 4, ctype) && Part(b, at + 8, body)
    && StandsBig(b, at + 8 + |body|, check)
  }

  lemma ChunkInside(pre: bytes, mid: bytes, post: bytes, ctype: bytes, body: bytes, check: int)
    requires ChunkStands(mid, 0, ctype, body, check)
    ensures ChunkStands(pre + mid + post, |pre|, ctype, body, check)
  {
    hide StandsBig;
    BigInside(pre, mid, post, 0, |body|);
    PartInside(pre, mid, post, 4, ctype);
    PartInside(pre, mid, post, 8, body);
    BigInside(pre, mid, post, 8 + |body|, check);
  }

  lemma MadeChunk(ctype: bytes, body: bytes, crc: bytes -> int)
    requires |ctype| == 4
    ensures ChunkStands(MakeChunk(ctype, body, crc), 0, ctype, body, crc(ctype + body))
    ensures |MakeChunk(ctype, body, crc)| == 12 + |body|
  {
    hide StandsBig, Be32;
    var (size, check) := (Be32(|body|), Be32(crc(ctype + body)));
    var m := MakeChunk(ctype, body, crc);
    BigWord(|body|);
    BigWord(crc(ctype + body));
    BigInside([], size, ctype + body + check, 0, |body|);
    assert [] + size + (ctype + body + check) == m;
    BigInside(size + ctype + body, check, [], 0, crc(ctype + body));
    assert size + ctype + body + check + [] == m;
    assert m[4..8] == ctype && m[8..8 + |body|] == body;
  }

  /** A framed chunk of any encoder; the reader never looks at its last four bytes. */
  lemma FramedStands(c: Chunk, crc: bytes)
    requires Frameable(c, crc)
    ensures var f := Framed(c, crc);
            && |f| == 12 + |c.body| && StandsBig(f, 0, |c.body|) && Part(f, 4, c.ctype) && Part(f, 8, c.body)
            && Part(f, 8 + |c.body|, crc)
  {
    hide StandsBig, Be32;
    var (f, size) := (Framed(c, crc), Be32(|c.body|));
    BigWord(|c.body|);
    BigInside([], size, c.ctype + c.body + crc, 0, |c.body|);
    assert [] + size + (c.ctype + c.body + crc) == f;
  }

  /** The reader's next chunk, on any bytes it accepts: four bytes of length, four of type, as many of
      body as announced or left, and twelve bytes more than announced to the chunk after it. */
  lemma NextChunkRead(data: bytes, pos: nat) returns (n: nat)
    requires pos < |data| && ChunksFrom(data, pos).Ok?
    ensures var cs := ChunksFrom(data, pos).value;
            && cs != [] && StandsBig(data, pos, n) && n < 0x1_0000_0000
            && ChunksFrom(data, pos + 12 + n) == Ok(cs[1..])
            && |cs[0].ctype| <= 4 && Part(data, Least(pos + 4, |data|), cs[0].ctype)
            && (pos + 8 <= |data| ==> |cs[0].ctype| == 4)
            && Part(data, Least(pos + 8, |data|), cs[0].body) && |cs[0].body| <= n
            && (pos + 8 + n <= |data| ==> |cs[0].body| == n)
  {
    hide PySlice, ReadU32Be, StandsBig, Part;
    SliceParts(data, pos, 4);
    var word := PySlice(data, pos, pos + 4);
    n := ReadU32Be(word);
    WordRead(data, pos, word);
    SliceParts(data, pos + 4, 4);
    SliceParts(data, pos + 8, n);
    var cs := ChunksFrom(data, pos).value;
    assert cs[1..] == ChunksFrom(data, pos + 12 + n).value;
  }

  lemma SliceParts(data: bytes, at: nat, n: nat)
    ensures var s := PySlice(data, at, at + n);
            Part(data, Least(at, |data|), s) && |s| <= n && (at + n <= |data| ==> |s| == n)
  {
  }

  lemma WordRead(data: bytes, pos: nat, word: bytes)
    requires Part(data, pos, word) && |word| == 4
    ensures StandsBig(data, pos, ReadU32Be(word))
  {
    assert forall j :: 0 <= j < 4 ==> word[j] == data[pos + j];
  }

  function Least(a: int, b: int): int { if a < b then a else b }

  /** The header's thirteen bytes. */
  lemma HeadStands(body: bytes)
    requires HeadOf(body).Ok?
    ensures var h := HeadOf(body).value;
            && |body| == 13 && StandsBig(body, 0, h.width) && StandsBig(body, 4, h.height)
            && h.width < 0x1_0000_0000 && h.height < 0x1_0000_0000
            && h.bitDepth == body[8] && h.colorType == body[9] && h.interlace == body[12]
  {
    hide ReadU32Be, StandsBig;
    WordRead(body, 0, body[..4]);
    WordRead(body, 4, body[4..8]);
  }

  // ---- what the writer puts out ------------------------------------------------------------

  /** The Sub-filtered scanlines: 1, and every byte less the one four before it. */
  ghost predicate SubFiltered(s: bytes, rgba: bytes, w: nat, h: nat) {
    |rgba| == h * (w * 4) && forall y :: 0 <= y < h ==> SubLine(s, rgba, w, y)
  }

  ghost predicate SubLine(s: bytes, rgba: bytes, w: nat, y: nat) {
    SubbedLine(s, y * (w * 4 + 1), rgba, y * (w * 4), w)
  }

  ghost predicate SubbedLine(s: bytes, at: nat, rgba: bytes, from: nat, w: nat) {
    && at + 1 + w * 4 <= |s| && from + w * 4 <= |rgba| && s[at] == 1
    && forall i :: 0 <= i < w * 4 ==> SubByte(s, at, rgba, from, i)
  }

  predicate SubByte(s: bytes, at: nat, rgba: bytes, from: nat, i: nat)
    requires at + 1 + i < |s| && from + i < |rgba|
  {
    var own: int := rgba[from + i];
    s[at + 1 + i] == (own - if i < 4 then 0 else rgba[from + i - 4]) % 256
  }

  lemma {:induction false} SubStreamAt(rows: seq<bytes>, stride: nat, y: nat)
    requires y < |rows| && forall k :: 0 <= k < |rows| ==> |rows[k]| == stride
    ensures |SubStream(rows)| == |rows| * (stride + 1)
    ensures Part(SubStream(rows), y * (stride + 1), [1] + SubRow(rows[y]))
  {
    hide SubRow;
    var n := |rows| - 1;
    LineFits(n + 1, stride);
    SubStreamSize(rows[..n], stride);
    if y < n {
      SubStreamAt(rows[..n], stride, y);
    }
    assert SubStream(rows) == SubStream(rows[..n]) + ([1] + SubRow(rows[n]));
  }

  lemma {:induction false} SubStreamSize(rows: seq<bytes>, stride: nat)
    requires forall k :: 0 <= k < |rows| ==> |rows[k]| == stride
    ensures |SubStream(rows)| == |rows| * (stride + 1)
  {
    hide SubRow;
    if rows != [] {
      LineFits(|rows|, stride);
      SubStreamSize(rows[..|rows| - 1], stride);
    }
  }

  lemma StreamIsFiltered(rgba: bytes, w: nat, h: nat)
    requires |rgba| == h * (w * 4)
    ensures SubFiltered(SubStream(RowsOf(rgba, w * 4, h)), rgba, w, h)
  {
    hide SubStream, RowsOf, SubRow;
    var rows := RowsOf(rgba, w * 4, h);
    forall y | 0 <= y < h
      ensures SubLine(SubStream(rows), rgba, w, y)
    {
      SubStreamAt(rows, w * 4, y);
      RowAt(rgba, w * 4, h, y);
      LineIsFiltered(SubStream(rows), rgba, w, y, rows[y]);
    }
  }

  lemma LineIsFiltered(s: bytes, rgba: bytes, w: nat, y: nat, row: bytes)
    requires y * (w * 4) + w * 4 <= |rgba| && row == rgba[y * (w * 4)..y * (w * 4) + w * 4]
    requires Part(s, y * (w * 4 + 1), [1] + SubRow(row))
    ensures SubLine(s, rgba, w, y)
  {
    SubLineAt(s, rgba, w, y * (w * 4 + 1), y * (w * 4), row);
  }

  lemma SubLineAt(s: bytes, rgba: bytes, w: nat, at: nat, from: nat, row: bytes)
    requires from + w * 4 <= |rgba| && row == rgba[from..from + w * 4] && Part(s, at, [1] + SubRow(row))
    ensures SubbedLine(s, at, rgba, from, w)
  {
    var line := [1] + SubRow(row);
    PartByte(s, at, line, 0);
    forall i | 0 <= i < w * 4
      ensures SubByte(s, at, rgba, from, i)
    {
      PartByte(s, at, line, 1 + i);
      assert line[1 + i] == SubRow(row)[i] && row[i] == rgba[from + i];
      if i >= 4 { assert row[i - 4] == rgba[from + i - 4]; }
    }
  }

  /** The written file: the eight bytes of the format, a header of 13 bytes for 8-bit RGBA without
      interlacing, one chunk of compressed scanlines, and an empty one at the end. */
  lemma WrittenBytes(w: int, h: int, rgba: bytes, z: Zlib, crc: bytes -> int) returns (s: bytes)
    requires Encode(w, h, rgba, z, crc).Ok?
    ensures w >= 0 && h >= 0 && SubFiltered(s, rgba, w, h)
    ensures var b := Encode(w, h, rgba, z, crc).value; var n := |z.compress(s)|;
            && |b| == 57 + n && b[..8] == [137, 80, 78, 71, 13, 10, 26, 10]
            && StandsBig(b, 8, 13) && Part(b, 12, [73, 72, 68, 82]) && StandsBig(b, 16, w) && StandsBig(b, 20, h)
            && Part(b, 24, [8, 6, 0, 0, 0]) && StandsBig(b, 29, crc(b[12..29]))
            && ChunkStands(b, 33, [73, 68, 65, 84], z.compress(s), crc([73, 68, 65, 84] + z.compress(s)))
            && ChunkStands(b, 45 + n, [73, 69, 78, 68], [], crc([73, 69, 78, 68] + []))
  {
    hide FramedAll, SubStream, RowsOf, StandsBig, ChunkStands, MakeChunk, FileChunks, Crcs, Be32, SubFiltered;
    Area(w, h);
    s := SubStream(RowsOf(rgba, w * 4, h));
    StreamIsFiltered(rgba, w, h);
    var comp := z.compress(s);
    var ihdr := Be32(w) + Be32(h) + [8, 6, 0, 0, 0];
    var (a, d, e) := (MakeChunk(IHDR, ihdr, crc), MakeChunk(IDAT, comp, crc), MakeChunk(IEND, [], crc));
    var b := Encode(w, h, rgba, z, crc).value;
    ThreeChunks(w, h, comp, crc);
    MadeChunk(IHDR, ihdr, crc);
    MadeChunk(IDAT, comp, crc);
    MadeChunk(IEND, [], crc);
    assert b == PNG_MAGIC + (a + (d + e));
    assert b == PNG_MAGIC + a + (d + e);
    ChunkInside(PNG_MAGIC, a, d + e, IHDR, ihdr, crc(IHDR + ihdr));
    assert b == PNG_MAGIC + a + d + e;
    ChunkInside(PNG_MAGIC + a, d, e, IDAT, comp, crc(IDAT + comp));
    assert b == PNG_MAGIC + a + d + e + [];
    ChunkInside(PNG_MAGIC + a + d, e, [], IEND, [], crc(IEND + []));
    HeaderChunk(b, w, h, crc);
  }

  lemma SplitAt(b: bytes, i: nat, k: nat, j: nat)
    requires i <= k <= j <= |b|
    ensures b[i..j] == b[i..k] + b[k..j]
  {
  }

  lemma HeaderChunk(b: bytes, w: int, h: int, crc: bytes -> int)
    requires var ihdr := Be32(w) + Be32(h) + [8, 6, 0, 0, 0]; ChunkStands(b, 8, IHDR, ihdr, crc(IHDR + ihdr))
    ensures StandsBig(b, 8, 13) && Part(b, 12, [73, 72, 68, 82]) && StandsBig(b, 16, w) && StandsBig(b, 20, h)
    ensures Part(b, 24, [8, 6, 0, 0, 0]) && StandsBig(b, 29, crc(b[12..29]))
  {
    hide StandsBig, Be32;
    var ihdr := Be32(w) + Be32(h) + [8, 6, 0, 0, 0];
    SplitAt(b, 12, 16, 29);
    BigWord(w);
    BigWord(h);
    assert Part(b, 16, Be32(w)) by { assert b[16..20] == ihdr[0..4]; }
    assert Part(b, 20, Be32(h)) by { assert b[20..24] == ihdr[4..8]; }
    assert Part(b, 24, [8, 6, 0, 0, 0]) by { assert b[24..29] == ihdr[8..13]; }
    BigPart(b, 16, Be32(w), 0, w);
    BigPart(b, 20, Be32(h), 0, h);
  }

  // ---- what the reader makes of any file -----------------------------------------------------

  /** Row y is the defiltered form of line y over the row before it, the first one over zeros. */
  ghost predicate RowOf(pixels: bytes, stride: nat, bpp: nat, first: bytes, rows: seq<bytes>, y: nat)
    requires y < |rows|
  {
    var at := y * (stride + 1);
    && at + 1 + stride <= |pixels|
    && Defiltered(pixels[at], pixels[at + 1..at + 1 + stride], if y == 0 then first else rows[y - 1], rows[y], bpp)
  }

  lemma {:induction false} LinesRows(pixels: bytes, stride: nat, bpp: nat, prev: bytes, h: nat, y: nat)
    requires bpp > 0 && |prev| == stride && |pixels| == h * (stride + 1) && y < h
    requires Lines(pixels, stride, bpp, prev, h).Ok?
    ensures RowOf(pixels, stride, bpp, prev, Lines(pixels, stride, bpp, prev, h).value, y)
    decreases h
  {
    hide Undo, Defiltered;
    LineFits(h, stride);
    var raw, rest := pixels[1..stride + 1], pixels[stride + 1..];
    var row := Undo(pixels[0], raw, prev, bpp, stride);
    var rows := Lines(pixels, stride, bpp, prev, h).value;
    var tail := Lines(rest, stride, bpp, row, h - 1).value;
    assert rows == [row] + tail;
    hide Lines;
    if y == 0 {
      DefilteredExactly(pixels[0], raw, prev, row, bpp);
    } else {
      LinesRows(rest, stride, bpp, row, h - 1, y - 1);
      RowShift(pixels, stride, bpp, prev, row, tail, y);
    }
  }

  lemma RowShift(pixels: bytes, stride: nat, bpp: nat, prev: bytes, row: bytes, tail: seq<bytes>, y: nat)
    requires |pixels| >= stride + 1 && 0 < y <= |tail| && RowOf(pixels[stride + 1..], stride, bpp, row, tail, y - 1)
    ensures RowOf(pixels, stride, bpp, prev, [row] + tail, y)
  {
    hide Defiltered;
    var rest, rows := pixels[stride + 1..], [row] + tail;
    LineFits(y, stride);
    var at, from := y * (stride + 1), (y - 1) * (stride + 1);
    assert at == from + (stride + 1);
    assert rest[from] == pixels[at] && rest[from + 1..from + 1 + stride] == pixels[at + 1..at + 1 + stride];
    assert rows[y] == tail[y - 1] && rows[y - 1] == if y == 1 then row else tail[y - 2];
  }

  /** Byte k of the pixel at (x, y): the row's, with 255 for the alpha that RGB rows lack. */
  ghost predicate PixelOfRow(img: Image, rows: seq<bytes>, bpp: nat, x: nat, y: nat, k: nat) {
    && y < |rows| && img.width >= 0 && 0 <= (y * img.width + x) * 4 + k < |img.rgba|
    && if bpp == 3 && k == 3 then img.rgba[(y * img.width + x) * 4 + k] == 255
       else x * bpp + k < |rows[y]| && img.rgba[(y * img.width + x) * 4 + k] == rows[y][x * bpp + k]
  }

  lemma {:induction false} EqualStarts(parts: seq<bytes>, size: nat, y: nat)
    requires y <= |parts| && forall k :: 0 <= k < |parts| ==> |parts[k]| == size
    ensures Start(parts, y) == y * size
  {
    if y > 0 {
      EqualStarts(parts, size, y - 1);
      hide Start, Concat;
      StartNext(parts, y - 1);
      assert y * size == (y - 1) * size + size;
    }
  }

  lemma ExpandedByte(row: bytes, w: nat, bpp: nat, x: nat, k: nat)
    requires (bpp == 3 || bpp == 4) && |row| == w * bpp && |row| % bpp == 0 && x < w && k < 4
    ensures |Expand(row, bpp)| == w * 4 && x * 4 + k < w * 4
    ensures Expand(row, bpp)[x * 4 + k] == if bpp == 3 && k == 3 then 255 else row[x * bpp + k]
  {
    StrideMultiple(w, bpp);
    if bpp == 3 {
      assert (x * 4 + k) / 4 == x && (x * 4 + k) % 4 == k;
    }
  }

  lemma ExpandedPixel(rows: seq<bytes>, w: nat, bpp: nat, x: nat, y: nat, k: nat)
    requires (bpp == 3 || bpp == 4) && y < |rows| && x < w && k < 4
    requires forall j :: 0 <= j < |rows| ==> |rows[j]| == w * bpp && |rows[j]| % bpp == 0
    ensures PixelOfRow(Image(w, |rows|, Concat(ExpandAll(rows, bpp))), rows, bpp, x, y, k)
  {
    hide Expand, Concat, Start;
    var parts := ExpandAll(rows, bpp);
    forall j | 0 <= j < |rows|
      ensures |parts[j]| == w * 4
    {
      StrideMultiple(w, bpp);
    }
    EqualStarts(parts, w * 4, y);
    BlockPart(parts, y);
    ExpandedByte(rows[y], w, bpp, x, k);
    PixelPlace(y, w, x, k);
    assert Concat(parts)[y * (w * 4) + (x * 4 + k)] == parts[y][x * 4 + k] by {
      PartByte(Concat(parts), y * (w * 4), parts[y], x * 4 + k);
    }
  }

  lemma PartByte(b: bytes, at: int, part: bytes, k: nat)
    requires Part(b, at, part) && k < |part|
    ensures at + k < |b| && b[at + k] == part[k]
  {
    assert part[k] == b[at..at + |part|][k];
  }

  lemma PixelPlace(y: nat, w: nat, x: nat, k: nat)
    ensures (y * w + x) * 4 + k == y * (w * 4) + (x * 4 + k)
  {
    Reorder(w, y);
  }

  /** Whatever the reader accepts: the header is that of the last header chunk, for 8-bit RGB or RGBA
      without interlacing; the scanlines fill the image exactly; every row is the defiltered form of
      its line; and the image shows these rows. */
  lemma ReadsPixels(data: bytes, z: Zlib) returns (head: Head, pixels: bytes, rows: seq<bytes>)
    requires Decode(data, z).Ok?
    ensures Chunks(data).Ok? && Gather(Chunks(data).value).Ok?
    ensures var g := Gather(Chunks(data).value).value; g.head == Some(head) && z.decompress(g.idat) == Ok(pixels)
    ensures head.bitDepth == 8 && (head.colorType == 2 || head.colorType == 6) && head.interlace == 0
    ensures var (img, bpp) := (Decode(data, z).value, if head.colorType == 2 then 3 else 4);
            && img.width == head.width && img.height == head.height == |rows|
            && |pixels| == head.height * (head.width * bpp + 1)
            && |img.rgba| == head.height * (head.width * 4)
            && (forall y :: 0 <= y < |rows| ==>
                  RowOf(pixels, head.width * bpp, bpp, Zeros(head.width * bpp), rows, y))
            && forall x, y, k :: 0 <= x < head.width && 0 <= y < head.height && 0 <= k < 4 ==>
                  PixelOfRow(img, rows, bpp, x, y, k)
  {
    hide Chunks, Gather, Lines, RowOf, PixelOfRow, Expand, Concat;
    var g := Gather(Chunks(data).value).value;
    head := g.head.value;
    pixels := z.decompress(g.idat).value;
    var bpp := Channels(head);
    var stride := head.width * bpp;
    rows := Lines(pixels, stride, bpp, Zeros(stride), head.height).value;
    StrideMultiple(head.width, bpp);
    forall y | 0 <= y < |rows|
      ensures RowOf(pixels, stride, bpp, Zeros(stride), rows, y)
    {
      LinesRows(pixels, stride, bpp, Zeros(stride), head.height, y);
    }
    forall x, y, k | 0 <= x < head.width && 0 <= y < head.height && 0 <= k < 4
      ensures PixelOfRow(Decode(data, z).value, rows, bpp, x, y, k)
    {
      ExpandedPixel(rows, head.width, bpp, x, y, k);
    }
    AllExpanded(rows, head.width, bpp);
  }

  lemma AllExpanded(rows: seq<bytes>, w: nat, bpp: nat)
    requires (bpp == 3 || bpp == 4) && forall j :: 0 <= j < |rows| ==> |rows[j]| == w * bpp && |rows[j]| % bpp == 0
    ensures |Concat(ExpandAll(rows, bpp))| == |rows| * (w * 4)
  {
    hide Expand, Concat, Start;
    var parts := ExpandAll(rows, bpp);
    forall j | 0 <= j < |rows|
      ensures |parts[j]| == w * 4
    {
      StrideMultiple(w, bpp);
    }
    EqualStarts(parts, w * 4, |rows|);
    WholeStart(parts);
  }

  lemma WholeStart(parts: seq<bytes>)
    ensures Start(parts, |parts|) == |Concat(parts)|
  {
    assert parts[..|parts|] == parts;
  }
}
