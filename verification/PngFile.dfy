/** The PNG reader and writer of the art tools: chunk framing (section 3.2 of RFC 2083), header,
    scanlines. Only 8-bit RGB and RGBA without interlacing are read; RGBA is written. */
module PngFile {
  import opened Bytes
  import opened PngFilter

  const PNG_MAGIC: bytes := [0x89, 0x50, 0x4E, 0x47, 0x0D, 0x0A, 0x1A, 0x0A]
  const IHDR: bytes := [0x49, 0x48, 0x44, 0x52]
  const IDAT: bytes := [0x49, 0x44, 0x41, 0x54]
  const IEND: bytes := [0x49, 0x45, 0x4E, 0x44]

  // ---- chunks ----------------------------------------------------------------

  datatype Chunk = Chunk(ctype: bytes, body: bytes)

  /** The chunks from position pos on; the four CRC bytes behind each body are skipped. */
  function ChunksFrom(data: bytes, pos: nat): Result<seq<Chunk>>
    decreases |data| - pos
  {
    if pos >= |data| then Ok([]) else
    var word := PySlice(data, pos, pos + 4);
    if |word| != 4 then Err(StructError) else
    var length := ReadU32Be(word);
    var chunk := Chunk(PySlice(data, pos + 4, pos + 8), PySlice(data, pos + 8, pos + 8 + length));
    var rest :- ChunksFrom(data, pos + 8 + length + 4);
    Ok([chunk] + rest)
  }

  function Chunks(data: bytes): Result<seq<Chunk>> {
    if PySlice(data, 0, 8) != PNG_MAGIC then Err(AssertionError) else ChunksFrom(data, 8)
  }

  method ReadChunks(data: bytes) returns (r: Result<seq<Chunk>>)
    ensures r == Chunks(data)
  {
    hide PySlice, ReadU32Be;
    if PySlice(data, 0, 8) != PNG_MAGIC { return Err(AssertionError); }
    var pos := 8;
    var out: seq<Chunk> := [];
    PrependNone(ChunksFrom(data, 8));
    while pos < |data|
      invariant Chunks(data) == Prepend(out, ChunksFrom(data, pos))
      decreases |data| - pos
    {
      var word := PySlice(data, pos, pos + 4);
      if |word| != 4 { return Err(StructError); }
      var length := ReadU32Be(word);
      var chunk := Chunk(PySlice(data, pos + 4, pos + 8), PySlice(data, pos + 8, pos + 8 + length));
      PrependMore(out, chunk, ChunksFrom(data, pos + 8 + length + 4));
      out := out + [chunk];
      pos := pos + 8 + length + 4;
    }
    assert out + [] == out;
    r := Ok(out);
  }

  function Prepend<T>(done: seq<T>, rest: Result<seq<T>>): Result<seq<T>> {
    match rest
    case Err(e) => Err(e)
    case Ok(more) => Ok(done + more)
  }

  lemma PrependNone<T>(rest: Result<seq<T>>)
    ensures Prepend([], rest) == rest
  {
    if rest.Ok? { assert [] + rest.value == rest.value; }
  }

  lemma PrependMore<T>(done: seq<T>, x: T, rest: Result<seq<T>>)
    ensures Prepend(done, Prepend([x], rest)) == Prepend(done + [x], rest)
  {
    if rest.Ok? { assert done + ([x] + rest.value) == done + [x] + rest.value; }
  }

  /** A chunk as it stands in a file; the reader never looks at the CRC. */
  function Framed(c: Chunk, crc: bytes): bytes { Be32(|c.body|) + c.ctype + c.body + crc }

  predicate Frameable(c: Chunk, crc: bytes) { |c.ctype| == 4 && |crc| == 4 && IsU32(|c.body|) }

  function FramedAll(cs: seq<Chunk>, crcs: seq<bytes>): bytes
    requires |crcs| == |cs|
  {
    if cs == [] then [] else Framed(cs[0], crcs[0]) + FramedAll(cs[1..], crcs[1..])
  }

  lemma FrameParts(pre: bytes, c: Chunk, crc: bytes, post: bytes)
    requires Frameable(c, crc)
    ensures var (data, at) := (pre + Framed(c, crc) + post, |pre|);
            && PySlice(data, at, at + 4) == Be32(|c.body|)
            && PySlice(data, at + 4, at + 8) == c.ctype
            && PySlice(data, at + 8, at + 8 + |c.body|) == c.body
            && at + 8 + |c.body| + 4 == |pre + Framed(c, crc)|
  {
    hide Be32;
    var f := Framed(c, crc);
    MiddleSlice(pre, f, post, 0, 4);
    MiddleSlice(pre, f, post, 4, 8);
    MiddleSlice(pre, f, post, 8, 8 + |c.body|);
    assert f[0..4] == Be32(|c.body|) && f[4..8] == c.ctype && f[8..8 + |c.body|] == c.body;
  }

  /** Whatever stands before them, framed chunks are read back one by one. */
  lemma {:induction false} FramedBack(pre: bytes, cs: seq<Chunk>, crcs: seq<bytes>)
    requires |crcs| == |cs| && forall k :: 0 <= k < |cs| ==> Frameable(cs[k], crcs[k])
    ensures ChunksFrom(pre + FramedAll(cs, crcs), |pre|) == Ok(cs)
    decreases |cs|
  {
    if cs == [] {
      assert pre + FramedAll(cs, crcs) == pre;
    } else {
      hide PySlice, ReadU32Be, Be32, FramedAll, Framed, ChunksFrom;
      var rest := FramedAll(cs[1..], crcs[1..]);
      FramedSplit(cs, crcs);
      assert pre + FramedAll(cs, crcs) == pre + Framed(cs[0], crcs[0]) + rest;
      FirstFramed(pre, cs[0], crcs[0], rest);
      FramedBack(pre + Framed(cs[0], crcs[0]), cs[1..], crcs[1..]);
      assert cs == [cs[0]] + cs[1..];
    }
  }

  lemma FirstFramed(pre: bytes, c: Chunk, crc: bytes, rest: bytes)
    requires Frameable(c, crc)
    ensures var front := pre + Framed(c, crc);
            ChunksFrom(front + rest, |pre|) == Prepend([c], ChunksFrom(front + rest, |front|))
  {
    hide PySlice, ReadU32Be, Be32, ChunksFrom;
    FrameParts(pre, c, crc, rest);
    FirstChunk(pre + Framed(c, crc) + rest, |pre|, c);
  }

  lemma FramedSplit(cs: seq<Chunk>, crcs: seq<bytes>)
    requires |crcs| == |cs| && cs != []
    ensures FramedAll(cs, crcs) == Framed(cs[0], crcs[0]) + FramedAll(cs[1..], crcs[1..])
  {
  }

  lemma FirstChunk(data: bytes, at: nat, c: Chunk)
    requires at + 12 + |c.body| <= |data| && IsU32(|c.body|)
    requires PySlice(data, at, at + 4) == Be32(|c.body|) && PySlice(data, at + 4, at + 8) == c.ctype
    requires PySlice(data, at + 8, at + 8 + |c.body|) == c.body
    ensures ChunksFrom(data, at) == Prepend([c], ChunksFrom(data, at + 8 + |c.body| + 4))
  {
    hide PySlice, Be32, ReadU32Be;
    Be32RoundTrip(|c.body|);
  }

  // ---- header and image data ---------------------------------------------------

  datatype Head = Head(width: nat, height: nat, bitDepth: byte, colorType: byte, interlace: byte)

  /** What the reader has gathered from the chunks so far. */
  datatype Gathered = Gathered(head: Option<Head>, idat: bytes)

  /** struct.unpack(">IIBBBBB", body) */
  function HeadOf(body: bytes): Result<Head> {
    if |body| != 13 then Err(StructError)
    else Ok(Head(ReadU32Be(body[..4]), ReadU32Be(body[4..8]), body[8], body[9], body[12]))
  }

  function Gather(cs: seq<Chunk>): Result<Gathered> {
    if cs == [] then Ok(Gathered(None, [])) else
    var n := |cs| - 1;
    var g :- Gather(cs[..n]);
    if cs[n].ctype == IHDR then
      var head :- HeadOf(cs[n].body);
      Ok(g.(head := Some(head)))
    else if cs[n].ctype == IDAT then Ok(g.(idat := g.idat + cs[n].body))
    else Ok(g)
  }

  // ---- scanlines -----------------------------------------------------------------

  /** The rows behind the filter bytes: each one recovered over the one before it. */
  function Lines(pixels: bytes, stride: nat, bpp: nat, prev: bytes, h: nat): (r: Result<seq<bytes>>)
    requires bpp > 0 && |prev| == stride && |pixels| == h * (stride + 1)
    ensures r.Ok? ==> |r.value| == h && forall k :: 0 <= k < h ==> |r.value[k]| == stride
    decreases h
  {
    if h == 0 then Ok([]) else
    LineFits(h, stride);
    if pixels[0] > 4 then Err(AssertionError) else
    var row := Undo(pixels[0], pixels[1..stride + 1], prev, bpp, stride);
    Prepend([row], Lines(pixels[stride + 1..], stride, bpp, row, h - 1))
  }

  lemma LineFits(h: nat, stride: nat)
    requires h > 0
    ensures h * (stride + 1) == (stride + 1) + (h - 1) * (stride + 1)
  {
  }

  /** A row as RGBA: alpha 255 is filled in behind each RGB triple. */
  function Expand(row: bytes, bpp: nat): (r: bytes)
    requires bpp == 3 || bpp == 4
    requires |row| % bpp == 0
    ensures |r| == |row| / bpp * 4
  {
    if bpp == 4 then row
    else seq(|row| / 3 * 4, i requires 0 <= i < |row| / 3 * 4 => if i % 4 == 3 then 255 else row[i / 4 * 3 + i % 4])
  }

  function ExpandAll(rows: seq<bytes>, bpp: nat): (r: seq<bytes>)
    requires bpp == 3 || bpp == 4
    requires forall k :: 0 <= k < |rows| ==> |rows[k]| % bpp == 0
    ensures |r| == |rows|
  {
    seq(|rows|, k requires 0 <= k < |rows| => Expand(rows[k], bpp))
  }

  predicate Supported(head: Head) {
    head.bitDepth == 8 && (head.colorType == 2 || head.colorType == 6) && head.interlace == 0
  }

  function Channels(head: Head): (bpp: nat)
    ensures bpp == 3 || bpp == 4
  {
    if head.colorType == 2 then 3 else 4
  }

  lemma StrideMultiple(w: nat, bpp: nat)
    requires bpp == 3 || bpp == 4
    ensures w * bpp % bpp == 0 && w * bpp / bpp == w
  {
    if bpp == 3 {
      assert w * 3 % 3 == 0;
    }
  }

  /** The scanlines of a supported image, as RGBA rows. */
  function Raster(head: Head, pixels: bytes): Result<seq<bytes>> {
    var bpp := Channels(head);
    var stride := head.width * bpp;
    if |pixels| != head.height * (stride + 1) then Err(AssertionError) else
    var rows :- Lines(pixels, stride, bpp, Zeros(stride), head.height);
    StrideMultiple(head.width, bpp);
    Ok(ExpandAll(rows, bpp))
  }

  datatype Image = Image(width: int, height: int, rgba: bytes)

  /** `read_png` behind the file access. */
  function Decode(data: bytes, z: Zlib): Result<Image> {
    var cs :- Chunks(data);
    var g :- Gather(cs);
    if g.head.None? || !Supported(g.head.value) then Err(AssertionError) else
    var pixels :- z.decompress(g.idat);
    var rows :- Raster(g.head.value, pixels);
    Ok(Image(g.head.value.width, g.head.value.height, Concat(rows)))
  }

  // ---- the reader's loops --------------------------------------------------------

  method GatherChunks(cs: seq<Chunk>) returns (r: Result<Gathered>)
    ensures r == Gather(cs)
  {
    hide HeadOf;
    var head: Option<Head> := None;
    var idat: bytes := [];
    for i := 0 to |cs|
      invariant Gather(cs[..i]) == Ok(Gathered(head, idat))
    {
      var c := cs[i];
      assert cs[..i + 1][..i] == cs[..i];
      if c.ctype == IHDR {
        var h := HeadOf(c.body);
        if h.Err? {
          GatherFails(cs, i + 1, |cs|);
          assert cs[..|cs|] == cs;
          return Err(h.error);
        }
        head := Some(h.value);
      } else if c.ctype == IDAT {
        idat := idat + c.body;
      }
    }
    assert cs[..|cs|] == cs;
    r := Ok(Gathered(head, idat));
  }

  lemma {:induction false} GatherFails(cs: seq<Chunk>, k: nat, n: nat)
    requires k <= n <= |cs| && Gather(cs[..k]).Err?
    ensures Gather(cs[..n]) == Gather(cs[..k])
    decreases n
  {
    if k < n {
      GatherFails(cs, k, n - 1);
      assert cs[..n][..n - 1] == cs[..n - 1];
    }
  }

  /** Writes one row, expanded to RGBA, at offset o of the image and leaves the rest alone. */
  method PlaceRow(out: array<byte>, o: nat, row: array<byte>, channels: nat, width: nat)
    requires (channels == 3 || channels == 4) && row.Length == width * channels && o + width * 4 <= out.Length
        && row != out
    modifies out
    ensures row.Length % channels == 0
    ensures out[..] == old(out[..o]) + Expand(row[..], channels) + old(out[o + width * 4..])
  {
    ghost var was, e := out[..], ExpandRow(row[..], channels, width);
    if channels == 4 {
      forall i | 0 <= i < width * 4 { out[o + i] := row[i]; }
    } else {
      var at := o;
      for x := 0 to width
        invariant at == o + x * 4
        invariant forall i :: 0 <= i < out.Length ==> out[i] == if o <= i < at then e[i - o] else was[i]
      {
        PixelOf(row[..], width, x);
        out[at] := row[x * 3];
        out[at + 1] := row[x * 3 + 1];
        out[at + 2] := row[x * 3 + 2];
        out[at + 3] := 255;
        at := at + 4;
      }
    }
    assert out[..] == was[..o] + e + was[o + width * 4..];
  }

  function ExpandRow(row: bytes, channels: nat, width: nat): (r: bytes)
    requires (channels == 3 || channels == 4) && |row| == width * channels
    ensures |row| % channels == 0 && r == Expand(row, channels) && |r| == width * 4
  {
    StrideMultiple(width, channels);
    Expand(row, channels)
  }

  lemma PixelOf(row: bytes, width: nat, x: nat)
    requires |row| == width * 3 && x < width
    ensures |row| % 3 == 0
    ensures Expand(row, 3)[x * 4] == row[x * 3] && Expand(row, 3)[x * 4 + 1] == row[x * 3 + 1]
    ensures Expand(row, 3)[x * 4 + 2] == row[x * 3 + 2] && Expand(row, 3)[x * 4 + 3] == 255
  {
    StrideMultiple(width, 3);
    assert x * 4 / 4 == x && (x * 4 + 1) / 4 == x && (x * 4 + 2) / 4 == x && (x * 4 + 3) / 4 == x;
    assert x * 4 % 4 == 0 && (x * 4 + 1) % 4 == 1 && (x * 4 + 2) % 4 == 2 && (x * 4 + 3) % 4 == 3;
  }

  /** The image so far: rows done, in place, and the lines that are still filtered. */
  ghost predicate Rastered(out: bytes, o: int, done: seq<bytes>, prev: bytes, pixels: bytes, pos: int, head: Head,
          left: int) {
    var bpp := Channels(head); var stride := head.width * bpp;
    && 0 <= o <= |out| && 0 <= pos <= |pixels| && 0 <= left && |prev| == stride
    && |pixels| == head.height * (stride + 1) && |pixels| - pos == left * (stride + 1)
    && (forall k :: 0 <= k < |done| ==> |done[k]| == stride)
    && stride % bpp == 0
    && out[..o] == Concat(ExpandAll(done, bpp))
    && Lines(pixels, stride, bpp, Zeros(stride), head.height) ==
        Prepend(done, Lines(pixels[pos..], stride, bpp, prev, left))
  }

  lemma RasterStart(out: bytes, pixels: bytes, head: Head)
    requires |pixels| == head.height * (head.width * Channels(head) + 1)
    ensures Rastered(out, 0, [], Zeros(head.width * Channels(head)), pixels, 0, head, head.height)
  {
    hide Lines;
    StrideMultiple(head.width, Channels(head));
    assert pixels[0..] == pixels;
    var stride := head.width * Channels(head);
    PrependNone(Lines(pixels, stride, Channels(head), Zeros(stride), head.height));
  }

  /** The line at pos is the next row of the image, or has a bad filter byte. */
  ghost predicate NextLine(done: seq<bytes>, prev: bytes, pixels: bytes, pos: int, stride: nat, bpp: nat, h: nat,
          left: int)
    requires bpp > 0 && |prev| == stride && |pixels| == h * (stride + 1) && left > 0
    requires 0 <= pos && pos + stride + 1 <= |pixels|
  {
    var all := Lines(pixels, stride, bpp, Zeros(stride), h);
    && (pixels[pos] > 4 ==> all == Err(AssertionError))
    && (pixels[pos] <= 4 ==>
          var row := Undo(pixels[pos], pixels[pos + 1..pos + 1 + stride], prev, bpp, stride);
          |pixels| - (pos + 1 + stride) == (left - 1) * (stride + 1) &&
          all == Prepend(done + [row], Lines(pixels[pos + 1 + stride..], stride, bpp, row, left - 1)))
  }

  /** One more line can be read. */
  lemma RasterLine(out: bytes, o: int, done: seq<bytes>, prev: bytes, pixels: bytes, pos: int, head: Head, left: int)
    requires Rastered(out, o, done, prev, pixels, pos, head, left) && left > 0
    ensures pos + head.width * Channels(head) + 1 <= |pixels|
    ensures NextLine(done, prev, pixels, pos, head.width * Channels(head), Channels(head), head.height, left)
  {
    hide Undo, Concat, Expand, Lines;
    var bpp := Channels(head);
    var stride := head.width * bpp;
    LineFits(left, stride);
    var rest := pixels[pos..];
    LinesStep(rest, stride, bpp, prev, left);
    assert rest[0] == pixels[pos] && rest[1..stride + 1] == pixels[pos + 1..pos + 1 + stride];
    assert rest[stride + 1..] == pixels[pos + 1 + stride..];
    if pixels[pos] <= 4 {
      var row := Undo(pixels[pos], pixels[pos + 1..pos + 1 + stride], prev, bpp, stride);
      PrependMore(done, row, Lines(pixels[pos + 1 + stride..], stride, bpp, row, left - 1));
    }
  }

  lemma LinesStep(rest: bytes, stride: nat, bpp: nat, prev: bytes, left: nat)
    requires bpp > 0 && |prev| == stride && |rest| == left * (stride + 1) && left > 0
    ensures |rest| >= stride + 1 && |rest[stride + 1..]| == (left - 1) * (stride + 1)
    ensures rest[0] > 4 ==> Lines(rest, stride, bpp, prev, left) == Err(AssertionError)
    ensures rest[0] <= 4 ==> var row := Undo(rest[0], rest[1..stride + 1], prev, bpp, stride);
              Lines(rest, stride, bpp, prev, left) ==
                  Prepend([row], Lines(rest[stride + 1..], stride, bpp, row, left - 1))
  {
    hide Undo;
    LineFits(left, stride);
  }

  lemma RasterNext(before: bytes, out: bytes, o: int, done: seq<bytes>, prev: bytes, row: bytes, pixels: bytes,
          pos: int, head: Head, left: int)
    requires Rastered(before, o, done, prev, pixels, pos, head, left) && left > 0
    requires var bpp := Channels(head); var stride := head.width * bpp;
             && |row| == stride && pos + 1 + stride <= |pixels|
                 && |pixels| - (pos + 1 + stride) == (left - 1) * (stride + 1)
             && o + head.width * 4 <= |before|
                 && out == before[..o] + ExpandRow(row, bpp, head.width) + before[o + head.width * 4..]
             && Lines(pixels, stride, bpp, Zeros(stride), head.height) ==
                 Prepend(done + [row], Lines(pixels[pos + 1 + stride..], stride, bpp, row, left - 1))
    ensures Rastered(out, o + head.width * 4, done + [row], row, pixels,
                     pos + 1 + head.width * Channels(head), head, left - 1)
  {
    hide Lines, Expand;
    var bpp := Channels(head);
    var parts := ExpandAll(done, bpp);
    assert ExpandAll(done + [row], bpp) == parts + [ExpandRow(row, bpp, head.width)];
    assert (parts + [ExpandRow(row, bpp, head.width)])[..|parts|] == parts;
    assert out[..o + head.width * 4] == before[..o] + ExpandRow(row, bpp, head.width);
  }

  /** One round of the loop: undoes the filter of the line at pos and places its pixels at o. */
  method NextRow(head: Head, pixels: bytes, pos: nat, out: array<byte>, o: nat, prev: array<byte>,
          ghost done: seq<bytes>, ghost left: nat) returns (ok: bool, row: array<byte>)
    requires Rastered(out[..], o, done, prev[..], pixels, pos, head, left) && left > 0
    requires o + head.width * 4 <= out.Length && prev != out
    modifies out
    ensures fresh(row) && row.Length == head.width * Channels(head)
    ensures !ok ==> Raster(head, pixels) == Err(AssertionError)
    ensures ok ==> Rastered(out[..], o + head.width * 4, done + [row[..]], row[..], pixels,
                            pos + 1 + head.width * Channels(head), head, left - 1)
  {
    hide Lines, Undo, Expand, Concat;
    var channels := Channels(head);
    var stride := head.width * channels;
    RasterLine(out[..], o, done, prev[..], pixels, pos, head, left);
    assert prev[..] == prev[..prev.Length];
    var ftype := pixels[pos];
    var line := pixels[pos + 1..pos + 1 + stride];
    row := new byte[stride](i requires 0 <= i < stride => line[i]);
    assert row[..] == line;
    ok := UndoRow(ftype, row, prev, channels);
    hide Rastered;
    if ok {
      ghost var before := out[..];
      PlaceRow(out, o, row, channels, head.width);
      assert before[..o] + ExpandRow(row[..], channels, head.width) + before[o + head.width * 4..] == out[..];
      RasterNext(before, out[..], o, done, prev[..], row[..], pixels, pos, head, left);
    }
  }

  method ReadRaster(head: Head, pixels: bytes) returns (r: Result<Image>)
    ensures Raster(head, pixels).Err? ==> r == Err(Raster(head, pixels).error)
    ensures Raster(head, pixels).Ok? ==> r == Ok(Image(head.width, head.height, Concat(Raster(head, pixels).value)))
  {
    hide Rastered, Lines, Undo, Expand, Concat;
    var channels := Channels(head);
    var stride := head.width * channels;
    if |pixels| != head.height * (stride + 1) { return Err(AssertionError); }
    var out := new byte[head.width * head.height * 4](_ => 0);
    var prev := new byte[stride](_ => 0);
    var pos, o := 0, 0;
    ghost var done: seq<bytes> := [];
    assert prev[..] == Zeros(stride);
    RasterStart(out[..], pixels, head);
    hide Raster;
    for y := 0 to head.height
      invariant fresh(prev) && fresh(out) && prev != out && out.Length == head.width * head.height * 4
      invariant o == y * (head.width * 4) && pos >= 0
      invariant Rastered(out[..], o, done, prev[..], pixels, pos, head, head.height - y)
    {
      RowFits(head.width, head.height, y);
      var ok, row := NextRow(head, pixels, pos, out, o, prev, done, head.height - y);
      if !ok { return Err(AssertionError); }
      done := done + [row[..]];
      pos := pos + 1 + stride;
      o := o + head.width * 4;
      prev := row;
    }
    RasterEnd(out[..], o, done, prev[..], pixels, pos, head);
    r := Ok(Image(head.width, head.height, out[..]));
  }

  lemma RowFits(w: nat, h: nat, y: nat)
    requires y < h
    ensures y * (w * 4) + w * 4 <= w * h * 4
    ensures (y + 1) * (w * 4) == y * (w * 4) + w * 4
  {
    var k, rest := w * 4, h - (y + 1);
    assert (y + 1) * k == y * k + k;
    Distribute(y + 1, rest, k);
    Reorder(w, h);
  }

  lemma Distribute(a: nat, b: nat, k: nat)
    ensures (a + b) * k == a * k + b * k && b * k >= 0
  {
  }

  lemma Reorder(w: nat, h: nat)
    ensures h * (w * 4) == w * h * 4
  {
  }

  lemma RasterEnd(out: bytes, o: int, done: seq<bytes>, prev: bytes, pixels: bytes, pos: int, head: Head)
    requires Rastered(out, o, done, prev, pixels, pos, head, 0) && o == head.height * (head.width * 4)
        && |out| == head.width * head.height * 4
    ensures Raster(head, pixels).Ok? && out == Concat(Raster(head, pixels).value)
  {
    hide Expand, Concat, Undo;
    Reorder(head.width, head.height);
    assert out[..o] == out;
    assert done + [] == done;
  }

  method ReadPng(data: bytes, z: Zlib) returns (r: Result<Image>)
    ensures r == Decode(data, z)
  {
    hide Chunks, Gather, Raster;
    var cs := ReadChunks(data);
    if cs.Err? { return Err(cs.error); }
    var g := GatherChunks(cs.value);
    if g.Err? { return Err(g.error); }
    if g.value.head.None? || !Supported(g.value.head.value) { return Err(AssertionError); }
    var pixels := z.decompress(g.value.idat);
    if pixels.Err? { return Err(pixels.error); }
    r := ReadRaster(g.value.head.value, pixels.value);
  }
}
