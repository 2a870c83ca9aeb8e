/** `MapFile`: the reader behind the map gallery. It skips the size table and decodes layers. */
module MapRead {
  import opened Bytes
  import opened Datafile
  import opened DatafileParse
  import opened Grouping
  import opened DatafileV4
  import opened Names

  // item types and layer types
  const INFO: int := 1
  const IMAGE: int := 2
  const GROUP: int := 4
  const LAYER: int := 5
  const LT_QUADS: int := 3

  // tile layer flags
  const F_GAME: int := 1
  const F_TELE: int := 2
  const F_SPEEDUP: int := 4
  const F_FRONT: int := 8
  const F_SWITCH: int := 16
  const F_TUNE: int := 32

  predicate TileLayerType(t: int) { t == 2 || t == 4 || t == 5 || t == 6 || t == 7 || t == 8 }

  /** One of the flags F_GAME to F_TUNE. */
  predicate IsFlag(bit: int) { bit in {F_GAME, F_TELE, F_SPEEDUP, F_FRONT, F_SWITCH, F_TUNE} }

  /** flags & bit, for a single bit. */
  predicate Has(flags: int, bit: int)
    requires IsFlag(bit)
  {
    flags / bit % 2 == 1
  }

  /** Python's list indexing: a negative index counts from the end. */
  function PyIndex<T>(s: seq<T>, i: int): (r: Result<T>)
    ensures 0 <= i < |s| ==> r == Ok(s[i])
  {
    if 0 <= i < |s| then Ok(s[i]) else if -|s| <= i < 0 then Ok(s[i + |s|]) else Err(IndexError)
  }

  datatype TileArray = TileArray(width: int, height: int, data: bytes, stride: int, indexAt: int, flagsAt: int) {
    function Index(x: int, y: int): Result<byte> { PyIndex(data, (y * width + x) * stride + indexAt) }
    function Flags(x: int, y: int): Result<byte> { PyIndex(data, (y * width + x) * stride + flagsAt) }
  }

  datatype Layer = Layer(
    index: int, payload: seq<int>, layerVersion: int, layerType: int, layerFlags: int, mapVersion: int,
    name: bytes, width: int, height: int, flags: int, image: int, dataIndex: int, numQuads: int,
    teleIndex: int, speedupIndex: int, frontIndex: int, switchIndex: int, tuneIndex: int,
    tiles: Option<TileArray>, tele: Option<TileArray>, speedup: Option<TileArray>, switch: Option<TileArray>)

  function BlankLayer(index: int, p: seq<int>): Layer
    requires |p| >= 3
  {
    Layer(index, p, p[0], p[1], p[2], if |p| > 3 then p[3] else 0, [], 0, 0, 0, -1, -1, 0, -1, -1, -1, -1, -1,
          None, None, None, None)
  }

  /** A physics index: where a version 2 item keeps it, or where later versions do, or absent. */
  function PhysicsIndex(p: seq<int>, mapVersion: int, legacy: nat, current: nat): int {
    var at := if mapVersion == 2 then legacy else current;
    if |p| > at then p[at] else -1
  }

  /** `Layer.__init__`. */
  function LayerOf(index: int, p: seq<int>, raws: seq<bytes>): Result<Layer> {
    if |p| < 3 then Err(IndexError) else
    var l := BlankLayer(index, p);
    if p[1] == LT_QUADS then
      if |p| < 7 then Err(IndexError) else
      Ok(l.(numQuads := p[4], dataIndex := p[5], image := p[6], name := if |p| >= 10 then IntsToStr(p[7..10]) else []))
    else if !TileLayerType(p[1]) || |p| < 15 then Ok(l)
    else Decoded(Undecoded(index, p), raws)
  }

  /** A tiles layer with its header fields filled and its arrays still to be decoded. */
  function Undecoded(index: int, p: seq<int>): Layer
    requires |p| >= 15
  {
    var l, v := BlankLayer(index, p), p[3];
    l.(width := p[4], height := p[5], flags := p[6], image := p[13], dataIndex := p[14],
       name := if v >= 3 && |p| >= 18 then IntsToStr(p[15..18]) else [],
       teleIndex := PhysicsIndex(p, v, 15, 18), speedupIndex := PhysicsIndex(p, v, 16, 19),
       frontIndex := PhysicsIndex(p, v, 17, 20), switchIndex := PhysicsIndex(p, v, 18, 21),
       tuneIndex := PhysicsIndex(p, v, 19, 22))
  }

  /** `Layer.decode`. */
  function Decoded(l: Layer, raws: seq<bytes>): Result<Layer> {
    if !TileLayerType(l.layerType) || l.width < 2 then Ok(l) else
    var base :- PyIndex(raws, l.dataIndex);
    var front :- Physics(l, raws, F_FRONT, l.frontIndex, 4, 0);
    var tele :- Physics(l, raws, F_TELE, l.teleIndex, 2, 1);
    var speedup :- Physics(l, raws, F_SPEEDUP, l.speedupIndex, 6, 0);
    var switch :- Physics(l, raws, F_SWITCH, l.switchIndex, 4, 0);
    var own := TileArray(l.width, l.height, base, 4, 0, 1);
    Ok(l.(tiles := Some(if front.Some? then front.value else own), tele := tele, speedup := speedup, switch := switch))
  }

  function Physics(l: Layer, raws: seq<bytes>, bit: int, at: int, stride: int, indexAt: int): Result<Option<TileArray>>
    requires IsFlag(bit)
  {
    if !Has(l.flags, bit) || at < 0 then Ok(None) else
    var raw :- PyIndex(raws, at);
    Ok(Some(TileArray(l.width, l.height, raw, stride, indexAt, 1)))
  }

  function RawStr(raws: seq<bytes>, i: int): bytes {
    if i < 0 || i >= |raws| then [] else UpToNul(raws[i])
  }

  datatype Info = Info(author: bytes, version: bytes, credits: bytes, license: bytes)
  datatype ImageRef = ImageRef(name: bytes, w: int, h: int, external: int)
  datatype GroupRef = GroupRef(offset: (int, int), parallax: (int, int), startLayer: int, numLayers: int, name: bytes)

  datatype View = View(info: Option<Info>, images: seq<ImageRef>, groups: seq<GroupRef>, layers: seq<Layer>)

  function InfoRead(p: seq<int>, raws: seq<bytes>): Info
    requires |p| >= 5
  {
    Info(RawStr(raws, p[1]), RawStr(raws, p[2]), RawStr(raws, p[3]), RawStr(raws, p[4]))
  }

  function ImageRead(p: seq<int>, raws: seq<bytes>): ImageRef
    requires |p| >= 5
  {
    ImageRef(RawStr(raws, p[4]), p[1], p[2], p[3])
  }

  function GroupRead(p: seq<int>): GroupRef
    requires |p| >= 7
  {
    GroupRef((p[1], p[2]), (p[3], p[4]), p[5], p[6], if |p| >= 15 then IntsToStr(p[12..15]) else [])
  }

  /** One pass of the loop over the items. */
  function Look(v: View, f: FlatItem, raws: seq<bytes>): Result<View> {
    var p := f.payload;
    if f.typ == INFO then
      if |p| < 5 then Err(IndexError) else
      Ok(v.(info := Some(InfoRead(p, raws))))
    else if f.typ == IMAGE then
      if |p| < 5 then Err(IndexError) else
      Ok(v.(images := v.images + [ImageRead(p, raws)]))
    else if f.typ == GROUP then
      if |p| < 7 then Err(IndexError) else
      Ok(v.(groups := v.groups + [GroupRead(p)]))
    else if f.typ == LAYER then
      var l :- LayerOf(|v.layers|, p, raws);
      Ok(v.(layers := v.layers + [l]))
    else Ok(v)
  }

  function LookAll(flat: seq<FlatItem>, raws: seq<bytes>, n: nat): Result<View>
    requires n <= |flat|
  {
    if n == 0 then Ok(View(None, [], [], [])) else
    var v :- LookAll(flat, raws, n - 1);
    Look(v, flat[n - 1], raws)
  }

  /** The part of `_parse` before the items are looked at: items in file order, and blobs. */
  function ReadBoth(b: bytes, z: Zlib): Result<(seq<FlatItem>, seq<bytes>)> {
    var (magic, h) :- ReadHeader(b);
    if magic != MAGIC || h[0] != 4 then Err(ValueError) else
    var pos := 36 + 12 * h[3];
    var io :- IntsFrom(b, pos, h[4]);
    var ro :- IntsFrom(b, pos + 4 * h[4], h[5]);
    var raws :- Blobs(b, ItemBase(h) + h[6], ro, h[7], None, z, |ro|);
    var flat :- Items(b, ItemBase(h), io, false, |io|);
    Ok((flat, raws))
  }

  function Parse(b: bytes, z: Zlib): Result<(seq<FlatItem>, seq<bytes>, View)> {
    var (flat, raws) :- ReadBoth(b, z);
    var v :- LookAll(flat, raws, |flat|);
    Ok((flat, raws, v))
  }

  class MapFile {
    var items: seq<FlatItem>
    var raws: seq<bytes>
    var info: Option<Info>
    var images: seq<ImageRef>
    var groups: seq<GroupRef>
    var layers: seq<Layer>

    constructor ()
      ensures items == [] && raws == [] && info == None && images == [] && groups == [] && layers == []
    {
      items, raws, info, images, groups, layers := [], [], None, [], [], [];
    }

    function Seen(): View
      reads this
    {
      View(info, images, groups, layers)
    }

    /** Fills the fields from a file; a malformed file raises and leaves them half filled. */
    method ParseFile(b: bytes, z: Zlib) returns (error: Option<Error>)
      requires items == [] && Seen() == View(None, [], [], [])
      modifies this
      ensures Parse(b, z).Err? ==> error == Some(Parse(b, z).error)
      ensures Parse(b, z).Ok? ==> error == None && (items, raws, Seen()) == Parse(b, z).value
    {
      hide Window, WindowAt, UnpackInts, LayerOf, RawStr, IntsToStr;
      var both := ReadBoth(b, z);
      if both.Err? { return Some(both.error); }
      items, raws := both.value.0, both.value.1;
      for i := 0 to |items|
        invariant (items, raws) == both.value
        invariant LookAll(items, raws, i) == Ok(Seen())
      {
        var f := items[i];
        var v := Look(Seen(), f, raws);
        if v.Err? {
          LookFails(items, raws, i, |items|);
          return Some(v.error);
        }
        info, images, groups, layers := v.value.info, v.value.images, v.value.groups, v.value.layers;
      }
      error := None;
    }

    /** The first layer with the flag, or None. */
    method PhysicsLayer(flag: int) returns (r: Option<Layer>)
      requires IsFlag(flag)
      ensures r == FirstWith(layers, flag)
    {
      for i := 0 to |layers|
        invariant forall k :: 0 <= k < i ==> !Has(layers[k].flags, flag)
      {
        if Has(layers[i].flags, flag) {
          FirstWithIs(layers, flag, i);
          return Some(layers[i]);
        }
      }
      FirstWithNone(layers, flag);
      r := None;
    }
  }

  lemma {:induction false} LookFails(flat: seq<FlatItem>, raws: seq<bytes>, k: nat, n: nat)
    requires k < n <= |flat| && LookAll(flat, raws, k).Ok? && Look(LookAll(flat, raws, k).value, flat[k], raws).Err?
    ensures LookAll(flat, raws, n) == Err(Look(LookAll(flat, raws, k).value, flat[k], raws).error)
    decreases n
  {
    hide Look;
    if k < n - 1 {
      LookFails(flat, raws, k, n - 1);
    }
  }

  function FirstWith(layers: seq<Layer>, flag: int): Option<Layer>
    requires IsFlag(flag)
  {
    if layers == [] then None else if Has(layers[0].flags, flag) then Some(layers[0]) else FirstWith(layers[1..], flag)
  }

  lemma {:induction false} FirstWithIs(layers: seq<Layer>, flag: int, i: nat)
    requires IsFlag(flag) && i < |layers| && Has(layers[i].flags, flag)
    requires forall k :: 0 <= k < i ==> !Has(layers[k].flags, flag)
    ensures FirstWith(layers, flag) == Some(layers[i])
  {
    if i > 0 {
      FirstWithIs(layers[1..], flag, i - 1);
    }
  }

  lemma {:induction false} FirstWithNone(layers: seq<Layer>, flag: int)
    requires IsFlag(flag) && forall k :: 0 <= k < |layers| ==> !Has(layers[k].flags, flag)
    ensures FirstWith(layers, flag) == None
  {
    if layers != [] {
      FirstWithNone(layers[1..], flag);
    }
  }

  // ---- agreement with the lossless reader -----------------------------------

  lemma {:induction false} UncheckedBlobs(b: bytes, start: int, ro: seq<int>, rawSize: int, sizes: seq<int>,
          z: Zlib, n: nat)
    requires n <= |ro| && |sizes| == |ro| && Blobs(b, start, ro, rawSize, Some(sizes), z, n).Ok?
    ensures Blobs(b, start, ro, rawSize, None, z, n) == Blobs(b, start, ro, rawSize, Some(sizes), z, n)
  {
    hide PySlice;
    if n > 0 {
      UncheckedBlobs(b, start, ro, rawSize, sizes, z, n - 1);
    }
  }

  /** On any bytes: what the strict reader accepts, this reader accepts too, with the same blobs,
      and its item list groups into the strict reader's items. */
  lemma StrictReaderAgrees(b: bytes, z: Zlib)
    requires Decode(b, z).Ok?
    ensures var both := ReadBoth(b, z);
            both.Ok? && both.value.1 == Decode(b, z).value.raws && Group(both.value.0) == Decode(b, z).value.items
  {
    hide Window, WindowAt, UnpackInts, Blobs, Items, Group, NextIds, ReadHeader, IntsFrom;
    var h := ReadHeader(b).value.1;
    var pos := 36 + 12 * h[3];
    var ro := IntsFrom(b, pos + 4 * h[4], h[5]).value;
    var lengths := IntsFrom(b, pos + 4 * h[4] + 4 * h[5], h[5]).value;
    UncheckedBlobs(b, ItemBase(h) + h[6], ro, h[7], lengths, z, |ro|);
  }

  lemma BothFromReads(b: bytes, h: seq<int>, table: seq<int>, io: seq<int>, ro: seq<int>, raws: seq<bytes>,
          flat: seq<FlatItem>, z: Zlib)
    requires Reads(b, h, table, io, ro, raws, flat, z)
    ensures ReadBoth(b, z) == Ok((ReTagAll(flat, false), raws))
  {
    hide ReadHeader, IntsFrom, Blobs, Items, Sizes, ReTagAll;
  }

  /** On a saved file this reader sees the writer's own item list, in order, and its blobs. */
  lemma BothAfterSave(c: Contents, z: Zlib)
    requires z.Inverse() && Encode(c, z).Ok? && ShortIds(c)
    ensures ReadBoth(Encode(c, z).value, z) == Ok((Flat(c), c.raws))
  {
    hide Flat;
    SavedReads(c, z);
    BothFromReads(FileBytes(c, z), Header(c, z), TypeTable(Types(c), c.items), Starts(Records(Flat(c))),
      Starts(Compressed(c.raws, z)), c.raws, Flat(c), z);
    ShortFlat(c);
    Unchanged(Flat(c));
  }
}
