/** Bytes, 32-bit codecs and the parts of Python's `struct` and slicing that the
    map and PNG tools rely on.

    Integers are unbounded here, so a packed field is written with an explicit
    range test (`IsI32`, `IsU32`): `struct.pack` raises when the test fails. */
module Bytes {

  type byte = x: int | 0 <= x < 256
  type bytes = seq<byte>

  const TWO31: int := 0x8000_0000
  const TWO32: int := 0x1_0000_0000

  datatype Error = StructError | ValueError | IndexError | ZlibError | AssertionError

  datatype Result<+T> = Ok(value: T) | Err(error: Error) {
    predicate IsFailure() { Err? }
    function PropagateFailure<U>(): Result<U>
      requires Err?
    {
      Err(error)
    }
    function Extract(): T
      requires Ok?
    {
      value
    }
  }

  datatype Option<+T> = None | Some(value: T)

  /** zlib, seen from outside: a deterministic compressor and a partial decompressor. */
  datatype Zlib = Zlib(compress: bytes -> bytes, decompress: bytes -> Result<bytes>) {
    ghost predicate Inverse() {
      forall r: bytes :: decompress(compress(r)) == Ok(r)
    }
  }

  predicate IsI32(v: int) { -TWO31 <= v < TWO31 }
  predicate IsU32(v: int) { 0 <= v < TWO32 }

  /** The four little-endian bytes of v modulo 2^32 (two's complement for v < 0). */
  function Le32(v: int): (b: bytes)
    ensures |b| == 4
  {
    var (d, e, f) := (v / 256, v / 256 / 256, v / 256 / 256 / 256);
    [v % 256, d % 256, e % 256, f % 256]
  }

  /** The same four bytes, most significant first. */
  function Be32(v: int): (b: bytes)
    ensures |b| == 4
  {
    var b := Le32(v);
    [b[3], b[2], b[1], b[0]]
  }

  function Word(b0: int, b1: int, b2: int, b3: int): int {
    b0 + 0x100 * b1 + 0x1_0000 * b2 + 0x100_0000 * b3
  }

  function ReadU32Le(b: bytes): (v: int)
    requires |b| == 4
    ensures IsU32(v)
  {
    Word(b[0], b[1], b[2], b[3])
  }

  function ReadU32Be(b: bytes): (v: int)
    requires |b| == 4
    ensures IsU32(v)
  {
    Word(b[3], b[2], b[1], b[0])
  }

  lemma Assoc<T>(a: seq<T>, b: seq<T>, c: seq<T>)
    ensures a + b + c == a + (b + c)
  {
    assert a + b + c == a + (b + c);
  }

  lemma TakeSplit<T>(s: seq<T>, k: nat, m: nat)
    requires k <= m <= |s|
    ensures s[..m] == s[..k] + s[k..m]
  {
  }

  /** Reads an unsigned word as a signed one. */
  function Signed(u: int): (v: int)
    requires IsU32(u)
    ensures IsI32(v) && (v - u) % TWO32 == 0
  {
    if u < TWO31 then u else u - TWO32
  }

  function ReadI32Le(b: bytes): (v: int)
    requires |b| == 4
    ensures IsI32(v)
  {
    Signed(ReadU32Le(b))
  }

  lemma Digits(v: int)
    ensures ReadU32Le(Le32(v)) == v % TWO32
  {
    var q1 := v / 256;
    var q2 := q1 / 256;
    var q3 := q2 / 256;
    var q4 := q3 / 256;
    assert v == v % 256 + 256 * q1;
    assert q1 == q1 % 256 + 256 * q2;
    assert q2 == q2 % 256 + 256 * q3;
    assert q3 == q3 % 256 + 256 * q4;
    assert v == ReadU32Le(Le32(v)) + TWO32 * q4;
  }

  /** Decoding the little-endian bytes gives v back exactly when v fits the width. */
  lemma Le32RoundTrip(v: int)
    ensures ReadU32Le(Le32(v)) == v <==> IsU32(v)
    ensures ReadI32Le(Le32(v)) == v <==> IsI32(v)
  {
    Digits(v);
  }

  lemma Be32RoundTrip(v: int)
    ensures ReadU32Be(Be32(v)) == v <==> IsU32(v)
    ensures Signed(ReadU32Be(Be32(v))) == v <==> IsI32(v)
  {
    Le32RoundTrip(v);
  }

  /** The encoders are also onto: every four bytes are the encoding of what they decode to. */
  lemma Le32Onto(b: bytes)
    requires |b| == 4
    ensures Le32(ReadU32Le(b)) == b && Le32(ReadI32Le(b)) == b
  {
    WordDigits(b[0], b[1], b[2], b[3], 0);
    WordDigits(b[0], b[1], b[2], b[3], -1);
  }

  lemma WordDigits(b0: byte, b1: byte, b2: byte, b3: byte, k: int)
    ensures Le32(Word(b0, b1, b2, b3) + TWO32 * k) == [b0, b1, b2, b3]
  {
    var v := Word(b0, b1, b2, b3) + TWO32 * k;
    var i0: int, i1: int, i2: int, i3: int := b0, b1, b2, b3;
    var q3 := i3 + 256 * k;
    var q2 := i2 + 256 * q3;
    var q1 := i1 + 256 * q2;
    assert v == i0 + 256 * q1;
    assert v / 256 == q1 && q1 / 256 == q2 && q2 / 256 == q3;
  }

  lemma Be32Onto(b: bytes)
    requires |b| == 4
    ensures Be32(ReadU32Be(b)) == b && Be32(Signed(ReadU32Be(b))) == b
  {
    Le32Onto([b[3], b[2], b[1], b[0]]);
  }

  function Zeros(n: nat): (b: bytes)
    ensures |b| == n
  {
    seq(n, k => 0)
  }

  /** struct.pack("<%di", *xs) once every x is known to fit. */
  function PackInts(xs: seq<int>): (b: bytes)
    ensures |b| == 4 * |xs|
  {
    seq(4 * |xs|, i requires 0 <= i < 4 * |xs| => Le32(xs[i / 4])[i % 4])
  }

  lemma PackIntsAppend(xs: seq<int>, ys: seq<int>)
    ensures PackInts(xs + ys) == PackInts(xs) + PackInts(ys)
  {
    var n := 4 * |xs|;
    forall i | 0 <= i < 4 * |xs + ys|
      ensures PackInts(xs + ys)[i] == (PackInts(xs) + PackInts(ys))[i]
    {
      if i >= n {
        assert i / 4 == |xs| + (i - n) / 4 && i % 4 == (i - n) % 4;
      }
    }
  }

  lemma PackIntsAt(xs: seq<int>, k: nat)
    requires k < |xs|
    ensures PackInts(xs)[4 * k..4 * k + 4] == Le32(xs[k])
  {
    forall j | 0 <= j < 4
      ensures PackInts(xs)[4 * k + j] == Le32(xs[k])[j]
    {
      assert (4 * k + j) / 4 == k && (4 * k + j) % 4 == j;
    }
  }

  predicate AllI32(xs: seq<int>) { forall k :: 0 <= k < |xs| ==> IsI32(xs[k]) }

  /** struct.unpack_from("<%di", b) on a window that is already cut out. */
  function UnpackInts(b: bytes): (xs: seq<int>)
    requires |b| % 4 == 0
    ensures |xs| == |b| / 4 && AllI32(xs)
  {
    seq(|b| / 4, k requires 0 <= k < |b| / 4 => ReadI32Le(b[4 * k..4 * k + 4]))
  }

  /** Packing then unpacking is the identity exactly on lists of 32-bit integers. */
  lemma UnpackPack(xs: seq<int>)
    ensures UnpackInts(PackInts(xs)) == xs <==> AllI32(xs)
  {
    var ys := UnpackInts(PackInts(xs));
    forall k | 0 <= k < |xs|
      ensures ys[k] == xs[k] <==> IsI32(xs[k])
    {
      PackIntsAt(xs, k);
      Le32RoundTrip(xs[k]);
    }
  }

  lemma PackUnpack(b: bytes)
    requires |b| % 4 == 0
    ensures PackInts(UnpackInts(b)) == b
  {
    hide Le32, PackInts;
    var xs := UnpackInts(b);
    forall i | 0 <= i < |b|
      ensures PackInts(xs)[i] == b[i]
    {
      var k := i / 4;
      PackIntsAt(xs, k);
      Le32Onto(b[4 * k..4 * k + 4]);
      assert PackInts(xs)[4 * k..4 * k + 4][i - 4 * k] == b[4 * k..4 * k + 4][i - 4 * k];
    }
  }

  /** The bytes `struct.unpack_from` reads at `off`: a negative offset counts from the
      end of the buffer, and anything that does not fit the buffer raises. */
  function Window(b: bytes, off: int, size: nat): (r: Result<bytes>)
    ensures r.Ok? ==> |r.value| == size
  {
    if off < 0 then
      if off + size > 0 || off + |b| < 0 then Err(StructError) else WindowAt(b, off + |b|, size)
    else WindowAt(b, off, size)
  }

  function WindowAt(b: bytes, off: nat, size: nat): (r: Result<bytes>)
    ensures r.Ok? ==> |r.value| == size
  {
    if off + size > |b| then Err(StructError) else Ok(b[off..off + size])
  }

  /** struct.unpack_from("<{n}i", b, off); a negative count is a malformed format. */
  function IntsFrom(b: bytes, off: int, n: int): (r: Result<seq<int>>)
    ensures r.Ok? ==> n >= 0 && |r.value| == n
  {
    if n < 0 then Err(StructError) else
    var w :- Window(b, off, 4 * n);
    Ok(UnpackInts(w))
  }

  /** Python's b[i:j] for any two integers. */
  function PySlice(b: bytes, i: int, j: int): (s: bytes)
  {
    var lo := Clamp(if i < 0 then i + |b| else i, |b|);
    var hi := Clamp(if j < 0 then j + |b| else j, |b|);
    if lo < hi then b[lo..hi] else []
  }

  function Clamp(i: int, n: nat): (r: int)
    ensures 0 <= r <= n
    ensures 0 <= i <= n ==> r == i
  {
    if i < 0 then 0 else if i > n then n else i
  }

  /** A window is read exactly when it lies in the buffer as a whole; counted from the end it must not
      wrap around to the front. */
  lemma WindowExactly(b: bytes, off: int, size: nat, w: bytes)
    ensures Window(b, off, size) == Ok(w) <==>
            |w| == size && (Part(b, off, w) || (off < 0 && Part(b, |b| + off, w)))
    ensures Window(b, off, size).Err? ==> Window(b, off, size).error == StructError
  {
  }

  /** Position k of n is at or behind a bound, which counts from the end when it is negative. */
  predicate Behind(k: int, bound: int, n: nat) { if bound < 0 then k - n >= bound else k >= bound }

  /** A slice holds exactly the positions at or behind its first bound that are not behind the second. */
  lemma PySliceMeans(b: bytes, i: int, j: int) returns (lo: nat)
    ensures var s := PySlice(b, i, j);
            && Part(b, lo, s)
            && forall k :: 0 <= k < |b| ==> (lo <= k < lo + |s| <==> Behind(k, i, |b|) && !Behind(k, j, |b|))
  {
    lo := Clamp(if i < 0 then i + |b| else i, |b|);
    if PySlice(b, i, j) == [] { assert Part(b, lo, []); }
  }

  /** Slicing a concatenation inside one of its three parts. */
  lemma MiddleSlice<T>(pre: seq<T>, mid: seq<T>, post: seq<T>, i: nat, j: nat)
    requires i <= j <= |mid|
    ensures (pre + mid + post)[|pre| + i..|pre| + j] == mid[i..j]
  {
  }

  lemma PackIntsSlice(xs: seq<int>, k: nat, n: nat)
    requires k + n <= |xs|
    ensures PackInts(xs)[4 * k..4 * k + 4 * n] == PackInts(xs[k..k + n])
  {
    var a, b := PackInts(xs)[4 * k..4 * k + 4 * n], PackInts(xs[k..k + n]);
    forall i | 0 <= i < 4 * n
      ensures a[i] == b[i]
    {
      assert (4 * k + i) / 4 == k + i / 4 && (4 * k + i) % 4 == i % 4;
    }
  }

  lemma WindowOfPacked(pre: bytes, xs: seq<int>, post: bytes, k: nat, n: nat)
    requires k + n <= |xs|
    ensures Window(pre + PackInts(xs) + post, |pre| + 4 * k, 4 * n) == Ok(PackInts(xs[k..k + n]))
  {
    PackIntsSlice(xs, k, n);
    WindowOf(pre, PackInts(xs), post, 4 * k, 4 * n, PackInts(xs[k..k + n]));
  }

  /** Reading n integers that were packed at index k of xs. */
  lemma IntsFromPacked(pre: bytes, xs: seq<int>, post: bytes, k: nat, n: nat)
    requires AllI32(xs) && k + n <= |xs|
    ensures IntsFrom(pre + PackInts(xs) + post, |pre| + 4 * k, n) == Ok(xs[k..k + n])
  {
    WindowOfPacked(pre, xs, post, k, n);
    IntsFromWindow(pre + PackInts(xs) + post, |pre| + 4 * k, xs[k..k + n]);
  }

  lemma IntsFromWindow(b: bytes, off: int, ys: seq<int>)
    requires AllI32(ys) && Window(b, off, 4 * |ys|) == Ok(PackInts(ys))
    ensures IntsFrom(b, off, |ys|) == Ok(ys)
  {
    UnpackPack(ys);
  }

  lemma WindowOf(pre: bytes, mid: bytes, post: bytes, i: nat, n: nat, part: bytes)
    requires i + n <= |mid| && mid[i..i + n] == part
    ensures Window(pre + mid + post, |pre| + i, n) == Ok(part)
  {
    MiddleSlice(pre, mid, post, i, i + n);
  }

  /** `part` stands at position `at` of b. */
  predicate Part(b: bytes, at: int, part: bytes) {
    0 <= at && at + |part| <= |b| && b[at..at + |part|] == part
  }

  lemma PartInside(pre: bytes, mid: bytes, post: bytes, at: int, part: bytes)
    requires Part(mid, at, part)
    ensures Part(pre + mid + post, |pre| + at, part)
  {
    MiddleSlice(pre, mid, post, at, at + |part|);
  }

  /** A concatenation of blocks, and where each block starts in it. */
  function Concat<T>(parts: seq<seq<T>>): (b: seq<T>)
  {
    if parts == [] then [] else Concat(parts[..|parts| - 1]) + parts[|parts| - 1]
  }

  function Start<T>(parts: seq<seq<T>>, k: nat): (n: nat)
    requires k <= |parts|
  {
    |Concat(parts[..k])|
  }

  function Starts<T>(parts: seq<seq<T>>): (s: seq<int>)
    ensures |s| == |parts|
  {
    seq(|parts|, k requires 0 <= k < |parts| => Start(parts, k))
  }

  lemma StartNext<T>(parts: seq<seq<T>>, k: nat)
    requires k < |parts|
    ensures Concat(parts[..k + 1]) == Concat(parts[..k]) + parts[k]
    ensures Start(parts, k + 1) == Start(parts, k) + |parts[k]|
  {
    assert parts[..k + 1][..k] == parts[..k];
  }

  /** The blocks tile the concatenation: block k is exactly [Start(k), Start(k+1)). */
  lemma {:induction false} Tiles<T>(parts: seq<seq<T>>, k: nat)
    requires k < |parts|
    ensures Start(parts, 0) == 0 && Start(parts, |parts|) == |Concat(parts)|
    ensures Start(parts, k) + |parts[k]| == Start(parts, k + 1) <= |Concat(parts)|
    ensures Concat(parts)[Start(parts, k)..Start(parts, k + 1)] == parts[k]
  {
    assert parts[..|parts|] == parts;
    StartNext(parts, k);
    PrefixOf(parts, k + 1);
  }

  lemma BlockPart(parts: seq<bytes>, k: nat)
    requires k < |parts|
    ensures Part(Concat(parts), Start(parts, k), parts[k])
  {
    Tiles(parts, k);
  }

  lemma {:induction false} PrefixOf<T>(parts: seq<seq<T>>, k: nat)
    requires k <= |parts|
    ensures Concat(parts[..k]) <= Concat(parts)
    decreases |parts|
  {
    var n := |parts| - 1;
    if k <= n {
      PrefixOf(parts[..n], k);
      assert parts[..n][..k] == parts[..k];
    } else {
      assert parts[..k] == parts;
    }
  }
}
