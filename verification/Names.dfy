/** Names stored as big-endian integers: `pack_name` of the writer and `_ints_to_str` of the reader.
    A name is the byte string of its UTF-8 encoding. */
module Names {
  import opened Bytes

  function Flip(v: int): byte { (v + 128) % 256 }

  function Unflip(v: int): byte { (v - 128) % 256 }

  function Shift(b: bytes): (r: bytes)
    ensures |r| == |b|
  {
    seq(|b|, k requires 0 <= k < |b| => Flip(b[k]))
  }

  function Unshift(b: bytes): (r: bytes)
    ensures |r| == |b|
  {
    seq(|b|, k requires 0 <= k < |b| => Unflip(b[k]))
  }

  function Cut(name: bytes, n: nat): (r: bytes)
    requires n > 0
    ensures |r| <= 4 * n - 1
  {
    if |name| < 4 * n then name else name[..4 * n - 1]
  }

  /** name[:4n-1], padded with NULs to 4n bytes, shifted by 128, last byte overwritten with NUL. */
  function NameBytes(name: bytes, n: nat): (b: bytes)
    requires n > 0
    ensures |b| == 4 * n
  {
    var cut := Cut(name, n);
    Shift(cut + Zeros(4 * n - |cut|))[..4 * n - 1] + [0]
  }

  /** struct.unpack(">i", b[i:i+4])[0] for each group of four bytes. */
  function Groups(b: bytes): (r: seq<int>)
    requires |b| % 4 == 0
    ensures |r| == |b| / 4 && AllI32(r)
  {
    seq(|b| / 4, k requires 0 <= k < |b| / 4 => Signed(ReadU32Be(b[4 * k..4 * k + 4])))
  }

  function PackName(name: bytes, n: nat): (r: seq<int>)
    requires n > 0
    ensures |r| == n && AllI32(r)
  {
    Groups(NameBytes(name, n))
  }

  /** struct.pack(">i", v) for each v, concatenated. */
  function PackBe(xs: seq<int>): (b: bytes)
    ensures |b| == 4 * |xs|
  {
    seq(4 * |xs|, i requires 0 <= i < 4 * |xs| => Be32(xs[i / 4])[i % 4])
  }

  /** b.split(b"\0")[0] */
  function UpToNul(b: bytes): (r: bytes)
    ensures r <= b && 0 !in r
    ensures |r| < |b| ==> b[|r|] == 0
  {
    if b == [] || b[0] == 0 then [] else [b[0]] + UpToNul(b[1..])
  }

  function IntsToStr(xs: seq<int>): bytes { UpToNul(Unshift(PackBe(xs))) }

  lemma PackBeGroups(b: bytes)
    requires |b| % 4 == 0
    ensures PackBe(Groups(b)) == b
  {
    forall i | 0 <= i < |b|
      ensures PackBe(Groups(b))[i] == b[i]
    {
      var k, j := i / 4, i % 4;
      Be32Onto(b[4 * k..4 * k + 4]);
      assert b[4 * k..4 * k + 4][j] == b[4 * k + j];
    }
  }

  lemma {:induction false} UpToNulPrefix(b: bytes, k: nat)
    requires k <= |b| && 0 !in b[..k] && (k < |b| ==> b[k] == 0)
    ensures UpToNul(b) == b[..k]
  {
    if k > 0 {
      assert b[..k][0] == b[0];
      assert b[1..][..k - 1] == b[..k][1..];
      UpToNulPrefix(b[1..], k - 1);
      assert b[..k] == [b[0]] + b[1..][..k - 1];
    }
  }

  /** What a name reads back as. A NUL in its first 4n-1 bytes, or the padding behind a name
      of at most 4n-2 bytes, ends it; otherwise the forced last byte comes back as 0x80. */
  function ReadBackName(name: bytes, n: nat): (r: bytes)
    requires n > 0
    ensures 0 !in r
  {
    var cut := Cut(name, n);
    if 0 in cut || |name| <= 4 * n - 2 then UpToNul(cut) else cut + [128]
  }

  lemma Unshifted(name: bytes, n: nat)
    requires n > 0
    ensures var cut := Cut(name, n);
            Unshift(NameBytes(name, n)) == (cut + Zeros(4 * n - 1 - |cut|)) + [128]
  {
  }

  lemma {:induction false} UpToNulCut(b: bytes, tail: bytes)
    requires 0 in b || (tail != [] && tail[0] == 0)
    ensures UpToNul(b + tail) == UpToNul(b)
  {
    if b == [] {
      assert b + tail == tail;
    } else if b[0] != 0 {
      assert b == [b[0]] + b[1..];
      assert (b + tail)[1..] == b[1..] + tail;
      UpToNulCut(b[1..], tail);
    }
  }

  /** Packing a name and reading it back, for every byte string and every width. */
  lemma NameReadBack(name: bytes, n: nat)
    requires n > 0
    ensures IntsToStr(PackName(name, n)) == ReadBackName(name, n)
  {
    PackBeGroups(NameBytes(name, n));
    Unshifted(name, n);
    PaddedName(Cut(name, n), 4 * n - 1 - |Cut(name, n)|);
  }

  lemma PaddedName(cut: bytes, room: nat)
    ensures UpToNul((cut + Zeros(room)) + [128]) == if 0 in cut || room > 0 then UpToNul(cut) else cut + [128]
  {
    var pad := Zeros(room);
    assert cut + pad + [128] == cut + (pad + [128]);
    if 0 in cut || room > 0 {
      UpToNulCut(cut, pad + [128]);
    } else {
      assert cut + pad == cut;
      UpToNulPrefix(cut + [128], |cut| + 1);
      assert (cut + [128])[..|cut| + 1] == cut + [128];
    }
  }

  /** A name survives exactly when it has no NUL and leaves room for a terminator; the one other
      case is a name of exactly 4n bytes whose last byte happens to be 0x80. */
  lemma NameSurvives(name: bytes, n: nat)
    requires n > 0
    ensures IntsToStr(PackName(name, n)) == name <==>
            0 !in name && (|name| <= 4 * n - 2 || (|name| == 4 * n && name[4 * n - 1] == 128))
  {
    NameReadBack(name, n);
    if 0 !in name {
      if |name| <= 4 * n - 2 {
        UpToNulPrefix(name, |name|);
        assert name[..|name|] == name;
      } else if |name| == 4 * n {
        assert name == name[..4 * n - 1] + [name[4 * n - 1]];
      }
    }
  }

  /** Byte j of a packed name: the name's own byte, or 0 behind it, each 128 further modulo 256; the last
      byte is 0. */
  function PackedByte(name: bytes, n: nat, j: nat): int {
    if j >= 4 * n - 1 then 0 else ((if j < |name| then name[j] else 0) as int + 128) % 256
  }

  /** The integers of a packed name, most significant byte first, as signed words. */
  lemma PackedName(name: bytes, n: nat, k: nat)
    requires k < n
    ensures var v := PackName(name, n)[k];
            && -0x8000_0000 <= v < 0x8000_0000
            && 0x100_0000 * PackedByte(name, n, 4 * k) + 0x1_0000 * PackedByte(name, n, 4 * k + 1)
               + 0x100 * PackedByte(name, n, 4 * k + 2) + PackedByte(name, n, 4 * k + 3) == v % 0x1_0000_0000
  {
    hide NameBytes, PackedByte, ReadU32Be;
    var b := NameBytes(name, n);
    NameByte(name, n, 4 * k);
    NameByte(name, n, 4 * k + 1);
    NameByte(name, n, 4 * k + 2);
    NameByte(name, n, 4 * k + 3);
    var word := b[4 * k..4 * k + 4];
    assert word[0] == b[4 * k] && word[1] == b[4 * k + 1] && word[2] == b[4 * k + 2] && word[3] == b[4 * k + 3];
    assert PackName(name, n)[k] == Signed(ReadU32Be(word));
    hide PackName;
    BigDigits(word);
  }

  lemma BigDigits(word: bytes)
    requires |word| == 4
    ensures var v := Signed(ReadU32Be(word));
            var (d0: int, d1: int, d2: int, d3: int) := (word[0], word[1], word[2], word[3]);
            -0x8000_0000 <= v < 0x8000_0000 && 0x100_0000 * d0 + 0x1_0000 * d1 + 0x100 * d2 + d3 == v % 0x1_0000_0000
  {
  }

  lemma NameByte(name: bytes, n: nat, j: nat)
    requires j < 4 * n
    ensures NameBytes(name, n)[j] == PackedByte(name, n, j)
  {
  }
}
