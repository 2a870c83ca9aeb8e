/** The packed decomposition table: `main` and `gen_data` of the generator, and the lookup of
    src/base/unicode/confusables.cpp that reads it. */
module ConfusablePack {
  import opened Bytes
  import opened SortedSets
  import opened LexSets
  import opened Sorting

  datatype Slice = Slice(offset: int, length: int)

  /** decomp_lengths, decomp_chars, decomp_slices and decomp_data. */
  datatype Packed = Packed(lengths: seq<int>, chars: seq<int>, slices: seq<Slice>, data: seq<int>)

  /** xs.index(x): the first position. */
  function IndexOf<T(==)>(xs: seq<T>, x: T): (k: nat)
    requires x in xs
    ensures k < |xs| && xs[k] == x && forall j :: 0 <= j < k ==> xs[j] != x
  {
    if xs[0] == x then 0 else IndexOf(xs[1..], x) + 1
  }

  /** decomposition_set: every decomposition once. */
  function Distinct(d: map<int, seq<int>>): (r: seq<seq<int>>)
    ensures LexIncreasing(r) && forall x :: x in r <==> x in d.Values
  {
    LexSortedLists(d.Values);
    LexSorted(d.Values)
  }

  /** len_set. */
  function Lengths(d: map<int, seq<int>>): (r: seq<int>)
    ensures Increasing(r) && forall n :: n in r <==> exists c :: c in d && |d[c]| == n
  {
    var lens := set c | c in d :: |d[c]|;
    SortedSetLists(lens);
    SortedSet(lens)
  }

  function Characters(d: map<int, seq<int>>): (r: seq<int>)
    ensures Increasing(r) && |r| == |d| && forall c :: c in r <==> c in d
  {
    SortedSetLists(d.Keys);
    SortedSet(d.Keys)
  }

  function Offset(d: map<int, seq<int>>, c: int): (n: nat)
    requires c in d
  {
    Start(Distinct(d), IndexOf(Distinct(d), d[c]))
  }

  function SliceOf(d: map<int, seq<int>>, c: int): Slice
    requires c in d
  {
    Slice(Offset(d, c), IndexOf(Lengths(d), |d[c]|))
  }

  function Slices(d: map<int, seq<int>>, n: nat): (r: seq<Slice>)
    requires n <= |Characters(d)|
    ensures |r| == n && forall k :: 0 <= k < n ==> r[k] == SliceOf(d, Characters(d)[k])
  {
    seq(n, k requires 0 <= k < n => SliceOf(d, Characters(d)[k]))
  }

  /** The four tables that are written out. */
  function Tables(d: map<int, seq<int>>): Packed {
    Packed(Lengths(d), Characters(d), Slices(d, |Characters(d)|), Concat(Distinct(d)))
  }

  /** The generator: a running offset per distinct decomposition, then one slice per character. More
      than eight lengths do not fit in three bits and are refused. */
  method Pack(d: map<int, seq<int>>) returns (r: Result<Packed>)
    ensures r == if |Lengths(d)| > 8 then Err(ValueError) else Ok(Tables(d))
  {
    hide LexIncreasing, Increasing, LexSorted, SortedSet;
    var decompositions, lengths, chars := Distinct(d), Lengths(d), Characters(d);
    if |lengths| > 8 { return Err(ValueError); }
    var offset, offsets, data := 0, [], [];
    for k := 0 to |decompositions|
      invariant data == Concat(decompositions[..k]) && offset == Start(decompositions, k)
      invariant |offsets| == k && forall j :: 0 <= j < k ==> offsets[j] == Start(decompositions, j)
    {
      StartNext(decompositions, k);
      offsets := offsets + [offset];
      offset := offset + |decompositions[k]|;
      data := data + decompositions[k];
    }
    assert decompositions[..|decompositions|] == decompositions;
    var slices := [];
    for k := 0 to |chars|
      invariant slices == Slices(d, k)
    {
      var c := chars[k];
      slices := slices + [Slice(offsets[IndexOf(decompositions, d[c])], IndexOf(lengths, |d[c]|))];
    }
    r := Ok(Packed(lengths, chars, slices, data));
  }

  // ---- lookup -----------------------------------------------------------------------

  /** A number that is written as a hexadecimal literal for an int32_t. */
  predicate IsLiteral(n: int) { 0 <= n < TWO31 }

  predicate AllLiterals(xs: seq<int>) { forall k :: 0 <= k < |xs| ==> IsLiteral(xs[k]) }

  /** The four arrays compile: none is empty, and the braces refuse a length that is no uint8_t, an
      offset that is no uint16_t and a character that is no int32_t. An offset that only overflows its
      13-bit field is let through. */
  predicate Compiles(p: Packed) {
    && p.lengths != [] && p.chars != [] && p.slices != [] && p.data != []
    && (forall k :: 0 <= k < |p.lengths| ==> 0 <= p.lengths[k] < 256)
    && (forall k :: 0 <= k < |p.slices| ==> 0 <= p.slices[k].offset < 65536)
    && AllLiterals(p.chars) && AllLiterals(p.data)
  }

  /** One slice per character, characters in increasing order, every slice inside the data once its
      fields have been cut down to 13 and 3 bits. */
  ghost predicate WellFormed(p: Packed) {
    && Increasing(p.chars) && |p.slices| == |p.chars| && Compiles(p)
    && forall k :: 0 <= k < |p.slices| ==> InBounds(p, p.slices[k])
  }

  predicate InBounds(p: Packed, s: Slice) {
    && s.length % 8 < |p.lengths| && 0 <= p.lengths[s.length % 8]
    && s.offset % 8192 + p.lengths[s.length % 8] <= |p.data|
  }

  /** What the bit fields hold. */
  function Fetch(p: Packed, s: Slice): seq<int>
    requires InBounds(p, s)
  {
    p.data[s.offset % 8192..s.offset % 8192 + p.lengths[s.length % 8]]
  }

  /** The first entry for ch, if it has one. */
  ghost function Found(p: Packed, ch: int): (r: Option<seq<int>>)
    requires WellFormed(p)
  {
    if ch in p.chars then
      assert InBounds(p, p.slices[IndexOf(p.chars, ch)]);
      Some(Fetch(p, p.slices[IndexOf(p.chars, ch)]))
    else None
  }

  /** Scans the characters in order and stops at the first one beyond ch. The answer is a place in
      the data and a length. */
  method Lookup(p: Packed, ch: int) returns (r: Option<(nat, nat)>)
    requires WellFormed(p)
    ensures r.None? <==> Found(p, ch).None?
    ensures r.Some? ==> r.value.0 + r.value.1 <= |p.data|
    ensures r.Some? ==> Found(p, ch) == Some(p.data[r.value.0..r.value.0 + r.value.1])
  {
    for i := 0 to |p.chars|
      invariant forall j :: 0 <= j < i ==> p.chars[j] < ch
    {
      if ch == p.chars[i] {
        var s := p.slices[i];
        assert InBounds(p, s);
        assert IndexOf(p.chars, ch) == i;
        return Some((s.offset % 8192, p.lengths[s.length % 8]));
      } else if ch < p.chars[i] {
        break;
      }
    }
    r := None;
  }

  lemma StoredAt(d: map<int, seq<int>>, c: int)
    requires c in d
    ensures Offset(d, c) + |d[c]| <= |Tables(d).data|
    ensures Tables(d).data[Offset(d, c)..Offset(d, c) + |d[c]|] == d[c]
  {
    hide LexIncreasing, Increasing, Distinct, Characters, Lengths, Slices, Start, Concat;
    Tiles(Distinct(d), IndexOf(Distinct(d), d[c]));
  }

  lemma Residue(a: nat, m: nat)
    requires m > 0
    ensures 0 <= a % m <= a && (a < m <==> a % m == a)
  {
    if a >= m {
      assert a % m < m;
    }
  }

  lemma TablesInBounds(d: map<int, seq<int>>, c: int)
    requires |Lengths(d)| <= 8 && c in d
    ensures InBounds(Tables(d), SliceOf(d, c))
  {
    hide LexIncreasing, Increasing, Concat, Start;
    StoredAt(d, c);
    Residue(IndexOf(Lengths(d), |d[c]|), 8);
    Residue(Offset(d, c), 8192);
  }

  lemma {:induction false} ConcatElement(parts: seq<seq<int>>, x: int)
    requires x in Concat(parts)
    ensures exists k :: 0 <= k < |parts| && x in parts[k]
  {
    var n := |parts| - 1;
    if x in Concat(parts[..n]) {
      ConcatElement(parts[..n], x);
      var k :| 0 <= k < n && x in parts[..n][k];
      assert x in parts[k];
    } else {
      assert x in parts[n];
    }
  }

  lemma KeyOf<K, V>(d: map<K, V>, x: V) returns (c: K)
    requires x in d.Values
    ensures c in d && d[c] == x
  {
    c :| c in d && d[c] == x;
  }

  /** An entry whose parts fit the arrays they are written to. */
  ghost predicate Storable(d: map<int, seq<int>>, c: int)
    requires c in d
  {
    IsLiteral(c) && AllLiterals(d[c]) && |d[c]| < 256 && Offset(d, c) < 65536
  }

  /** Every entry is, and some decomposition is not empty. */
  ghost predicate AllStorable(d: map<int, seq<int>>) {
    (forall c :: c in d ==> Storable(d, c)) && exists c :: c in d && d[c] != []
  }

  /** The tables compile exactly then: `main` checks none of it. */
  lemma CompilesExactly(d: map<int, seq<int>>)
    ensures Compiles(Tables(d)) <==> AllStorable(d)
  {
    if Compiles(Tables(d)) { CompilesOnlyIf(d); }
    if AllStorable(d) { CompilesIf(d); }
  }

  /** Where an entry is written. */
  lemma EntryAt(d: map<int, seq<int>>, c: int)
    requires c in d
    ensures var p := Tables(d); var (k, n) := (IndexOf(Characters(d), c), IndexOf(Lengths(d), |d[c]|));
            && k < |p.chars| && k < |p.slices| && p.chars[k] == c && p.slices[k] == SliceOf(d, c)
            && n < |p.lengths| && p.lengths[n] == |d[c]|
  {
    hide LexIncreasing, Increasing, Offset, Concat;
  }

  lemma OneStorable(d: map<int, seq<int>>, c: int)
    requires Compiles(Tables(d)) && c in d
    ensures Storable(d, c)
  {
    hide IndexOf, Offset, Tables, Characters, Lengths;
    var p := Tables(d);
    EntryAt(d, c);
    StoredAt(d, c);
    PartLiterals(p.data, Offset(d, c), d[c]);
  }

  lemma PartLiterals(data: seq<int>, at: nat, part: seq<int>)
    requires AllLiterals(data) && at + |part| <= |data| && data[at..at + |part|] == part
    ensures AllLiterals(part)
  {
    hide IsLiteral;
    assert forall k :: 0 <= k < |part| ==> part[k] == data[at + k];
  }

  /** Every datum belongs to a decomposition. */
  lemma DataElement(d: map<int, seq<int>>, x: int) returns (c: int)
    requires x in Tables(d).data
    ensures c in d && x in d[c]
  {
    hide LexIncreasing, Increasing, Offset, Concat;
    ConcatElement(Distinct(d), x);
    var k :| 0 <= k < |Distinct(d)| && x in Distinct(d)[k];
    c := KeyOf(d, Distinct(d)[k]);
  }

  lemma CompilesOnlyIf(d: map<int, seq<int>>)
    requires Compiles(Tables(d))
    ensures AllStorable(d)
  {
    hide Tables, Storable;
    forall c | c in d
      ensures Storable(d, c)
    {
      OneStorable(d, c);
    }
    var c := DataElement(d, Tables(d).data[0]);
  }

  lemma NoneEmpty(d: map<int, seq<int>>, c: int)
    requires c in d && d[c] != []
    ensures var p := Tables(d); p.lengths != [] && p.chars != [] && p.slices != [] && p.data != []
  {
    hide IndexOf, Offset;
    EntryAt(d, c);
    StoredAt(d, c);
  }

  lemma LengthsFit(d: map<int, seq<int>>)
    requires forall c :: c in d ==> Storable(d, c)
    ensures forall k :: 0 <= k < |Tables(d).lengths| ==> 0 <= Tables(d).lengths[k] < 256
  {
    hide Offset, AllLiterals, LexIncreasing, Increasing;
    var xs := Lengths(d);
    forall k | 0 <= k < |xs|
      ensures 0 <= xs[k] < 256
    {
      assert xs[k] in xs;
      var c :| c in d && |d[c]| == xs[k];
      assert Storable(d, c);
    }
  }

  lemma SlicesFit(d: map<int, seq<int>>)
    requires forall c :: c in d ==> Storable(d, c)
    ensures AllLiterals(Tables(d).chars)
    ensures forall k :: 0 <= k < |Tables(d).slices| ==> 0 <= Tables(d).slices[k].offset < 65536
  {
    hide Offset, AllLiterals, LexIncreasing, Increasing, IsLiteral;
    var xs := Characters(d);
    forall k | 0 <= k < |xs|
      ensures IsLiteral(xs[k]) && 0 <= Slices(d, |xs|)[k].offset < 65536
    {
      assert xs[k] in xs;
      assert Storable(d, xs[k]);
    }
    AllOf(xs);
  }

  lemma AllOf(xs: seq<int>)
    requires forall k :: 0 <= k < |xs| ==> IsLiteral(xs[k])
    ensures AllLiterals(xs)
  {
  }

  lemma DataFit(d: map<int, seq<int>>)
    requires forall c :: c in d ==> Storable(d, c)
    ensures AllLiterals(Tables(d).data)
  {
    hide Tables, Offset, IsLiteral;
    var xs := Tables(d).data;
    forall k | 0 <= k < |xs|
      ensures IsLiteral(xs[k])
    {
      var c := DataElement(d, xs[k]);
      assert Storable(d, c);
    }
  }

  lemma CompilesIf(d: map<int, seq<int>>)
    requires AllStorable(d)
    ensures Compiles(Tables(d))
  {
    hide Storable, Tables, AllLiterals;
    var some :| some in d && d[some] != [];
    NoneEmpty(d, some);
    LengthsFit(d);
    SlicesFit(d);
    DataFit(d);
  }

  lemma TablesWellFormed(d: map<int, seq<int>>)
    requires |Lengths(d)| <= 8 && AllStorable(d)
    ensures WellFormed(Tables(d))
  {
    hide LexIncreasing, Increasing, Offset, InBounds, Compiles, AllStorable;
    CompilesExactly(d);
    forall k | 0 <= k < |Characters(d)|
      ensures InBounds(Tables(d), Tables(d).slices[k])
    {
      TablesInBounds(d, Characters(d)[k]);
    }
  }

  lemma FetchIs(p: Packed, s: Slice, n: nat)
    requires 0 <= s.length < 8 && s.length < |p.lengths| && p.lengths[s.length] == n
    requires InBounds(p, s)
    ensures Fetch(p, s) == p.data[s.offset % 8192..s.offset % 8192 + n]
  {
    Residue(s.length, 8);
  }

  /** The lookup of a character: as many data as its decomposition has, from its offset without the
      bits beyond 13. A character without a decomposition is not found. */
  lemma LookupReads(d: map<int, seq<int>>, c: int)
    requires |Lengths(d)| <= 8 && AllStorable(d)
    ensures WellFormed(Tables(d))
    ensures c !in d ==> Found(Tables(d), c) == None
    ensures c in d ==> Offset(d, c) % 8192 + |d[c]| <= |Tables(d).data|
    ensures c in d ==>
              Found(Tables(d), c) == Some(Tables(d).data[Offset(d, c) % 8192..Offset(d, c) % 8192 + |d[c]|])
  {
    hide LexIncreasing, Increasing, Concat, Start, Offset, Fetch, InBounds, AllStorable, WellFormed;
    TablesWellFormed(d);
    if c in d {
      TablesInBounds(d, c);
      StoredAt(d, c);
      EntryAt(d, c);
      Residue(Offset(d, c), 8192);
      FetchIs(Tables(d), SliceOf(d, c), |d[c]|);
    }
  }

  /** Where the offset fits in 13 bits, that is the decomposition. */
  lemma LookupExact(d: map<int, seq<int>>, c: int)
    requires |Lengths(d)| <= 8 && AllStorable(d)
    requires c in d ==> Offset(d, c) < 8192
    ensures WellFormed(Tables(d))
    ensures Found(Tables(d), c) == if c in d then Some(d[c]) else None
  {
    hide LexIncreasing, Increasing, Concat, Start, Offset, Found, WellFormed, AllStorable, Tables;
    LookupReads(d, c);
    if c in d {
      StoredAt(d, c);
      Residue(Offset(d, c), 8192);
    }
  }

  /** The tables are written, compile, and every offset fits in 13 bits. */
  ghost predicate Fits(d: map<int, seq<int>>) {
    |Lengths(d)| <= 8 && AllStorable(d) && forall c :: c in d ==> Offset(d, c) < 8192
  }

  // ---- past 13 bits -------------------------------------------------------------------

  function Singletons(n: nat): map<int, seq<int>> { map c | 0 <= c < n :: [c] }

  lemma {:induction false} SingletonsAscend(s: seq<seq<int>>, k: nat)
    requires LexIncreasing(s) && k < |s|
    requires forall x :: x in s ==> |x| == 1 && x[0] >= 0
    ensures s[k][0] >= k
  {
    assert s[k] in s;
    if k > 0 {
      SingletonsAscend(s, k - 1);
      assert s[k - 1] in s;
      assert LexLe(s[k - 1], s[k]) && s[k - 1] != s[k];
    }
  }

  lemma {:induction false} SingletonAt(n: nat, k: nat)
    requires k < n
    ensures k < |Distinct(Singletons(n))| && Distinct(Singletons(n))[k] == [k]
  {
    var s := Distinct(Singletons(n));
    SingletonValues(n);
    assert [k] in s;
    var j :| 0 <= j < |s| && s[j] == [k];
    SingletonsAscend(s, j);
    assert s[j][0] == k;
    if j < k {
      SingletonAt(n, j);
    }
  }

  lemma SingletonValues(n: nat)
    ensures forall x :: x in Singletons(n).Values <==> |x| == 1 && 0 <= x[0] < n
  {
    forall x: seq<int> | |x| == 1 && 0 <= x[0] < n
      ensures x in Singletons(n).Values
    {
      assert x == [x[0]] && Singletons(n)[x[0]] == x;
    }
  }

  lemma {:induction false} SingletonStart(n: nat, k: nat)
    requires k < n
    ensures k < |Distinct(Singletons(n))| && Start(Distinct(Singletons(n)), k) == k
  {
    hide LexIncreasing, Distinct;
    SingletonAt(n, k);
    if k > 0 {
      SingletonStart(n, k - 1);
      SingletonAt(n, k - 1);
      StartNext(Distinct(Singletons(n)), k - 1);
    }
  }

  lemma SingletonIndex(n: nat, c: nat)
    requires c < n
    ensures [c] in Distinct(Singletons(n)) && IndexOf(Distinct(Singletons(n)), [c]) == c
  {
    hide LexIncreasing, Distinct;
    SingletonAt(n, c);
    var k := IndexOf(Distinct(Singletons(n)), [c]);
    assert Distinct(Singletons(n))[k][0] == c;
    if k < c {
      SingletonAt(n, k);
    }
  }

  lemma SingletonOffset(n: nat, c: nat)
    requires c < n
    ensures Offset(Singletons(n), c) == c && c + 1 <= |Concat(Distinct(Singletons(n)))|
    ensures Concat(Distinct(Singletons(n)))[c..c + 1] == [c]
  {
    hide LexIncreasing, Distinct, Start, Concat;
    SingletonIndex(n, c);
    SingletonAt(n, c);
    SingletonStart(n, c);
    Tiles(Distinct(Singletons(n)), c);
  }

  lemma OnlyOne(r: seq<int>)
    requires Increasing(r) && 1 in r && forall k :: k in r ==> k == 1
    ensures r == [1]
  {
    assert r[0] in r && r[|r| - 1] in r;
  }

  lemma SingletonLengths(n: nat)
    requires n > 0
    ensures Lengths(Singletons(n)) == [1]
  {
    hide Increasing;
    var r := Lengths(Singletons(n));
    assert |Singletons(n)[0]| == 1;
    OnlyOne(r);
  }

  lemma SingletonsStorable(n: nat)
    requires 0 < n <= 65536
    ensures AllStorable(Singletons(n))
  {
    hide Offset;
    var d := Singletons(n);
    forall c | c in d
      ensures Storable(d, c)
    {
      SingletonOffset(n, c);
    }
    assert d[0] == [0];
  }

  /** Offsets beyond 13 bits wrap around: in a table of one-character decompositions that compiles,
      the lookup is right for the first 8192 characters and wrong for all others. */
  lemma OffsetsWrap(n: nat, c: nat)
    requires c < n <= 65536
    ensures WellFormed(Tables(Singletons(n)))
    ensures Found(Tables(Singletons(n)), c) == Some([c % 8192])
    ensures Found(Tables(Singletons(n)), c) == Some(Singletons(n)[c]) <==> c < 8192
  {
    hide LexIncreasing, Increasing, Offset, Concat, Distinct, Lengths, WellFormed, Found, AllStorable, Characters,
      Slices;
    var d := Singletons(n);
    SingletonLengths(n);
    SingletonsStorable(n);
    LookupReads(d, c);
    SingletonOffset(n, c);
    Residue(c, 8192);
    SingletonOffset(n, c % 8192);
    assert [c % 8192] == [c] <==> c % 8192 == c by { assert [c % 8192][0] == c % 8192 && [c][0] == c; }
  }
}
