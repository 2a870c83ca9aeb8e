/** From the generated table to the comparison of two texts: `generate_decompositions` and the
    skeleton iterator of src/base/unicode/confusables.cpp. Texts are decoded code points. */
module ConfusableCompare {
  import opened Bytes
  import opened Confusables
  import opened ConfusablePack
  import SortedSets

  // ---- the generated table ---------------------------------------------------------

  /** d gives every interesting character its filtered closure. */
  ghost predicate Generated(d: Table, nfd: Table, con: Table, ignore: set<int>)
    requires AllStop(nfd, con)
  {
    && d.Keys == ignore + nfd.Keys + con.Keys
    && forall c :: c in d ==> d[c] == Entry(c, nfd, con, ignore)
  }

  method Generate(nfd: Table, con: Table, ignore: set<int>) returns (d: Table)
    requires AllStop(nfd, con)
    ensures Generated(d, nfd, con, ignore)
  {
    hide Closure, Without, StopsOn, AllPlain, Loops;
    var interesting := ignore + nfd.Keys + con.Keys;
    d := map[];
    var rest := interesting;
    while rest != {}
      invariant rest <= interesting && d.Keys == interesting - rest
      invariant forall c :: c in d ==> d[c] == Entry(c, nfd, con, ignore)
      decreases rest
    {
      ghost var some := SortedSets.Element(rest);
      var c :| c in rest;
      EveryCharacterStops(c, nfd, con);
      var r := Gen(c, nfd, con, ignore);
      d := d[c := r];
      rest := rest - {c};
    }
  }

  /** A character without an entry is its own filtered closure, so leaving it out loses nothing. */
  lemma Uninteresting(c: int, nfd: Table, con: Table, ignore: set<int>)
    requires AllStop(nfd, con)
    requires c !in ignore + nfd.Keys + con.Keys
    ensures Entry(c, nfd, con, ignore) == [c]
  {
    hide Apply, Closure;
    ApplyOne(c, nfd);
    ApplyOne(c, con);
    assert Round([c], nfd, con) == [c];
    assert Rounds([c], nfd, con, 0) == [c];
    ClosureIs([c], nfd, con, 0);
    assert [c][..0] == [] && [] + [c] == [c];
    assert Without([], ignore) == [] && Without([c], ignore) == [c];
  }

  // ---- skeletons through the packed table --------------------------------------------

  ghost function Expansion(p: Packed, ch: int): seq<int>
    requires WellFormed(p)
  {
    match Found(p, ch)
    case Some(s) => s
    case None => [ch]
  }

  /** Every character replaced by its expansion. */
  ghost function Expand(p: Packed, text: seq<int>): (r: seq<int>)
    requires WellFormed(p)
    ensures text == [] ==> r == []
  {
    if text == [] then [] else Expansion(p, text[0]) + Expand(p, text[1..])
  }

  lemma {:induction false} ExpandLast(p: Packed, text: seq<int>, ch: int)
    requires WellFormed(p)
    ensures Expand(p, text + [ch]) == Expand(p, text) + Expansion(p, ch)
  {
    hide WellFormed, Expansion;
    if text == [] {
      assert [] + [ch] == [ch] && [ch][1..] == [];
    } else {
      ExpandLast(p, text[1..], ch);
      assert (text + [ch])[1..] == text[1..] + [ch];
    }
  }

  lemma ExpansionOfTable(c: int, d: Table, nfd: Table, con: Table, ignore: set<int>)
    requires AllStop(nfd, con)
    requires Generated(d, nfd, con, ignore) && Fits(d)
    ensures WellFormed(Tables(d))
    ensures Expansion(Tables(d), c) == Entry(c, nfd, con, ignore)
  {
    hide Entry, Tables, WellFormed, Found, Offset;
    LookupExact(d, c);
    if c !in d {
      Uninteresting(c, nfd, con, ignore);
    }
  }

  lemma {:induction false} ExpandIsSkeleton(text: seq<int>, d: Table, nfd: Table, con: Table, ignore: set<int>)
    requires AllStop(nfd, con)
    requires Generated(d, nfd, con, ignore) && Fits(d)
    ensures WellFormed(Tables(d))
    ensures Expand(Tables(d), text) == Skeleton(text, nfd, con, ignore)
  {
    hide Closure, Without, Tables, WellFormed, Expansion, Generated, Fits;
    ExpansionOfTable(0, d, nfd, con, ignore);
    if text != [] {
      var n := |text| - 1;
      ExpandIsSkeleton(text[..n], d, nfd, con, ignore);
      ExpandLast(Tables(d), text[..n], text[n]);
      ExpansionOfTable(text[n], d, nfd, con, ignore);
      assert text == text[..n] + [text[n]];
    }
  }

  /** Looking a text up character by character in the packed table computes the substitution closure
      of the whole text with the ignored characters dropped. */
  lemma ExpandIsClosure(text: seq<int>, d: Table, nfd: Table, con: Table, ignore: set<int>)
    requires AllStop(nfd, con)
    requires Generated(d, nfd, con, ignore) && Fits(d)
    ensures WellFormed(Tables(d)) && Stops(text, nfd, con)
    ensures Expand(Tables(d), text) == Without(Closure(text, nfd, con), ignore)
  {
    hide Closure, Without, Tables, WellFormed, Expand, Skeleton, Generated, Fits;
    ExpandIsSkeleton(text, d, nfd, con, ignore);
    SkeletonIsClosure(text, nfd, con, ignore);
  }

  /** With NUL among the ignored characters no decomposition can end a text early. */
  lemma NoZeros(d: Table, nfd: Table, con: Table, ignore: set<int>)
    requires AllStop(nfd, con)
    requires Generated(d, nfd, con, ignore) && 0 in ignore
    ensures 0 !in Tables(d).data
  {
    hide Closure;
    if 0 in Concat(Distinct(d)) {
      ConcatElement(Distinct(d), 0);
      var k :| 0 <= k < |Distinct(d)| && 0 in Distinct(d)[k];
      var c := KeyOf(d, Distinct(d)[k]);
    }
  }

  // ---- the iterator ------------------------------------------------------------------

  /** Of `before`, the first character is handed over and `after` is left; 0 means there was none. */
  ghost predicate Delivers(before: seq<int>, ch: int, after: seq<int>) {
    if before == [] then ch == 0 && after == [] else ch != 0 && before == [ch] + after
  }

  lemma DeliversStored(data: seq<int>, at: nat, n: nat, tail: seq<int>)
    requires at + n + 1 <= |data| && 0 !in data
    ensures Delivers(data[at..at + n + 1] + tail, data[at], data[at + 1..at + 1 + n] + tail)
  {
    assert data[at] in data;
  }

  lemma DeliversSelf(ch: int, tail: seq<int>)
    requires ch != 0
    ensures Delivers([ch] + tail, ch, [] + tail)
  {
    assert [] + tail == tail;
  }

  /** struct SKELETON: what is left of the current expansion, and the text behind it. */
  class SkeletonStream {
    const tables: Packed
    /** Position in the data; None while a character stands for itself. */
    var skeleton: Option<nat>
    var skeletonLen: nat
    var str: seq<int>

    ghost predicate Valid()
      reads this
    {
      && WellFormed(tables) && 0 !in tables.data && 0 !in str
      && (skeleton.None? ==> skeletonLen == 0)
      && (skeleton.Some? ==> skeleton.value + skeletonLen <= |tables.data|)
    }

    ghost function Current(): seq<int>
      requires skeleton.Some? ==> skeleton.value + skeletonLen <= |tables.data|
      reads this
    {
      if skeleton.Some? then tables.data[skeleton.value..skeleton.value + skeletonLen] else []
    }

    /** The characters still to be delivered. */
    ghost function Rest(): seq<int>
      requires Valid()
      reads this
    {
      Current() + Expand(tables, str)
    }

    constructor (p: Packed, text: seq<int>)
      requires WellFormed(p) && 0 !in p.data && 0 !in text
      ensures Valid() && tables == p && Rest() == Expand(p, text)
    {
      tables, skeleton, skeletonLen, str := p, None, 0, text;
    }

    /** Makes the expansion of ch the current one, or lets ch stand for itself. */
    method Load(ch: int)
      requires WellFormed(tables)
      modifies this`skeleton, this`skeletonLen
      ensures skeleton.None? ==> skeletonLen == 1
      ensures skeleton.Some? ==> skeleton.value + skeletonLen <= |tables.data|
      ensures Expansion(tables, ch) == if skeleton.Some? then Current() else [ch]
    {
      hide WellFormed, Found;
      var found := Lookup(tables, ch);
      match found {
        case Some(at) => skeleton, skeletonLen := Some(at.0), at.1;
        case None => skeleton, skeletonLen := None, 1;
      }
    }

    /** The decoding loop: skips characters with an empty expansion, 0 at the end of the text. */
    method Fill() returns (ch: int)
      requires Valid()
      modifies this
      ensures WellFormed(tables) && 0 !in tables.data && 0 !in str
      ensures skeleton.None? && skeletonLen != 0 ==> skeletonLen == 1 && ch != 0
      ensures skeleton.Some? ==> skeleton.value + skeletonLen <= |tables.data|
      ensures skeletonLen == 0 ==> ch == 0 && old(Rest()) == [] && Expand(tables, str) == []
      ensures old(Rest()) == (if skeleton.None? && skeletonLen != 0 then [ch] else Current()) + Expand(tables, str)
    {
      hide WellFormed, Expansion;
      ch := 0;
      ghost var rest := Rest();
      while skeletonLen == 0
        invariant WellFormed(tables) && 0 !in tables.data && 0 !in str
        invariant skeleton.None? && skeletonLen != 0 ==> skeletonLen == 1 && ch != 0
        invariant skeleton.Some? ==> skeleton.value + skeletonLen <= |tables.data|
        invariant rest == (if skeleton.None? && skeletonLen != 0 then [ch] else Current()) + Expand(tables, str)
        decreases |str|, 1 - skeletonLen
      {
        ch := if str == [] then 0 else str[0];
        if ch == 0 { return; }
        assert rest == Expand(tables, str);
        str := str[1..];
        Load(ch);
      }
    }

    /** Takes the first character of the current expansion. */
    method Pop() returns (ch: int)
      requires Valid() && skeleton.Some? && skeletonLen != 0
      modifies this`skeleton, this`skeletonLen
      ensures Valid() && Delivers(old(Rest()), ch, Rest())
    {
      hide WellFormed, Expand;
      skeletonLen := skeletonLen - 1;
      DeliversStored(tables.data, skeleton.value, skeletonLen, Expand(tables, str));
      ch := tables.data[skeleton.value];
      skeleton := Some(skeleton.value + 1);
    }

    /** Delivers the next skeleton character; 0 at the end. */
    method Next() returns (ch: int)
      requires Valid()
      modifies this
      ensures Valid()
      ensures Delivers(old(Rest()), ch, Rest())
    {
      hide WellFormed, Expand;
      ch := Fill();
      if skeletonLen == 0 { return; }
      hide Delivers;
      if skeleton.Some? {
        ch := Pop();
      } else {
        DeliversSelf(ch, Expand(tables, str));
        skeletonLen := skeletonLen - 1;
      }
    }
  }

  lemma TakeNext(all: seq<int>, i: nat, ch: int, rest: seq<int>)
    requires i < |all| && all[i..] == [ch] + rest
    ensures all[i] == ch && all[i + 1..] == rest
  {
    assert all[i] == all[i..][0];
    assert all[i + 1..] == all[i..][1..];
  }

  lemma WriteNext(all: seq<int>, was: seq<int>, i: nat)
    requires i < |all| && i < |was|
    ensures (all[..i] + was[i..])[i := all[i]] == all[..i + 1] + was[i + 1..]
  {
    assert (all[..i] + was[i..])[i := all[i]] == all[..i + 1] + was[i + 1..];
  }

  /** Writes at most bufLen skeleton characters and returns how many. */
  method ToSkeleton(p: Packed, text: seq<int>, buf: array<int>, bufLen: nat) returns (i: nat)
    requires WellFormed(p) && 0 !in p.data && 0 !in text && bufLen <= buf.Length
    modifies buf
    ensures i == if |Expand(p, text)| < bufLen then |Expand(p, text)| else bufLen
    ensures buf[..] == Expand(p, text)[..i] + old(buf[..])[i..]
  {
    hide WellFormed, Expand, SkeletonStream.Rest, SkeletonStream.Valid;
    var skel := new SkeletonStream(p, text);
    ghost var all, was := Expand(p, text), buf[..];
    i := 0;
    while i < bufLen
      invariant i <= bufLen && i <= |all| && fresh(skel) && (skel as object) != buf
      invariant skel.Valid() && skel.Rest() == all[i..]
      invariant buf[..] == all[..i] + was[i..]
    {
      var ch := skel.Next();
      if ch == 0 { break; }
      ghost var rest := skel.Rest();
      TakeNext(all, i, ch, rest);
      WriteNext(all, was, i);
      buf[i] := ch;
      assert skel.Valid() && skel.Rest() == rest;
      i := i + 1;
    }
  }

  /** Returns 0 exactly for two texts with the same skeleton. */
  method CompareConfusable(p: Packed, text1: seq<int>, text2: seq<int>) returns (r: int)
    requires WellFormed(p) && 0 !in p.data && 0 !in text1 && 0 !in text2
    ensures r == if Expand(p, text1) == Expand(p, text2) then 0 else 1
  {
    hide WellFormed, Expand, SkeletonStream.Rest, SkeletonStream.Valid;
    var skel1 := new SkeletonStream(p, text1);
    var skel2 := new SkeletonStream(p, text2);
    ghost var done: seq<int> := [];
    while true
      invariant fresh(skel1) && fresh(skel2) && skel1 != skel2 && skel1.Valid() && skel2.Valid()
      invariant Expand(p, text1) == done + skel1.Rest() && Expand(p, text2) == done + skel2.Rest()
      decreases |skel1.Rest()|
    {
      ghost var rest1, rest2 := skel1.Rest(), skel2.Rest();
      var ch1 := skel1.Next();
      var ch2 := skel2.Next();
      SameTail(done, rest1, rest2);
      if ch1 == 0 || ch2 == 0 { return if ch1 != ch2 then 1 else 0; }
      if ch1 != ch2 { assert rest1[0] != rest2[0]; return 1; }
      Shift(done, ch1, skel1.Rest());
      Shift(done, ch1, skel2.Rest());
      done := done + [ch1];
    }
  }

  lemma Shift(pre: seq<int>, ch: int, rest: seq<int>)
    ensures pre + ([ch] + rest) == (pre + [ch]) + rest
  {
    assert pre + ([ch] + rest) == (pre + [ch]) + rest;
  }

  lemma SameTail(pre: seq<int>, a: seq<int>, b: seq<int>)
    ensures pre + a == pre + b <==> a == b
  {
    assert (pre + a)[|pre|..] == a && (pre + b)[|pre|..] == b;
  }
}
