/** Python's `sorted` on the two shapes the tools use it for: a set of integers and
    a list of tuples compared lexicographically. */
module Sorting {

  // ---- lexicographic order on integer lists -------------------------------

  predicate LexLe(a: seq<int>, b: seq<int>) {
    if a == [] then true
    else if b == [] then false
    else a[0] < b[0] || (a[0] == b[0] && LexLe(a[1..], b[1..]))
  }

  lemma {:induction false} LexLeReflexive(a: seq<int>)
    ensures LexLe(a, a)
  {
    if a != [] {
      LexLeReflexive(a[1..]);
    }
  }

  lemma {:induction false} LexLeTotal(a: seq<int>, b: seq<int>)
    ensures LexLe(a, b) || LexLe(b, a)
    ensures LexLe(a, b) && LexLe(b, a) ==> a == b
  {
    if a != [] && b != [] {
      LexLeTotal(a[1..], b[1..]);
      assert a == [a[0]] + a[1..] && b == [b[0]] + b[1..];
    }
  }

  lemma {:induction false} LexLeTransitive(a: seq<int>, b: seq<int>, c: seq<int>)
    requires LexLe(a, b) && LexLe(b, c)
    ensures LexLe(a, c)
    decreases |a|
  {
    if a != [] && b != [] && c != [] && a[0] == b[0] == c[0] {
      LexLeTransitive(a[1..], b[1..], c[1..]);
    }
  }

  /** a ends at k, or is the smaller one there, and up to k both are the same. */
  predicate LessAt(a: seq<int>, b: seq<int>, k: nat) {
    k <= |a| && k <= |b| && a[..k] == b[..k] && (k == |a| || (k < |b| && a[k] < b[k]))
  }

  /** The order is decided by the first difference; a prefix comes first. */
  lemma {:induction false} LexLeMeans(a: seq<int>, b: seq<int>)
    ensures LexLe(a, b) <==> exists k: nat :: LessAt(a, b, k)
  {
    if a == [] || (b != [] && a[0] < b[0]) {
      assert LessAt(a, b, 0);
    } else if b != [] && a[0] == b[0] {
      LexLeMeans(a[1..], b[1..]);
      if k: nat :| LessAt(a[1..], b[1..], k) {
        assert a[..k + 1] == [a[0]] + a[1..][..k] && b[..k + 1] == [b[0]] + b[1..][..k];
        assert LessAt(a, b, k + 1);
      }
      if k: nat :| LessAt(a, b, k) {
        if k > 0 {
          assert a[1..][..k - 1] == a[..k][1..] && b[1..][..k - 1] == b[..k][1..];
          assert LessAt(a[1..], b[1..], k - 1);
        }
      }
    } else if b != [] {
      forall k: nat | k > 0 && k <= |a| && k <= |b|
        ensures a[..k] != b[..k]
      {
        assert a[..k][0] == a[0] && b[..k][0] == b[0];
      }
    }
  }

  // ---- insertion sort by an integer-list key -------------------------------

  predicate Below<T>(key: T -> seq<int>, x: T, y: T) { LexLe(key(x), key(y)) }

  predicate SortedBy<T>(key: T -> seq<int>, xs: seq<T>) {
    forall i, j :: 0 <= i < j < |xs| ==> Below(key, xs[i], xs[j])
  }

  /** Puts x in front of the first element that is strictly above it. */
  function Insert<T>(key: T -> seq<int>, x: T, xs: seq<T>): (r: seq<T>)
    ensures |r| == |xs| + 1
  {
    if xs == [] then [x]
    else if !Below(key, xs[0], x) then [x] + xs
    else [xs[0]] + Insert(key, x, xs[1..])
  }

  function Sort<T>(key: T -> seq<int>, xs: seq<T>): (r: seq<T>)
    ensures |r| == |xs|
  {
    if xs == [] then []
    else Insert(key, xs[|xs| - 1], Sort(key, xs[..|xs| - 1]))
  }

  lemma {:induction false} InsertElements<T>(key: T -> seq<int>, x: T, xs: seq<T>)
    ensures multiset(Insert(key, x, xs)) == multiset{x} + multiset(xs)
  {
    if xs != [] {
      assert xs == [xs[0]] + xs[1..];
      InsertElements(key, x, xs[1..]);
    }
  }

  lemma SortedCons<T>(key: T -> seq<int>, x: T, xs: seq<T>)
    requires SortedBy(key, xs)
    requires forall y :: y in xs ==> Below(key, x, y)
    ensures SortedBy(key, [x] + xs)
  {
  }

  /** Everything behind an element that is above x is above x too. */
  lemma AboveHead<T>(key: T -> seq<int>, x: T, xs: seq<T>)
    requires SortedBy(key, xs) && xs != [] && !Below(key, xs[0], x)
    ensures forall y :: y in xs ==> Below(key, x, y) && !Below(key, y, x)
  {
    LexLeTotal(key(x), key(xs[0]));
    forall y | y in xs
      ensures Below(key, x, y) && !Below(key, y, x)
    {
      LexLeReflexive(key(y));
      LexLeTransitive(key(x), key(xs[0]), key(y));
      if Below(key, y, x) {
        LexLeTransitive(key(xs[0]), key(y), key(x));
      }
    }
  }

  lemma HeadBelow<T>(key: T -> seq<int>, xs: seq<T>)
    requires SortedBy(key, xs) && xs != []
    ensures forall y :: y in xs[1..] ==> Below(key, xs[0], y)
  {
    forall y | y in xs[1..]
      ensures Below(key, xs[0], y)
    {
      var j :| 0 <= j < |xs| - 1 && xs[1..][j] == y;
      assert Below(key, xs[0], xs[j + 1]);
    }
  }

  lemma {:induction false} InsertSorted<T>(key: T -> seq<int>, x: T, xs: seq<T>)
    requires SortedBy(key, xs)
    ensures SortedBy(key, Insert(key, x, xs))
  {
    if xs == [] {
    } else if !Below(key, xs[0], x) {
      AboveHead(key, x, xs);
      SortedCons(key, x, xs);
    } else {
      var rest := Insert(key, x, xs[1..]);
      InsertSorted(key, x, xs[1..]);
      InsertElements(key, x, xs[1..]);
      HeadBelow(key, xs);
      forall y | y in rest
        ensures Below(key, xs[0], y)
      {
        assert y in multiset(rest);
        assert y == x || y in multiset(xs[1..]);
      }
      SortedCons(key, xs[0], rest);
    }
  }

  /** The result of Sort is an ordered rearrangement of its argument. */
  lemma {:induction false} SortSorted<T>(key: T -> seq<int>, xs: seq<T>)
    ensures SortedBy(key, Sort(key, xs)) && multiset(Sort(key, xs)) == multiset(xs)
  {
    if xs != [] {
      var n := |xs| - 1;
      SortSorted(key, xs[..n]);
      InsertSorted(key, xs[n], Sort(key, xs[..n]));
      InsertElements(key, xs[n], Sort(key, xs[..n]));
      assert xs == xs[..n] + [xs[n]];
    }
  }

  lemma {:induction false} InsertLast<T>(key: T -> seq<int>, x: T, xs: seq<T>)
    requires forall y :: y in xs ==> Below(key, y, x)
    ensures Insert(key, x, xs) == xs + [x]
  {
    if xs != [] {
      InsertLast(key, x, xs[1..]);
      assert xs == [xs[0]] + xs[1..];
    }
  }

  lemma {:induction false} SortOfSorted<T>(key: T -> seq<int>, xs: seq<T>)
    requires SortedBy(key, xs)
    ensures Sort(key, xs) == xs
  {
    if xs != [] {
      var n := |xs| - 1;
      SortOfSorted(key, xs[..n]);
      InsertLast(key, xs[n], xs[..n]);
      assert xs == xs[..n] + [xs[n]];
    }
  }

  // ---- sorting commutes with selecting ------------------------------------

  function Filter<T>(keep: T -> bool, xs: seq<T>): (r: seq<T>)
    ensures forall y :: y in r ==> y in xs && keep(y)
  {
    if xs == [] then []
    else if keep(xs[0]) then [xs[0]] + Filter(keep, xs[1..])
    else Filter(keep, xs[1..])
  }

  lemma FilterCons<T>(keep: T -> bool, x: T, xs: seq<T>)
    ensures Filter(keep, [x] + xs) == if keep(x) then [x] + Filter(keep, xs) else Filter(keep, xs)
  {
    assert ([x] + xs)[1..] == xs;
  }

  lemma {:induction false} FilterAppend<T>(keep: T -> bool, xs: seq<T>, ys: seq<T>)
    ensures Filter(keep, xs + ys) == Filter(keep, xs) + Filter(keep, ys)
  {
    if xs == [] {
      assert xs + ys == ys && Filter(keep, xs) == [];
      hide Filter;
      assert [] + Filter(keep, ys) == Filter(keep, ys);
    } else {
      hide Filter;
      var x, rest := xs[0], xs[1..];
      FilterAppend(keep, rest, ys);
      assert xs == [x] + rest && xs + ys == [x] + (rest + ys);
      FilterCons(keep, x, rest + ys);
      FilterCons(keep, x, rest);
      assert [x] + Filter(keep, rest) + Filter(keep, ys) == [x] + (Filter(keep, rest) + Filter(keep, ys));
    }
  }

  lemma InsertCons<T>(key: T -> seq<int>, x: T, h: T, t: seq<T>)
    ensures Insert(key, x, [h] + t) == if Below(key, h, x) then [h] + Insert(key, x, t) else [x] + ([h] + t)
  {
    assert ([h] + t)[1..] == t;
  }

  lemma FilterInsertAbove<T>(key: T -> seq<int>, keep: T -> bool, x: T, xs: seq<T>)
    requires SortedBy(key, xs) && xs != [] && !Below(key, xs[0], x)
    ensures Filter(keep, Insert(key, x, xs)) ==
            if keep(x) then Insert(key, x, Filter(keep, xs)) else Filter(keep, xs)
  {
    AboveHead(key, x, xs);
    FilterCons(keep, x, xs);
    var f := Filter(keep, xs);
    if f != [] { assert f[0] in f; }
  }

  lemma {:induction false} FilterInsert<T>(key: T -> seq<int>, keep: T -> bool, x: T, xs: seq<T>)
    requires SortedBy(key, xs)
    ensures Filter(keep, Insert(key, x, xs)) ==
            if keep(x) then Insert(key, x, Filter(keep, xs)) else Filter(keep, xs)
  {
    if xs == [] {
      FilterCons(keep, x, []);
    } else if !Below(key, xs[0], x) {
      FilterInsertAbove(key, keep, x, xs);
    } else {
      FilterInsert(key, keep, x, xs[1..]);
      FilterCons(keep, xs[0], Insert(key, x, xs[1..]));
      InsertCons(key, x, xs[0], Filter(keep, xs[1..]));
    }
  }

  lemma FilterPush<T>(keep: T -> bool, xs: seq<T>, x: T)
    ensures Filter(keep, xs + [x]) == if keep(x) then Filter(keep, xs) + [x] else Filter(keep, xs)
  {
    FilterAppend(keep, xs, [x]);
    FilterCons(keep, x, []);
    assert Filter(keep, xs) + [] == Filter(keep, xs);
  }

  /** Dropping elements before sorting or after sorting gives the same list. */
  lemma {:induction false} FilterSort<T>(key: T -> seq<int>, keep: T -> bool, xs: seq<T>)
    ensures Filter(keep, Sort(key, xs)) == Sort(key, Filter(keep, xs))
  {
    if xs != [] {
      hide Sort, Insert, SortedBy, Below, Filter;
      var front, x := xs[..|xs| - 1], xs[|xs| - 1];
      FilterSort(key, keep, front);
      assert SortedBy(key, Sort(key, front)) by { SortSorted(key, front); }
      FilterInsert(key, keep, x, Sort(key, front));
      assert xs == front + [x];
      SortAppend(key, front, x);
      FilterPush(keep, front, x);
      SortAppend(key, Filter(keep, front), x);
    }
  }

  lemma SortAppend<T>(key: T -> seq<int>, xs: seq<T>, x: T)
    ensures Sort(key, xs + [x]) == Insert(key, x, Sort(key, xs))
  {
    assert (xs + [x])[..|xs|] == xs;
  }
}

/** A finite set of integers listed in increasing order. */
module SortedSets {

  predicate Increasing(s: seq<int>) { forall i, j :: 0 <= i < j < |s| ==> s[i] < s[j] }

  ghost predicate IsLeast(m: int, s: set<int>) { m in s && forall x :: x in s ==> m <= x }

  lemma Element<T>(s: set<T>) returns (a: T)
    requires s != {}
    ensures a in s
  {
    a :| a in s;
  }

  lemma {:induction false} LeastExists(s: set<int>) returns (m: int)
    requires s != {}
    ensures IsLeast(m, s)
  {
    var a := Element(s);
    m := a;
    var rest := s - {a};
    if rest != {} {
      var k := LeastExists(rest);
      m := if k < a then k else a;
    }
    forall x | x in s
      ensures m <= x
    {
      assert x == a || x in rest;
    }
  }

  function Least(s: set<int>): (m: int)
    requires s != {}
    ensures IsLeast(m, s)
  {
    assert exists m :: IsLeast(m, s) by { var k := LeastExists(s); }
    var m :| m in s && forall x :: x in s ==> m <= x;
    m
  }

  /** sorted(s) of a set. */
  function SortedSet(s: set<int>): (r: seq<int>)
  {
    if s == {} then [] else [Least(s)] + SortedSet(s - {Least(s)})
  }

  /** It lists the elements of s, each once, in increasing order. */
  lemma {:induction false} SortedSetLists(s: set<int>)
    ensures Increasing(SortedSet(s)) && |SortedSet(s)| == |s|
    ensures forall x :: x in SortedSet(s) <==> x in s
  {
    if s != {} {
      var m := Least(s);
      var rest := SortedSet(s - {m});
      SortedSetLists(s - {m});
      forall j | 0 <= j < |rest|
        ensures m < rest[j]
      {
        assert rest[j] in rest;
      }
      forall x
        ensures x in [m] + rest <==> x in s
      {
        assert x in s <==> x == m || x in s - {m};
      }
    }
  }
}

/** A finite set of integer tuples listed in lexicographic order. */
module LexSets {
  import opened Sorting
  import SortedSets

  predicate LexIncreasing(s: seq<seq<int>>) {
    forall i, j :: 0 <= i < j < |s| ==> LexLe(s[i], s[j]) && s[i] != s[j]
  }

  predicate IsLexLeast(m: seq<int>, s: set<seq<int>>) { m in s && forall x :: x in s ==> LexLe(m, x) }

  lemma {:induction false} LexLeastExists(s: set<seq<int>>) returns (m: seq<int>)
    requires s != {}
    ensures IsLexLeast(m, s)
  {
    var a := SortedSets.Element(s);
    m := a;
    LexLeReflexive(a);
    var rest := s - {a};
    if rest != {} {
      var k := LexLeastExists(rest);
      LexLeTotal(a, k);
      if LexLe(k, a) {
        m := k;
      } else {
        forall x | x in rest
          ensures LexLe(a, x)
        {
          LexLeTransitive(a, k, x);
        }
      }
    }
    forall x | x in s
      ensures LexLe(m, x)
    {
      assert x == a || x in rest;
    }
  }

  function LexLeast(s: set<seq<int>>): (m: seq<int>)
    requires s != {}
    ensures IsLexLeast(m, s)
  {
    assert exists m :: IsLexLeast(m, s) by { var k := LexLeastExists(s); }
    LexLeastUnique(s);
    var m :| m in s && IsLexLeast(m, s);
    m
  }

  lemma LexLeastUnique(s: set<seq<int>>)
    ensures forall a, b :: IsLexLeast(a, s) && IsLexLeast(b, s) ==> a == b
  {
    forall a, b | IsLexLeast(a, s) && IsLexLeast(b, s)
      ensures a == b
    {
      LexLeTotal(a, b);
    }
  }

  /** sorted(s) of a set of tuples. */
  function LexSorted(s: set<seq<int>>): (r: seq<seq<int>>)
  {
    if s == {} then [] else [LexLeast(s)] + LexSorted(s - {LexLeast(s)})
  }

  lemma LexCons(m: seq<int>, rest: seq<seq<int>>, s: set<seq<int>>)
    requires IsLexLeast(m, s) && LexIncreasing(rest) && forall x :: x in rest <==> x in s - {m}
    ensures LexIncreasing([m] + rest) && forall x :: x in [m] + rest <==> x in s
  {
    hide LexLe;
    forall j | 0 <= j < |rest|
      ensures LexLe(m, rest[j]) && m != rest[j]
    {
      assert rest[j] in rest;
    }
    forall x
      ensures x in [m] + rest <==> x in s
    {
      assert x in s <==> x == m || x in s - {m};
    }
  }

  /** It lists the elements of s, each once, in lexicographic order. */
  lemma {:induction false} LexSortedLists(s: set<seq<int>>)
    ensures LexIncreasing(LexSorted(s)) && |LexSorted(s)| == |s|
    ensures forall x :: x in LexSorted(s) <==> x in s
  {
    hide LexLe;
    if s != {} {
      hide LexIncreasing;
      LexSortedLists(s - {LexLeast(s)});
      LexCons(LexLeast(s), LexSorted(s - {LexLeast(s)}), s);
    }
  }
}
