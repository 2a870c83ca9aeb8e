/** Filing a flat item list by type, as the lossless reader does, and what that gives on the
    flat list of a writer. */
module Grouping {
  import opened Integers
  import opened Bytes
  import opened Sorting
  import opened SortedSets
  import opened Datafile

  function ListOf(items: map<int, seq<Item>>, t: int): seq<Item> {
    if t in items then items[t] else []
  }

  /** m.items.setdefault(t, []).append((ident, payload)) */
  function FileItem(items: map<int, seq<Item>>, f: FlatItem): map<int, seq<Item>> {
    items[f.typ := ListOf(items, f.typ) + [Item(f.id, f.payload)]]
  }

  function Group(flat: seq<FlatItem>): map<int, seq<Item>> {
    if flat == [] then map[] else FileItem(Group(flat[..|flat| - 1]), flat[|flat| - 1])
  }

  /** m._next_id[t] = max(m._next_id.get(t, 0), ident + 1) */
  function Advance(next: map<int, int>, f: FlatItem): map<int, int> {
    next[f.typ := Max(if f.typ in next then next[f.typ] else 0, f.id + 1)]
  }

  function NextIds(flat: seq<FlatItem>): map<int, int> {
    if flat == [] then map[] else Advance(NextIds(flat[..|flat| - 1]), flat[|flat| - 1])
  }

  /** Types without an item leave no trace in a file; the others keep their ordered list. */
  function Canonical(items: map<int, seq<Item>>): map<int, seq<Item>> {
    map t | t in items && items[t] != [] :: Ordered(items[t])
  }

  predicate NoEmptyList(items: map<int, seq<Item>>) { forall t :: t in items ==> items[t] != [] }

  lemma GroupPush(flat: seq<FlatItem>, f: FlatItem)
    ensures Group(flat + [f]) == FileItem(Group(flat), f)
    ensures NextIds(flat + [f]) == Advance(NextIds(flat), f)
  {
    assert (flat + [f])[..|flat|] == flat;
  }

  lemma FiledPush(t: int, xs: seq<Item>, x: Item)
    ensures Filed(t, xs + [x]) == Filed(t, xs) + [FlatItem(t, x.id, x.payload)]
  {
  }

  lemma FileInto(items: map<int, seq<Item>>, t: int, xs: seq<Item>, x: Item)
    requires t !in items
    ensures FileItem(if xs == [] then items else items[t := xs], FlatItem(t, x.id, x.payload)) == items[t := xs + [x]]
  {
    assert [] + [x] == [x];
  }

  lemma {:induction false} GroupBlock(flat: seq<FlatItem>, t: int, xs: seq<Item>)
    requires t !in Group(flat)
    ensures Group(flat + Filed(t, xs)) == if xs == [] then Group(flat) else Group(flat)[t := xs]
  {
    hide Group, FileItem;
    if xs == [] {
      assert flat + Filed(t, xs) == flat;
    } else {
      hide Filed;
      var n := |xs| - 1;
      var last := FlatItem(t, xs[n].id, xs[n].payload);
      GroupBlock(flat, t, xs[..n]);
      assert xs == xs[..n] + [xs[n]];
      FiledPush(t, xs[..n], xs[n]);
      assert flat + Filed(t, xs) == flat + Filed(t, xs[..n]) + [last];
      GroupPush(flat + Filed(t, xs[..n]), last);
      FileInto(Group(flat), t, xs[..n], xs[n]);
    }
  }

  predicate Distinct(ts: seq<int>) { forall i, j :: 0 <= i < j < |ts| ==> ts[i] != ts[j] }

  /** Grouping the flat list of some types gives each of them its ordered list. */
  lemma {:induction false} GroupOfFlat(ts: seq<int>, items: map<int, seq<Item>>)
    requires TypesIn(ts, items) && Distinct(ts)
    ensures forall t :: t in Group(FlatOf(ts, items)) <==> t in ts && items[t] != []
    ensures forall t :: t in ts && items[t] != [] ==> Group(FlatOf(ts, items))[t] == Ordered(items[t])
  {
    if ts != [] {
      var n := |ts| - 1;
      var t := ts[n];
      GroupOfFlat(ts[..n], items);
      assert t !in ts[..n];
      GroupBlock(FlatOf(ts[..n], items), t, Ordered(items[t]));
      assert ts == ts[..n] + [t];
    }
  }

  lemma GroupFlat(c: Contents)
    ensures Group(Flat(c)) == Canonical(c.items)
  {
    SortedSetLists(c.items.Keys);
    var ts := Types(c);
    assert Distinct(ts);
    GroupOfFlat(ts, c.items);
    var g, k := Group(FlatOf(ts, c.items)), Canonical(c.items);
    forall t
      ensures t in g <==> t in k
      ensures t in g ==> g[t] == k[t]
    {
      assert t in ts <==> t in c.items.Keys;
    }
  }

  // ---- saving what was read -------------------------------------------------

  lemma {:induction false} FlatOfSame(ts: seq<int>, a: map<int, seq<Item>>, b: map<int, seq<Item>>)
    requires TypesIn(ts, a) && TypesIn(ts, b)
    requires forall t :: t in ts ==> Ordered(a[t]) == Ordered(b[t])
    ensures FlatOf(ts, a) == FlatOf(ts, b) && TypeTable(ts, a) == TypeTable(ts, b)
  {
    if ts != [] {
      FlatOfSame(ts[..|ts| - 1], a, b);
    }
  }

  lemma OrderedTwice(xs: seq<Item>)
    ensures Ordered(Ordered(xs)) == Ordered(xs)
  {
    SortSorted(ItemKey, xs);
    SortOfSorted(ItemKey, Ordered(xs));
  }

  lemma CanonicalSame(items: map<int, seq<Item>>)
    requires NoEmptyList(items)
    ensures Canonical(items).Keys == items.Keys
    ensures forall t :: t in items ==> Ordered(Canonical(items)[t]) == Ordered(items[t])
  {
    forall t | t in items
      ensures t in Canonical(items) && Ordered(Canonical(items)[t]) == Ordered(items[t])
    {
      OrderedTwice(items[t]);
    }
  }

  /** The canonical form is saved as the same file. */
  lemma CanonicalFile(c: Contents, z: Zlib)
    requires NoEmptyList(c.items)
    ensures var d := Contents(c.raws, Canonical(c.items));
            Flat(d) == Flat(c) && Encode(d, z) == Encode(c, z)
  {
    var d := Contents(c.raws, Canonical(c.items));
    CanonicalSame(c.items);
    assert Types(d) == Types(c);
    FlatOfSame(Types(c), d.items, c.items);
    SameFile(c, d, z);
  }

  lemma SameFile(c: Contents, d: Contents, z: Zlib)
    requires c.raws == d.raws && Types(c) == Types(d) && Flat(c) == Flat(d)
    requires TypeTable(Types(c), c.items) == TypeTable(Types(d), d.items)
    ensures Encode(c, z) == Encode(d, z)
  {
    assert Directory(c, z) == Directory(d, z);
    assert SwapLen(c) == SwapLen(d);
    assert Header(c, z) == Header(d, z);
    assert Fits(c, z) == Fits(d, z);
    assert FileBytes(c, z) == FileBytes(d, z);
  }

  lemma TypeCount(c: Contents)
    ensures |Types(c)| == |c.items.Keys|
  {
    SortedSetLists(c.items.Keys);
  }

  /** An empty list costs a row of the type table, so its file is not the canonical one. */
  lemma EmptyListFile(c: Contents)
    requires !NoEmptyList(c.items)
    ensures |Types(Contents(c.raws, Canonical(c.items)))| < |Types(c)|
  {
    var d := Contents(c.raws, Canonical(c.items));
    var t :| t in c.items && c.items[t] == [];
    assert d.items.Keys <= c.items.Keys - {t};
    SubsetSize(d.items.Keys, c.items.Keys - {t});
    TypeCount(c);
    TypeCount(d);
  }

  lemma {:induction false} SubsetSize<T>(a: set<T>, b: set<T>)
    requires a <= b
    ensures |a| <= |b|
  {
    if a != {} {
      var x :| x in a;
      SubsetSize(a - {x}, b - {x});
    }
  }

  // ---- ids -----------------------------------------------------------------

  /** Numbers that can still be given out: every id in use is below the next one. */
  predicate FreshIds(items: map<int, seq<Item>>, next: map<int, int>) {
    && items.Keys == next.Keys
    && forall t, k :: t in items && 0 <= k < |items[t]| ==> 0 <= items[t][k].id < next[t]
  }

  /** Whatever item list a file holds, after grouping it no id in use can be given out again. */
  lemma {:induction false} GroupFresh(flat: seq<FlatItem>)
    requires forall k :: 0 <= k < |flat| ==> flat[k].id >= 0
    ensures FreshIds(Group(flat), NextIds(flat)) && NoEmptyList(Group(flat))
    ensures forall t :: t in NextIds(flat) ==>
        exists k :: 0 <= k < |flat| && flat[k].typ == t && NextIds(flat)[t] == flat[k].id + 1
  {
    if flat != [] {
      var n := |flat| - 1;
      var f, before, next := flat[n], Group(flat[..n]), NextIds(flat[..n]);
      GroupFresh(flat[..n]);
      forall t | t in NextIds(flat)
        ensures exists k :: 0 <= k < |flat| && flat[k].typ == t && NextIds(flat)[t] == flat[k].id + 1
      {
        if t == f.typ && NextIds(flat)[t] == f.id + 1 {
          assert flat[n].typ == t;
        } else {
          var k :| 0 <= k < n && flat[..n][k].typ == t && next[t] == flat[..n][k].id + 1;
          assert flat[k].typ == t;
        }
      }
    }
  }

  lemma {:induction false} GroupMember(flat: seq<FlatItem>, t: int, k: nat)
    requires t in Group(flat) && k < |Group(flat)[t]|
    ensures exists j :: 0 <= j < |flat| && flat[j] == FlatItem(t, Group(flat)[t][k].id, Group(flat)[t][k].payload)
  {
    var n := |flat| - 1;
    var f, before := flat[n], Group(flat[..n]);
    if t == f.typ && k == |ListOf(before, t)| {
      assert flat[n] == f;
    } else {
      GroupMember(flat[..n], t, k);
      var j :| 0 <= j < n && flat[..n][j] == FlatItem(t, before[t][k].id, before[t][k].payload);
      assert flat[j] == flat[..n][j];
    }
  }
}
