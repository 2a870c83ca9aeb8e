/** Reachability along the edges of a relation, and the classes it cuts a set into. */
module Reach {

  ghost predicate Path<V(!new)>(edge: (V, V) -> bool, p: seq<V>) {
    |p| >= 1 && forall k :: 0 <= k < |p| - 1 ==> edge(p[k], p[k + 1])
  }

  ghost predicate Linked<V(!new)>(edge: (V, V) -> bool, a: V, b: V) {
    exists p :: Path(edge, p) && p[0] == a && p[|p| - 1] == b
  }

  ghost predicate Symmetric<V(!new)>(edge: (V, V) -> bool) { forall a, b :: edge(a, b) ==> edge(b, a) }

  /** No edge leaves the set. */
  ghost predicate Closed<V(!new)>(edge: (V, V) -> bool, s: set<V>) { forall a, b :: a in s && edge(a, b) ==> b in s }

  lemma LinkedSelf<V(!new)>(edge: (V, V) -> bool, a: V)
    ensures Linked(edge, a, a)
  {
    assert Path(edge, [a]);
  }

  lemma LinkedStep<V(!new)>(edge: (V, V) -> bool, a: V, b: V, c: V)
    requires Linked(edge, a, b) && edge(b, c)
    ensures Linked(edge, a, c)
  {
    var p :| Path(edge, p) && p[0] == a && p[|p| - 1] == b;
    var q := p + [c];
    assert Path(edge, q) && q[0] == a && q[|q| - 1] == c;
  }

  lemma LinkedTrans<V(!new)>(edge: (V, V) -> bool, a: V, b: V, c: V)
    requires Linked(edge, a, b) && Linked(edge, b, c)
    ensures Linked(edge, a, c)
  {
    var p :| Path(edge, p) && p[0] == b && p[|p| - 1] == c;
    FollowPath(edge, a, p, |p| - 1);
  }

  lemma {:induction false} FollowPath<V(!new)>(edge: (V, V) -> bool, a: V, p: seq<V>, k: nat)
    requires Path(edge, p) && k < |p| && Linked(edge, a, p[0])
    ensures Linked(edge, a, p[k])
  {
    if k > 0 {
      FollowPath(edge, a, p, k - 1);
      LinkedStep(edge, a, p[k - 1], p[k]);
    }
  }

  lemma LinkedSym<V(!new)>(edge: (V, V) -> bool, a: V, b: V)
    requires Symmetric(edge) && Linked(edge, a, b)
    ensures Linked(edge, b, a)
  {
    var p :| Path(edge, p) && p[0] == a && p[|p| - 1] == b;
    FollowBack(edge, p, |p| - 1);
  }

  lemma {:induction false} FollowBack<V(!new)>(edge: (V, V) -> bool, p: seq<V>, k: nat)
    requires Symmetric(edge) && Path(edge, p) && k < |p|
    ensures Linked(edge, p[k], p[0])
  {
    if k == 0 {
      LinkedSelf(edge, p[0]);
    } else {
      FollowBack(edge, p, k - 1);
      LinkedSelf(edge, p[k]);
      LinkedStep(edge, p[k], p[k], p[k - 1]);
      LinkedTrans(edge, p[k], p[k - 1], p[0]);
    }
  }

  /** A closed set holds everything its members reach. */
  lemma ClosedReaches<V(!new)>(edge: (V, V) -> bool, s: set<V>, a: V, b: V)
    requires Closed(edge, s) && a in s && Linked(edge, a, b)
    ensures b in s
  {
    var p :| Path(edge, p) && p[0] == a && p[|p| - 1] == b;
    StayInside(edge, s, p, |p| - 1);
  }

  lemma {:induction false} StayInside<V(!new)>(edge: (V, V) -> bool, s: set<V>, p: seq<V>, k: nat)
    requires Closed(edge, s) && Path(edge, p) && k < |p| && p[0] in s
    ensures p[k] in s
  {
    if k > 0 {
      StayInside(edge, s, p, k - 1);
    }
  }

  // ---- classes ----------------------------------------------------------------

  /** s is everything reachable from one of its members. */
  ghost predicate IsClass<V(!new)>(edge: (V, V) -> bool, s: set<V>) {
    exists seed :: seed in s && forall b :: b in s <==> Linked(edge, seed, b)
  }

  /** What a finished search from `seed` has collected is the class of the seed. */
  lemma SearchIsClass<V(!new)>(edge: (V, V) -> bool, seed: V, s: set<V>)
    requires seed in s && Closed(edge, s) && forall b :: b in s ==> Linked(edge, seed, b)
    ensures IsClass(edge, s)
  {
    forall b
      ensures b in s <==> Linked(edge, seed, b)
    {
      if Linked(edge, seed, b) { ClosedReaches(edge, s, seed, b); }
    }
  }

  /** Members of a class reach each other, and nothing outside reaches or is reached. */
  lemma ClassIsMaximal<V(!new)>(edge: (V, V) -> bool, s: set<V>, a: V, b: V)
    requires Symmetric(edge) && IsClass(edge, s) && a in s
    ensures b in s <==> Linked(edge, a, b)
  {
    var seed :| seed in s && forall b :: b in s <==> Linked(edge, seed, b);
    LinkedSym(edge, seed, a);
    if b in s { LinkedTrans(edge, a, seed, b); }
    if Linked(edge, a, b) { LinkedTrans(edge, seed, a, b); }
  }

  /** Disjoint sets whose union is `on`, every one of them a class: a list of all classes of `on`. */
  ghost predicate Partition<V(!new)>(edge: (V, V) -> bool, on: set<V>, classes: seq<set<V>>) {
    && (forall k :: 0 <= k < |classes| ==> IsClass(edge, classes[k]))
    && (forall j, k :: 0 <= j < k < |classes| ==> classes[j] !! classes[k])
    && (forall v :: v in on <==> InSome(v, classes))
  }

  ghost predicate InSome<V>(v: V, classes: seq<set<V>>) { exists k :: 0 <= k < |classes| && v in classes[k] }

  lemma InSomeAt<V>(v: V, classes: seq<set<V>>, k: nat)
    requires k < |classes| && v in classes[k]
    ensures InSome(v, classes)
  {
  }

  lemma InSomePush<V>(v: V, classes: seq<set<V>>, s: set<V>)
    ensures InSome(v, classes + [s]) <==> InSome(v, classes) || v in s
  {
    if InSome(v, classes) {
      var k :| 0 <= k < |classes| && v in classes[k];
      assert (classes + [s])[k] == classes[k];
    }
    if v in s { assert (classes + [s])[|classes|] == s; }
    if InSome(v, classes + [s]) {
      var k :| 0 <= k < |classes + [s]| && v in (classes + [s])[k];
      if k < |classes| { assert v in classes[k]; }
    }
  }

  /** A complete list contains the class of every member exactly once. */
  lemma PartitionIsAll<V(!new)>(edge: (V, V) -> bool, on: set<V>, classes: seq<set<V>>, s: set<V>)
    requires Partition(edge, on, classes) && Symmetric(edge) && IsClass(edge, s) && s <= on
    ensures s in classes
  {
    var a :| a in s && forall b :: b in s <==> Linked(edge, a, b);
    assert InSome(a, classes);
    var k :| 0 <= k < |classes| && a in classes[k];
    forall b
      ensures b in s <==> b in classes[k]
    {
      ClassIsMaximal(edge, classes[k], a, b);
    }
    assert s == classes[k];
  }

  // ---- sequences --------------------------------------------------------------

  ghost function Elements<V>(s: seq<V>): set<V> { set c | c in s }

  ghost predicate NoRepeats<V>(s: seq<V>) { forall i, j :: 0 <= i < j < |s| ==> s[i] != s[j] }

  /** A sequence longer than the set it is drawn from holds something twice. */
  lemma {:induction false} Repeats<T>(p: seq<T>, s: set<T>) returns (i: nat, j: nat)
    requires |p| > |s| && forall k :: 0 <= k < |p| ==> p[k] in s
    ensures i < j < |p| && p[i] == p[j]
    decreases |p|
  {
    var n := |p| - 1;
    if k :| 0 <= k < n && p[k] == p[n] {
      i, j := k, n;
    } else {
      i, j := Repeats(p[..n], s - {p[n]});
    }
  }
}
