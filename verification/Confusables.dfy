/** The closure of two substitution tables: `generate_decompositions.gen`. Characters are code points. */
module Confusables {
  import opened Reach

  type Chars = seq<int>
  type Table = map<int, seq<int>>

  function Replacement(t: Table, c: int): Chars { if c in t then t[c] else [c] }

  /** [d for c in l for d in replacements.get(c, [c])] */
  function Apply(l: Chars, t: Table): Chars {
    if l == [] then [] else Apply(l[..|l| - 1], t) + Replacement(t, l[|l| - 1])
  }

  lemma ApplyPush(l: Chars, c: int, t: Table)
    ensures Apply(l + [c], t) == Apply(l, t) + Replacement(t, c)
  {
    hide Replacement;
    assert (l + [c])[..|l|] == l;
  }

  lemma ApplyOne(c: int, t: Table)
    ensures Apply([c], t) == Replacement(t, c)
  {
    hide Replacement;
    ApplyPush([], c, t);
    assert [] + [c] == [c];
    assert [] + Replacement(t, c) == Replacement(t, c);
  }

  lemma ApplyNothing(t: Table)
    ensures Apply([], t) == []
  {
  }

  lemma {:induction false} ApplyAppend(a: Chars, b: Chars, t: Table)
    ensures Apply(a + b, t) == Apply(a, t) + Apply(b, t)
  {
    hide Replacement, Apply;
    if b == [] {
      ApplyNothing(t);
      assert a + b == a && Apply(a, t) + [] == Apply(a, t);
    } else {
      var n := |b| - 1;
      ApplyAppend(a, b[..n], t);
      ApplyPush(a + b[..n], b[n], t);
      ApplyPush(b[..n], b[n], t);
      assert a + b == a + b[..n] + [b[n]] && b == b[..n] + [b[n]];
    }
  }

  // ---- rounds -----------------------------------------------------------------------

  /** One pass of the loop. */
  function Round(l: Chars, nfd: Table, con: Table): Chars { Apply(Apply(l, nfd), con) }

  /** The text after n passes. */
  function Rounds(l: Chars, nfd: Table, con: Table, n: nat): Chars {
    if n == 0 then l else Round(Rounds(l, nfd, con, n - 1), nfd, con)
  }

  /** Every character is rewritten on its own. */
  lemma RoundAppend(a: Chars, b: Chars, nfd: Table, con: Table)
    ensures Round(a + b, nfd, con) == Round(a, nfd, con) + Round(b, nfd, con)
  {
    ApplyAppend(a, b, nfd);
    ApplyAppend(Apply(a, nfd), Apply(b, nfd), con);
  }

  lemma {:induction false} RoundsAppend(a: Chars, b: Chars, nfd: Table, con: Table, n: nat)
    ensures Rounds(a + b, nfd, con, n) == Rounds(a, nfd, con, n) + Rounds(b, nfd, con, n)
  {
    hide Round;
    if n > 0 {
      RoundsAppend(a, b, nfd, con, n - 1);
      RoundAppend(Rounds(a, nfd, con, n - 1), Rounds(b, nfd, con, n - 1), nfd, con);
    }
  }

  /** The exit test of the loop. */
  predicate Stable(l: Chars, nfd: Table, con: Table) { Apply(l, nfd) == l && Round(l, nfd, con) == l }

  lemma StableAppend(a: Chars, b: Chars, nfd: Table, con: Table)
    requires Stable(a, nfd, con) && Stable(b, nfd, con)
    ensures Stable(a + b, nfd, con)
  {
    ApplyAppend(a, b, nfd);
    RoundAppend(a, b, nfd, con);
  }

  /** From the first stable text on nothing changes any more. */
  lemma {:induction false} StableStays(l: Chars, nfd: Table, con: Table, n: nat, k: nat)
    requires Stable(Rounds(l, nfd, con, n), nfd, con) && n <= k
    ensures Rounds(l, nfd, con, k) == Rounds(l, nfd, con, n)
  {
    hide Apply;
    if n < k {
      StableStays(l, nfd, con, n, k - 1);
    }
  }

  /** The loop ends. */
  ghost predicate Stops(l: Chars, nfd: Table, con: Table) { exists n: nat :: Stable(Rounds(l, nfd, con, n), nfd, con) }

  /** The text it ends with. */
  ghost function Closure(l: Chars, nfd: Table, con: Table): Chars
    requires Stops(l, nfd, con)
  {
    var n: nat :| Stable(Rounds(l, nfd, con, n), nfd, con);
    Rounds(l, nfd, con, n)
  }

  lemma ClosureIs(l: Chars, nfd: Table, con: Table, n: nat)
    requires Stable(Rounds(l, nfd, con, n), nfd, con)
    ensures Stops(l, nfd, con) && Closure(l, nfd, con) == Rounds(l, nfd, con, n)
    ensures Stable(Closure(l, nfd, con), nfd, con)
  {
    hide Stable, Rounds;
    var k: nat :| Stable(Rounds(l, nfd, con, k), nfd, con) && Closure(l, nfd, con) == Rounds(l, nfd, con, k);
    if k <= n {
      StableStays(l, nfd, con, k, n);
    } else {
      StableStays(l, nfd, con, n, k);
    }
  }

  /** The closure of a text is the closures of its parts put together, although the loop runs a
      different number of rounds on each: a table with one entry per character is enough. */
  lemma ClosureAppend(a: Chars, b: Chars, nfd: Table, con: Table)
    requires Stops(a, nfd, con) && Stops(b, nfd, con)
    ensures Stops(a + b, nfd, con) && Closure(a + b, nfd, con) == Closure(a, nfd, con) + Closure(b, nfd, con)
  {
    hide Stable, Rounds, Closure;
    var i: nat :| Stable(Rounds(a, nfd, con, i), nfd, con);
    var j: nat :| Stable(Rounds(b, nfd, con, j), nfd, con);
    var n := i + j;
    StableStays(a, nfd, con, i, n);
    StableStays(b, nfd, con, j, n);
    ClosureIs(a, nfd, con, n);
    ClosureIs(b, nfd, con, n);
    RoundsAppend(a, b, nfd, con, n);
    StableAppend(Rounds(a, nfd, con, n), Rounds(b, nfd, con, n), nfd, con);
    ClosureIs(a + b, nfd, con, n);
  }

  // ---- characters that are left alone -------------------------------------------------

  /** Neither table changes the character. */
  predicate Plain(c: int, nfd: Table, con: Table) { Replacement(nfd, c) == [c] && Replacement(con, c) == [c] }

  predicate AllPlain(l: Chars, nfd: Table, con: Table) { forall k :: 0 <= k < |l| ==> Plain(l[k], nfd, con) }

  lemma {:induction false} ApplyPlain(l: Chars, nfd: Table, con: Table)
    requires AllPlain(l, nfd, con)
    ensures Apply(l, nfd) == l && Apply(l, con) == l
  {
    if l != [] {
      hide Replacement;
      var n := |l| - 1;
      ApplyPlain(l[..n], nfd, con);
      assert Plain(l[n], nfd, con) && l == l[..n] + [l[n]];
    }
  }

  lemma PlainIsStable(l: Chars, nfd: Table, con: Table)
    requires AllPlain(l, nfd, con)
    ensures Stable(l, nfd, con)
  {
    ApplyPlain(l, nfd, con);
  }

  /** The loop ends and leaves nothing to replace. */
  ghost predicate EndsPlain(l: Chars, nfd: Table, con: Table) {
    exists n: nat :: AllPlain(Rounds(l, nfd, con, n), nfd, con)
  }

  lemma EndsPlainClosure(l: Chars, nfd: Table, con: Table)
    ensures EndsPlain(l, nfd, con) <==> Stops(l, nfd, con) && AllPlain(Closure(l, nfd, con), nfd, con)
  {
    hide AllPlain, Stable, Rounds, Closure;
    if EndsPlain(l, nfd, con) {
      var n: nat :| AllPlain(Rounds(l, nfd, con, n), nfd, con);
      PlainIsStable(Rounds(l, nfd, con, n), nfd, con);
      ClosureIs(l, nfd, con, n);
    }
    if Stops(l, nfd, con) {
      var n: nat :| Stable(Rounds(l, nfd, con, n), nfd, con);
      ClosureIs(l, nfd, con, n);
    }
  }

  // ---- what a round makes of a character ------------------------------------------------

  /** x is rewritten, and y is in what it becomes. */
  ghost function Becomes(nfd: Table, con: Table): (int, int) -> bool {
    (x, y) => !Plain(x, nfd, con) && y in Round([x], nfd, con)
  }

  /** From c a character is reached that rewriting leads back to. */
  ghost predicate Loops(c: int, nfd: Table, con: Table) {
    var edge := Becomes(nfd, con);
    exists x, y :: Linked(edge, c, x) && edge(x, y) && Linked(edge, y, x)
  }

  lemma RoundMember(l: Chars, y: int, nfd: Table, con: Table) returns (x: int)
    requires y in Round(l, nfd, con)
    ensures x in l && y in Round([x], nfd, con)
    decreases |l|
  {
    hide Apply;
    RoundNothing(nfd, con);
    var n := |l| - 1;
    hide Round;
    assert l == l[..n] + [l[n]];
    RoundAppend(l[..n], [l[n]], nfd, con);
    if y in Round([l[n]], nfd, con) {
      x := l[n];
    } else {
      x := RoundMember(l[..n], y, nfd, con);
    }
  }

  lemma RoundNothing(nfd: Table, con: Table)
    ensures Round([], nfd, con) == []
  {
    assert Apply([], nfd) == [] && Apply([], con) == [];
  }

  lemma RoundHas(l: Chars, x: int, y: int, nfd: Table, con: Table)
    requires x in l && y in Round([x], nfd, con)
    ensures y in Round(l, nfd, con)
  {
    hide Round;
    var k :| 0 <= k < |l| && l[k] == x;
    assert l == l[..k] + [x] + l[k + 1..];
    RoundAppend(l[..k] + [x], l[k + 1..], nfd, con);
    RoundAppend(l[..k], [x], nfd, con);
  }

  lemma RoundPlain(x: int, nfd: Table, con: Table)
    requires Plain(x, nfd, con)
    ensures Round([x], nfd, con) == [x]
  {
    ApplyOne(x, nfd);
    ApplyOne(x, con);
  }

  // ---- a loop keeps something to replace --------------------------------------------------

  lemma OneFurther(nfd: Table, con: Table, z: int, x: int, y: int) returns (next: int)
    requires var edge := Becomes(nfd, con); Linked(edge, z, x) && edge(x, y) && Linked(edge, y, x)
    ensures Becomes(nfd, con)(z, next) && Linked(Becomes(nfd, con), next, x)
  {
    var edge := Becomes(nfd, con);
    hide Becomes;
    var p :| Path(edge, p) && p[0] == z && p[|p| - 1] == x;
    if |p| == 1 {
      next := y;
    } else {
      next := p[1];
      assert edge(p[0], p[1]);
      assert Path(edge, p[1..]) && p[1..][0] == next && p[1..][|p| - 2] == x;
    }
  }

  /** After any number of rounds some character still leads to x, and so is not plain. */
  lemma {:induction false} LoopStays(c: int, nfd: Table, con: Table, x: int, y: int, n: nat) returns (z: int)
    requires var edge := Becomes(nfd, con); Linked(edge, c, x) && edge(x, y) && Linked(edge, y, x)
    ensures z in Rounds([c], nfd, con, n) && Linked(Becomes(nfd, con), z, x) && !Plain(z, nfd, con)
  {
    hide Linked, Round, Plain;
    if n == 0 {
      z := c;
    } else {
      var before := LoopStays(c, nfd, con, x, y, n - 1);
      z := OneFurther(nfd, con, before, x, y);
      RoundHas(Rounds([c], nfd, con, n - 1), before, z, nfd, con);
    }
    var next := OneFurther(nfd, con, z, x, y);
  }

  // ---- without a loop the rounds run out -----------------------------------------------------

  /** A character that is still to be replaced has a history of replaced characters, one per round. */
  lemma {:induction false} History(c: int, nfd: Table, con: Table, n: nat, y: int) returns (p: seq<int>)
    requires y in Rounds([c], nfd, con, n) && !Plain(y, nfd, con)
    ensures |p| == n + 1 && Path(Becomes(nfd, con), p) && p[0] == c && p[n] == y
    ensures forall k :: 0 <= k <= n ==> !Plain(p[k], nfd, con)
  {
    hide Round, Plain;
    if n == 0 {
      p := [c];
    } else {
      var x := RoundMember(Rounds([c], nfd, con, n - 1), y, nfd, con);
      if Plain(x, nfd, con) { RoundPlain(x, nfd, con); }
      var q := History(c, nfd, con, n - 1, x);
      p := q + [y];
      assert Becomes(nfd, con)(x, y);
    }
  }

  /** A repetition in it is a loop. */
  lemma RepeatIsLoop(c: int, nfd: Table, con: Table, p: seq<int>, i: nat, j: nat)
    requires Path(Becomes(nfd, con), p) && p[0] == c && i < j < |p| && p[i] == p[j]
    ensures Loops(c, nfd, con)
  {
    var edge := Becomes(nfd, con);
    hide Becomes;
    var a, b := p[..i + 1], p[i + 1..j + 1];
    assert Path(edge, a) && a[0] == c && a[|a| - 1] == p[i];
    assert edge(p[i], p[i + 1]);
    assert Path(edge, b) && b[0] == p[i + 1] && b[|b| - 1] == p[i];
    assert Linked(edge, c, p[i]) && Linked(edge, p[i + 1], p[i]);
  }

  /** As many rounds as there are table entries are enough, if any number is. */
  function Enough(nfd: Table, con: Table): nat { |nfd.Keys + con.Keys| }

  lemma NoLoopEnds(c: int, nfd: Table, con: Table)
    requires !Loops(c, nfd, con)
    ensures AllPlain(Rounds([c], nfd, con, Enough(nfd, con)), nfd, con)
  {
    hide Loops, Round;
    var n, keys := Enough(nfd, con), nfd.Keys + con.Keys;
    var l := Rounds([c], nfd, con, n);
    if !AllPlain(l, nfd, con) {
      var k :| 0 <= k < |l| && !Plain(l[k], nfd, con);
      var p := History(c, nfd, con, n, l[k]);
      forall i | 0 <= i < |p|
        ensures p[i] in keys
      {
        assert !Plain(p[i], nfd, con);
      }
      var i, j := Repeats(p, keys);
      RepeatIsLoop(c, nfd, con, p, i, j);
    }
  }

  /** The loop on c ends with nothing left to replace exactly when no character that rewriting c
      leads to is led back to itself. */
  lemma EndsPlainExactly(c: int, nfd: Table, con: Table)
    ensures EndsPlain([c], nfd, con) <==> !Loops(c, nfd, con)
    ensures EndsPlain([c], nfd, con) <==> AllPlain(Rounds([c], nfd, con, Enough(nfd, con)), nfd, con)
  {
    hide AllPlain, Rounds, Enough, Becomes;
    if !Loops(c, nfd, con) {
      NoLoopEnds(c, nfd, con);
    } else if EndsPlain([c], nfd, con) {
      var n: nat :| AllPlain(Rounds([c], nfd, con, n), nfd, con);
      var x, y :| Linked(Becomes(nfd, con), c, x) && Becomes(nfd, con)(x, y) && Linked(Becomes(nfd, con), y, x);
      var z := LoopStays(c, nfd, con, x, y, n);
      PlainMember(Rounds([c], nfd, con, n), z, nfd, con);
    }
  }

  lemma PlainMember(l: Chars, z: int, nfd: Table, con: Table)
    requires AllPlain(l, nfd, con) && z in l
    ensures Plain(z, nfd, con)
  {
    var k :| 0 <= k < |l| && l[k] == z;
  }

  lemma {:induction false} PlainStays(l: Chars, nfd: Table, con: Table, n: nat, k: nat)
    requires AllPlain(Rounds(l, nfd, con, n), nfd, con) && n <= k
    ensures AllPlain(Rounds(l, nfd, con, k), nfd, con)
  {
    PlainIsStable(Rounds(l, nfd, con, n), nfd, con);
    StableStays(l, nfd, con, n, k);
  }

  lemma EndsPlainAppend(a: Chars, b: Chars, nfd: Table, con: Table)
    ensures EndsPlain(a + b, nfd, con) <==> EndsPlain(a, nfd, con) && EndsPlain(b, nfd, con)
  {
    hide Rounds, Plain;
    if EndsPlain(a + b, nfd, con) {
      var n: nat :| AllPlain(Rounds(a + b, nfd, con, n), nfd, con);
      RoundsAppend(a, b, nfd, con, n);
      AllPlainAppend(Rounds(a, nfd, con, n), Rounds(b, nfd, con, n), nfd, con);
    }
    if EndsPlain(a, nfd, con) && EndsPlain(b, nfd, con) {
      var i: nat :| AllPlain(Rounds(a, nfd, con, i), nfd, con);
      var j: nat :| AllPlain(Rounds(b, nfd, con, j), nfd, con);
      PlainStays(a, nfd, con, i, i + j);
      PlainStays(b, nfd, con, j, i + j);
      RoundsAppend(a, b, nfd, con, i + j);
      AllPlainAppend(Rounds(a, nfd, con, i + j), Rounds(b, nfd, con, i + j), nfd, con);
    }
  }

  lemma AllPlainAppend(a: Chars, b: Chars, nfd: Table, con: Table)
    ensures AllPlain(a + b, nfd, con) <==> AllPlain(a, nfd, con) && AllPlain(b, nfd, con)
  {
    hide Plain;
    if AllPlain(a + b, nfd, con) {
      assert forall k :: 0 <= k < |a| ==> (a + b)[k] == a[k];
      assert forall k :: 0 <= k < |b| ==> (a + b)[|a| + k] == b[k];
    }
  }

  /** The same for a whole text: it ends exactly when none of its characters loops. */
  lemma {:induction false} TextEndsExactly(l: Chars, nfd: Table, con: Table)
    ensures EndsPlain(l, nfd, con) <==> forall k :: 0 <= k < |l| ==> !Loops(l[k], nfd, con)
    ensures EndsPlain(l, nfd, con) <==> AllPlain(Rounds(l, nfd, con, Enough(nfd, con)), nfd, con)
  {
    hide Loops, AllPlain, EndsPlain, Rounds, Enough;
    if l == [] {
      NothingEnds(nfd, con, Enough(nfd, con));
    } else {
      var n := |l| - 1;
      TextEndsExactly(l[..n], nfd, con);
      EndsPlainExactly(l[n], nfd, con);
      assert l == l[..n] + [l[n]];
      EndsPlainAppend(l[..n], [l[n]], nfd, con);
      var front, last := Rounds(l[..n], nfd, con, Enough(nfd, con)), Rounds([l[n]], nfd, con, Enough(nfd, con));
      RoundsAppend(l[..n], [l[n]], nfd, con, Enough(nfd, con));
      AllPlainAppend(front, last, nfd, con);
    }
  }

  lemma {:induction false} NothingEnds(nfd: Table, con: Table, n: nat)
    ensures Rounds([], nfd, con, n) == [] && AllPlain([], nfd, con) && EndsPlain([], nfd, con)
  {
    hide Round;
    if n > 0 {
      NothingEnds(nfd, con, n - 1);
      RoundNothing(nfd, con);
    } else {
      assert AllPlain(Rounds([], nfd, con, 0), nfd, con);
    }
  }

  // ---- without entries that delete ---------------------------------------------------------------

  /** No entry deletes its character. */
  predicate NonErasing(t: Table) { forall c :: c in t ==> t[c] != [] }

  lemma {:induction false} ApplyGrows(l: Chars, t: Table)
    requires NonErasing(t)
    ensures |Apply(l, t)| >= |l|
    ensures Apply(l, t) == l ==> forall k :: 0 <= k < |l| ==> Replacement(t, l[k]) == [l[k]]
  {
    if l != [] {
      var n := |l| - 1;
      var r := Replacement(t, l[n]);
      ApplyGrows(l[..n], t);
      assert |r| >= 1;
      if Apply(l, t) == l {
        assert |r| == 1 && l[..n] + [l[n]] == Apply(l[..n], t) + r;
        assert Apply(l[..n], t) == l[..n];
      }
    }
  }

  /** With such tables the loop ends exactly when there is no loop of characters. */
  lemma StopsWithoutLoop(c: int, nfd: Table, con: Table)
    requires NonErasing(nfd) && NonErasing(con)
    ensures Stops([c], nfd, con) <==> !Loops(c, nfd, con)
  {
    hide Loops, Rounds, Apply;
    EndsPlainExactly(c, nfd, con);
    EndsPlainClosure([c], nfd, con);
    if Stops([c], nfd, con) {
      var n: nat :| Stable(Rounds([c], nfd, con, n), nfd, con);
      var l := Rounds([c], nfd, con, n);
      ApplyGrows(l, nfd);
      ApplyGrows(l, con);
      assert AllPlain(l, nfd, con);
    }
  }

  // ---- one table for a round -----------------------------------------------------------------------

  /** What a round makes of each character that has an entry. */
  function RoundTable(nfd: Table, con: Table): (t: Table)
    ensures t.Keys == nfd.Keys + con.Keys
  {
    map c | c in nfd.Keys + con.Keys :: Round([c], nfd, con)
  }

  lemma {:induction false} RoundIsApply(l: Chars, nfd: Table, con: Table)
    ensures Round(l, nfd, con) == Apply(l, RoundTable(nfd, con))
  {
    if l == [] {
      RoundNothing(nfd, con);
    } else {
      hide Round, Apply;
      var n := |l| - 1;
      assert l == l[..n] + [l[n]];
      RoundIsApply(l[..n], nfd, con);
      RoundAppend(l[..n], [l[n]], nfd, con);
      ApplyPush(l[..n], l[n], RoundTable(nfd, con));
      if l[n] !in nfd.Keys + con.Keys { RoundPlain(l[n], nfd, con); }
    }
  }

  /** One table applied n times. */
  function Times(l: Chars, t: Table, n: nat): Chars { if n == 0 then l else Apply(Times(l, t, n - 1), t) }

  lemma {:induction false} RoundsAreTimes(l: Chars, nfd: Table, con: Table, n: nat)
    ensures Rounds(l, nfd, con, n) == Times(l, RoundTable(nfd, con), n)
  {
    hide Round, Apply, RoundTable;
    if n > 0 {
      RoundsAreTimes(l, nfd, con, n - 1);
      RoundIsApply(Rounds(l, nfd, con, n - 1), nfd, con);
    }
  }

  lemma {:induction false} TimesAreRounds(l: Chars, t: Table, n: nat)
    ensures Times(l, t, n) == Rounds(l, t, map[], n)
  {
    hide Apply;
    if n > 0 {
      TimesAreRounds(l, t, n - 1);
      ApplyUnchanged(Apply(Times(l, t, n - 1), t), map[]);
    }
  }

  lemma {:induction false} ApplyUnchanged(l: Chars, t: Table)
    requires forall k :: 0 <= k < |l| ==> l[k] !in t
    ensures Apply(l, t) == l
  {
    if l != [] {
      ApplyUnchanged(l[..|l| - 1], t);
    }
  }

  /** The table changes nothing any more. */
  predicate Settled(l: Chars, t: Table) { Apply(l, t) == l }

  lemma {:induction false} SettledStays(l: Chars, t: Table, n: nat, k: nat)
    requires Settled(Times(l, t, n), t) && n <= k
    ensures Times(l, t, k) == Times(l, t, n)
  {
    hide Apply;
    if n < k {
      SettledStays(l, t, n, k - 1);
    }
  }

  // ---- dropping characters ---------------------------------------------------------------------------

  /** [c for c in result if c not in ignore] */
  function Without(l: Chars, ignore: set<int>): (r: Chars)
    ensures forall k :: 0 <= k < |r| ==> r[k] !in ignore && r[k] in l
  {
    if l == [] then []
    else
      var n := |l| - 1;
      Without(l[..n], ignore) + (if l[n] in ignore then [] else [l[n]])
  }

  lemma {:induction false} WithoutAppend(a: Chars, b: Chars, ignore: set<int>)
    ensures Without(a + b, ignore) == Without(a, ignore) + Without(b, ignore)
  {
    if b == [] {
      assert a + b == a;
    } else {
      WithoutAppend(a, b[..|b| - 1], ignore);
      assert (a + b)[..|a + b| - 1] == a + b[..|b| - 1];
    }
  }

  /** The table without its entry for e, and without e in what the others put in. */
  function Pruned(t: Table, e: int): (p: Table)
    ensures p.Keys == t.Keys - {e}
  {
    map k | k in t && k != e :: Without(t[k], {e})
  }

  lemma WithoutOne(c: int, e: int)
    ensures Without([c], {e}) == if c == e then [] else [c]
    ensures Without([], {e}) == []
  {
    assert [c][..0] == [] && Without([], {e}) == [];
  }

  lemma PrunedReplacement(c: int, t: Table, e: int)
    requires e in t && t[e] == []
    ensures Without(Replacement(t, c), {e}) == Apply(Without([c], {e}), Pruned(t, e))
    ensures Apply(Without([c], {e}), t) == Replacement(t, c)
  {
    WithoutOne(c, e);
    if c == e {
      assert Apply([], t) == [] && Apply([], Pruned(t, e)) == [];
    } else {
      hide Apply, Without;
      ApplyOne(c, t);
      ApplyOne(c, Pruned(t, e));
    }
  }

  /** Deleting e first, and never producing it, loses nothing but e. */
  lemma {:induction false} PrunedApply(l: Chars, t: Table, e: int)
    requires e in t && t[e] == []
    ensures Without(Apply(l, t), {e}) == Apply(Without(l, {e}), Pruned(t, e))
    ensures Apply(Without(l, {e}), t) == Apply(l, t)
  {
    if l != [] {
      hide Apply, Without, Replacement, Pruned;
      var n := |l| - 1;
      var front, c := l[..n], l[n];
      assert l == front + [c];
      PrunedApply(front, t, e);
      PrunedReplacement(c, t, e);
      ApplyPush(front, c, t);
      WithoutAppend(Apply(front, t), Replacement(t, c), {e});
      WithoutAppend(front, [c], {e});
      ApplyAppend(Without(front, {e}), Without([c], {e}), Pruned(t, e));
      ApplyAppend(Without(front, {e}), Without([c], {e}), t);
    }
  }

  lemma {:induction false} PrunedTimes(l: Chars, t: Table, e: int, n: nat)
    requires e in t && t[e] == []
    ensures Without(Times(l, t, n), {e}) == Times(Without(l, {e}), Pruned(t, e), n)
  {
    hide Apply, Without, Pruned;
    if n > 0 {
      PrunedTimes(l, t, e, n - 1);
      PrunedApply(Times(l, t, n - 1), t, e);
    }
  }

  // ---- when the loop ends ------------------------------------------------------------------------------

  /** With nothing deleted a settled text is plain, and a text that becomes plain does so in time. */
  lemma SettlesGrowing(l: Chars, t: Table, n: nat)
    requires NonErasing(t) && Settled(Times(l, t, n), t)
    ensures Settled(Times(l, t, |t|), t)
  {
    hide Apply, Rounds, Times, NonErasing;
    var none: Table := map[];
    ApplyGrows(Times(l, t, n), t);
    TimesAreRounds(l, t, n);
    assert AllPlain(Rounds(l, t, none, n), t, none);
    TextEndsExactly(l, t, none);
    assert t.Keys + none.Keys == t.Keys && Enough(t, none) == |t|;
    TimesAreRounds(l, t, |t|);
    PlainIsStable(Times(l, t, |t|), t, none);
  }

  /** If a table ever settles on a text, it has done so after as many steps as it has entries. */
  lemma {:induction false} Settles(l: Chars, t: Table, n: nat)
    requires Settled(Times(l, t, n), t)
    ensures Settled(Times(l, t, |t|), t)
    decreases |t|
  {
    hide Apply, Without, Times, Pruned;
    if NonErasing(t) {
      SettlesGrowing(l, t, n);
    } else {
      var e :| e in t && t[e] == [];
      var p, k := Pruned(t, e), |t| - 1;
      assert |p| == |p.Keys| == k;
      PrunedTimes(l, t, e, n);
      PrunedApply(Times(l, t, n), t, e);
      Settles(Without(l, {e}), p, n);
      PrunedTimes(l, t, e, k);
      SettlesAfterPruning(l, t, e, k);
    }
  }

  /** One step after the text has settled but for e, it has settled. */
  lemma SettlesAfterPruning(l: Chars, t: Table, e: int, k: nat)
    requires e in t && t[e] == [] && Settled(Without(Times(l, t, k), {e}), Pruned(t, e))
    ensures Settled(Times(l, t, k + 1), t)
  {
    hide Apply, Without, Pruned;
    PrunedApply(Times(l, t, k), t, e);
    PrunedApply(Times(l, t, k + 1), t, e);
  }

  /** Whatever the tables are, also with entries that delete: the exit test is reached on a text if
      and only if it holds after as many rounds as there are table entries. */
  lemma StopsExactly(l: Chars, nfd: Table, con: Table)
    ensures Stops(l, nfd, con) <==> Stable(Rounds(l, nfd, con, Enough(nfd, con)), nfd, con)
  {
    hide Apply, Round, Rounds, RoundTable, Times;
    if Stops(l, nfd, con) {
      var n: nat :| Stable(Rounds(l, nfd, con, n), nfd, con);
      var t, enough := RoundTable(nfd, con), Enough(nfd, con);
      assert |t| == |t.Keys| == enough;
      RoundsAreTimes(l, nfd, con, n);
      RoundsAreTimes(l, nfd, con, enough);
      RoundIsApply(Rounds(l, nfd, con, n), nfd, con);
      if n <= enough {
        StableStays(l, nfd, con, n, enough);
      } else {
        Settles(l, t, n);
        SettledStays(l, t, enough, n);
      }
    }
  }

  /** Tables that undo each other: the loop never ends. */
  lemma SwapNeverStops(a: int, b: int)
    requires a != b
    ensures !Stops([a], map[a := [b]], map[b := [a]])
  {
    hide Rounds, Stops;
    var nfd, con: Table := map[a := [b]], map[b := [a]];
    StopsWithoutLoop(a, nfd, con);
    ApplyOne(a, nfd);
    ApplyOne(b, con);
    assert Replacement(nfd, a)[0] == b;
    assert Becomes(nfd, con)(a, a);
    LinkedSelf(Becomes(nfd, con), a);
  }

  /** With an entry that deletes, the exit test can hold although there is something to replace. */
  lemma StopsEarly(a: int, b: int)
    requires a != b
    ensures Stops([a], map[a := [a, b], b := []], map[])
    ensures !AllPlain(Closure([a], map[a := [a, b], b := []], map[]), map[a := [a, b], b := []], map[])
  {
    hide Closure;
    var nfd, con: Table := map[a := [a, b], b := []], map[];
    ApplyOne(a, nfd);
    ApplyOne(b, nfd);
    ApplyAppend([a], [b], nfd);
    assert [a] + [b] == [a, b] && [a, b] + [] == [a, b];
    ApplyUnchanged([a, b], con);
    assert Rounds([a], nfd, con, 1) == [a, b] by { ApplyUnchanged([a, b], con); }
    assert Stable([a, b], nfd, con);
    ClosureIs([a], nfd, con, 1);
    assert !Plain([a, b][1], nfd, con);
  }

  // ---- weights ------------------------------------------------------------------

  function Weight(l: Chars, weight: int -> nat): nat {
    if l == [] then 0 else Weight(l[..|l| - 1], weight) + weight(l[|l| - 1])
  }

  lemma {:induction false} WeightAppend(a: Chars, b: Chars, weight: int -> nat)
    ensures Weight(a + b, weight) == Weight(a, weight) + Weight(b, weight)
  {
    if b == [] {
      assert a + b == a;
    } else {
      WeightAppend(a, b[..|b| - 1], weight);
      assert (a + b)[..|a + b| - 1] == a + b[..|b| - 1];
    }
  }

  /** Entries that map a character to itself aside, every entry outweighs its replacement. */
  predicate Shrinks(t: Table, weight: int -> nat) {
    forall c :: c in t && t[c] != [c] ==> weight(c) > Weight(t[c], weight)
  }

  /** No character of l has an entry that changes it. */
  predicate Fixed(l: Chars, t: Table) { forall k :: 0 <= k < |l| ==> Replacement(t, l[k]) == [l[k]] }

  lemma FixedPush(l: Chars, c: int, t: Table)
    ensures Fixed(l + [c], t) <==> Fixed(l, t) && Replacement(t, c) == [c]
  {
    hide Replacement;
    var m := l + [c];
    assert m[|l|] == c && forall k :: 0 <= k < |l| ==> m[k] == l[k];
  }

  lemma ReplacementShrinks(c: int, t: Table, weight: int -> nat)
    requires Shrinks(t, weight)
    ensures Weight([c], weight) == weight(c)
    ensures Weight(Replacement(t, c), weight) <= weight(c)
    ensures Replacement(t, c) != [c] ==> Weight(Replacement(t, c), weight) < weight(c)
  {
    assert [c][..0] == [];
  }

  lemma {:induction false} ApplyShrinks(l: Chars, t: Table, weight: int -> nat)
    requires Shrinks(t, weight)
    ensures Weight(Apply(l, t), weight) <= Weight(l, weight)
    ensures Fixed(l, t) ==> Apply(l, t) == l
    ensures !Fixed(l, t) ==> Weight(Apply(l, t), weight) < Weight(l, weight)
  {
    if l != [] {
      hide Replacement, Fixed, Shrinks, Apply, Weight;
      var front, c := l[..|l| - 1], l[|l| - 1];
      assert l == front + [c];
      ApplyShrinks(front, t, weight);
      ApplyPush(front, c, t);
      FixedPush(front, c, t);
      ReplacementShrinks(c, t, weight);
      WeightAppend(front, [c], weight);
      WeightAppend(Apply(front, t), Replacement(t, c), weight);
    }
  }

  lemma RoundShrinks(l: Chars, nfd: Table, con: Table, weight: int -> nat)
    requires Shrinks(nfd, weight) && Shrinks(con, weight)
    ensures !AllPlain(l, nfd, con) ==> Weight(Round(l, nfd, con), weight) < Weight(l, weight)
  {
    ApplyShrinks(l, nfd, weight);
    ApplyShrinks(Apply(l, nfd), con, weight);
    ApplyShrinks(l, con, weight);
  }

  lemma {:induction false} RoundFirst(l: Chars, nfd: Table, con: Table, n: nat)
    ensures Rounds(Round(l, nfd, con), nfd, con, n) == Rounds(l, nfd, con, n + 1)
  {
    hide Round;
    if n > 0 {
      RoundFirst(l, nfd, con, n - 1);
    }
  }

  /** Shrinking tables end on every text: each round that changes something makes it lighter. */
  lemma {:induction false} ShrinkingEnds(l: Chars, nfd: Table, con: Table, weight: int -> nat)
    requires Shrinks(nfd, weight) && Shrinks(con, weight)
    ensures EndsPlain(l, nfd, con)
    decreases Weight(l, weight)
  {
    hide AllPlain, Shrinks, Weight, Round;
    if AllPlain(l, nfd, con) {
      assert Rounds(l, nfd, con, 0) == l;
    } else {
      RoundShrinks(l, nfd, con, weight);
      ShrinkingEnds(Round(l, nfd, con), nfd, con, weight);
      var n: nat :| AllPlain(Rounds(Round(l, nfd, con), nfd, con, n), nfd, con);
      RoundFirst(l, nfd, con, n);
    }
  }

  /** Tables need no such weight to end: here a and b are swapped by the first table, and the second
      leads out of the swap. */
  lemma SwapEnds(a: int, b: int, c: int, weight: int -> nat)
    requires a != b && b != c && a != c
    ensures EndsPlain([a], map[a := [b], b := [a]], map[b := [c]])
    ensures EndsPlain([b], map[a := [b], b := [a]], map[b := [c]])
    ensures !Shrinks(map[a := [b], b := [a]], weight)
  {
    hide Apply;
    var nfd, con: Table := map[a := [b], b := [a]], map[b := [c]];
    ApplyOne(a, nfd);
    ApplyOne(b, nfd);
    ApplyOne(c, nfd);
    ApplyOne(a, con);
    ApplyOne(b, con);
    ApplyOne(c, con);
    assert Rounds([a], nfd, con, 1) == [c];
    assert Rounds([b], nfd, con, 1) == [a];
    assert Rounds([b], nfd, con, 2) == [c];
    assert AllPlain([c], nfd, con);
    if Shrinks(nfd, weight) {
      assert nfd[a][0] == b && nfd[b][0] == a;
      ReplacementShrinks(a, nfd, weight);
      ReplacementShrinks(b, nfd, weight);
    }
  }

  // ---- gen -------------------------------------------------------------------------

  method ApplyTable(l: Chars, t: Table) returns (r: Chars)
    ensures r == Apply(l, t)
  {
    r := [];
    for k := 0 to |l|
      invariant r == Apply(l[..k], t)
    {
      r := r + Replacement(t, l[k]);
      assert l[..k + 1][..k] == l[..k];
    }
    assert l[..|l|] == l;
  }

  /** After as many rounds as there are table entries the exit test holds on c. */
  predicate StopsOn(c: int, nfd: Table, con: Table) { Stable(Rounds([c], nfd, con, Enough(nfd, con)), nfd, con) }

  /** Substitutes until nothing changes, then drops the ignored characters. It can be called on exactly
      the characters on which the source's loop ends (StopsExactly); where there is no loop of
      characters, nothing is left to replace. */
  method Gen(c: int, nfd: Table, con: Table, ignore: set<int>) returns (r: Chars)
    requires StopsOn(c, nfd, con)
    ensures Stops([c], nfd, con) && r == Without(Closure([c], nfd, con), ignore)
    ensures !Loops(c, nfd, con) ==> AllPlain(r, nfd, con)
    ensures forall k :: 0 <= k < |r| ==> r[k] !in ignore
  {
    hide Apply, Closure, AllPlain, Loops, Without, Enough;
    ghost var n, k := Enough(nfd, con), 0;
    var result := [c];
    while true
      invariant k <= n && result == Rounds([c], nfd, con, k)
      decreases n - k
    {
      var first := ApplyTable(result, nfd);
      var second := ApplyTable(first, con);
      if result == first && result == second { break; }
      assert second == Rounds([c], nfd, con, k + 1);
      result, k := second, k + 1;
    }
    ClosureIs([c], nfd, con, k);
    r := Without(result, ignore);
    if !Loops(c, nfd, con) {
      EndsPlainExactly(c, nfd, con);
      EndsPlainClosure([c], nfd, con);
      PlainWithout(result, ignore, nfd, con);
    }
  }

  lemma PlainWithout(l: Chars, ignore: set<int>, nfd: Table, con: Table)
    requires AllPlain(l, nfd, con)
    ensures AllPlain(Without(l, ignore), nfd, con)
  {
    var r := Without(l, ignore);
    forall k | 0 <= k < |r|
      ensures Plain(r[k], nfd, con)
    {
      PlainMember(l, r[k], nfd, con);
    }
  }

  /** The loop ends on every character that has an entry. */
  predicate AllStop(nfd: Table, con: Table) { forall c :: c in nfd.Keys + con.Keys ==> StopsOn(c, nfd, con) }

  /** Then it ends on every character. */
  lemma EveryCharacterStops(c: int, nfd: Table, con: Table)
    requires AllStop(nfd, con)
    ensures StopsOn(c, nfd, con) && Stops([c], nfd, con)
  {
    if c !in nfd.Keys + con.Keys {
      hide Stable;
      PlainIsStable([c], nfd, con);
      StableStays([c], nfd, con, 0, Enough(nfd, con));
    }
  }

  /** The table entry of a character: its closure without the ignored characters. */
  ghost function Entry(c: int, nfd: Table, con: Table, ignore: set<int>): Chars
    requires AllStop(nfd, con)
  {
    EveryCharacterStops(c, nfd, con);
    Without(Closure([c], nfd, con), ignore)
  }

  /** The skeleton of a text, character by character through the generated table. */
  ghost function Skeleton(text: Chars, nfd: Table, con: Table, ignore: set<int>): Chars
    requires AllStop(nfd, con)
  {
    if text == [] then []
    else
      var n := |text| - 1;
      Skeleton(text[..n], nfd, con, ignore) + Entry(text[n], nfd, con, ignore)
  }

  /** It is the filtered closure of the whole text. */
  lemma {:induction false} SkeletonIsClosure(text: Chars, nfd: Table, con: Table, ignore: set<int>)
    requires AllStop(nfd, con)
    ensures Stops(text, nfd, con)
    ensures Skeleton(text, nfd, con, ignore) == Without(Closure(text, nfd, con), ignore)
  {
    hide Closure, Without, Stops;
    if text == [] {
      EmptyClosure(nfd, con, ignore);
    } else {
      var n := |text| - 1;
      var front, last := text[..n], [text[n]];
      SkeletonIsClosure(front, nfd, con, ignore);
      assert text == front + last;
      EveryCharacterStops(text[n], nfd, con);
      ClosureAppend(front, last, nfd, con);
      WithoutAppend(Closure(front, nfd, con), Closure(last, nfd, con), ignore);
    }
  }

  lemma EmptyClosure(nfd: Table, con: Table, ignore: set<int>)
    ensures Stops([], nfd, con) && Without(Closure([], nfd, con), ignore) == []
  {
    hide Closure;
    assert Apply([], nfd) == [] && Apply([], con) == [];
    assert Rounds([], nfd, con, 0) == [];
    ClosureIs([], nfd, con, 0);
  }
}
