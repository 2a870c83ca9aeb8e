/** The span lexer of scripts/branding_scan.py against an automaton that reads one character at a time. */
module TokenLexer {

  datatype Kind = Code | Str | Comment

  datatype Span = Span(start: int, end: int, kind: Kind) {
    predicate Holds(pos: int) { start <= pos < end }
  }

  /** What the automaton is inside of when it is about to read a character. */
  datatype State = InCode | InString(quote: char) | Escaped(quote: char) | Opening | InBlock | Closing | InLine

  predicate At(line: string, i: int, c: char) { 0 <= i < |line| && line[i] == c }

  /** One character, with a look at the next; a '#' asks whether the rest of the line is a
      preprocessor directive. */
  function Step(s: State, line: string, i: nat, directive: string -> bool): State
    requires i < |line|
  {
    var c := line[i];
    match s
    case InCode =>
      if c == '/' && At(line, i + 1, '/') then InLine
      else if c == '/' && At(line, i + 1, '*') then Opening
      else if c == '"' || c == '\'' then InString(c)
      else if c == '#' && !directive(line[i + 1..]) then InLine
      else InCode
    case InString(q) => if c == '\\' then Escaped(q) else if c == q then InCode else InString(q)
    case Escaped(q) => InString(q)
    case Opening => InBlock
    case InBlock => if c == '*' && At(line, i + 1, '/') then Closing else InBlock
    case Closing => InCode
    case InLine => InLine
  }

  function StateAt(line: string, i: nat, directive: string -> bool): State
    requires i <= |line|
  {
    if i == 0 then InCode else Step(StateAt(line, i - 1, directive), line, i - 1, directive)
  }

  function KindOf(s: State): Kind {
    match s
    case InCode => Code
    case InString(_) | Escaped(_) => Str
    case Opening | InBlock | Closing | InLine => Comment
  }

  /** The label of a position: a character that opens something belongs to it. One past the line is
      inside a string exactly when the line ends in the middle of an escape. */
  function Label(line: string, pos: int, directive: string -> bool): Kind {
    if pos < 0 || pos > |line| then Code
    else if pos == |line| then if StateAt(line, pos, directive).Escaped? then Str else Code
    else
      var s := StateAt(line, pos, directive);
      if s == InCode then KindOf(Step(s, line, pos, directive)) else KindOf(s)
  }

  /** A span opens here. */
  predicate Opens(line: string, i: int, directive: string -> bool) {
    0 <= i < |line| && StateAt(line, i, directive) == InCode && Label(line, i, directive) != Code
  }

  // ---- context_at ---------------------------------------------------------------------

  /** The kind of the first span that holds pos. */
  function Context(spans: seq<Span>, pos: int): Kind {
    if spans == [] then Code
    else if spans[0].Holds(pos) then spans[0].kind
    else Context(spans[1..], pos)
  }

  method ContextAt(spans: seq<Span>, pos: int) returns (kind: Kind)
    ensures kind == Context(spans, pos)
  {
    for k := 0 to |spans|
      invariant Context(spans, pos) == Context(spans[k..], pos)
    {
      assert spans[k..][1..] == spans[k + 1..];
      if spans[k].Holds(pos) { return spans[k].kind; }
    }
    kind := Code;
  }

  /** Non-empty spans in order, without overlap, up to `end`. */
  predicate Ordered(spans: seq<Span>, end: int) {
    && (forall k :: 0 <= k < |spans| ==> 0 <= spans[k].start < spans[k].end <= end && spans[k].kind != Code)
    && (forall j, k :: 0 <= j < k < |spans| ==> spans[j].end <= spans[k].start)
  }

  lemma {:induction false} ContextAppend(spans: seq<Span>, s: Span, end: int, pos: int)
    requires Ordered(spans, end) && end <= s.start
    ensures Context(spans + [s], pos) == if s.Holds(pos) then s.kind else Context(spans, pos)
  {
    if spans == [] {
      assert [] + [s] == [s] && [s][1..] == [];
    } else {
      assert (spans + [s])[1..] == spans[1..] + [s];
      ContextAppend(spans[1..], s, end, pos);
    }
  }

  lemma {:induction false} ContextBeyond(spans: seq<Span>, end: int, pos: int)
    requires Ordered(spans, end) && (pos >= end || pos < 0)
    ensures Context(spans, pos) == Code
  {
    if spans != [] {
      ContextBeyond(spans[1..], end, pos);
    }
  }

  // ---- the invariant of the scan ---------------------------------------------------------

  ghost predicate OpenedAt(spans: seq<Span>, i: int) { exists k :: 0 <= k < |spans| && spans[k].start == i }

  /** The spans say about every position before i what the automaton says, one span per opening. */
  ghost predicate Agrees(line: string, directive: string -> bool, spans: seq<Span>, i: nat) {
    && (forall p :: 0 <= p < i ==> Context(spans, p) == Label(line, p, directive))
    && (forall p :: 0 <= p < i ==> (OpenedAt(spans, p) <==> Opens(line, p, directive)))
  }

  /** Where the scan may stand: at code, at the end, or one past the end in an escape. */
  ghost predicate Stands(line: string, directive: string -> bool, i: nat) {
    if i < |line| then StateAt(line, i, directive) == InCode
    else if i == |line| then !StateAt(line, i, directive).Escaped?
    else i == |line| + 1 && StateAt(line, |line|, directive).Escaped?
  }

  ghost predicate Scanned(line: string, directive: string -> bool, spans: seq<Span>, i: nat) {
    Stands(line, directive, i) && Ordered(spans, i) && Agrees(line, directive, spans, i)
  }

  lemma SkipCode(line: string, directive: string -> bool, spans: seq<Span>, i: nat)
    requires i < |line| && Scanned(line, directive, spans, i) && Label(line, i, directive) == Code
    ensures Scanned(line, directive, spans, i + 1)
  {
    hide Context;
    assert StateAt(line, i + 1, directive) == Step(InCode, line, i, directive);
    ContextBeyond(spans, i, i);
  }

  lemma AddSpan(line: string, directive: string -> bool, spans: seq<Span>, i: nat, j: nat, kind: Kind)
    requires i < |line| && i < j && Scanned(line, directive, spans, i) && Stands(line, directive, j)
    requires kind != Code && forall p :: i <= p < j ==> Label(line, p, directive) == kind
    requires forall p :: i < p < j && p < |line| ==> StateAt(line, p, directive) != InCode
    ensures Scanned(line, directive, spans + [Span(i, j, kind)], j)
  {
    hide Context, Label, StateAt;
    var s := Span(i, j, kind);
    var all := spans + [s];
    forall p | 0 <= p < j
      ensures Context(all, p) == Label(line, p, directive)
    {
      ContextAppend(spans, s, i, p);
    }
    forall p | 0 <= p < j
      ensures OpenedAt(all, p) <==> Opens(line, p, directive)
    {
      OpenedAppend(spans, s, i, p);
    }
  }

  lemma OpenedAppend(spans: seq<Span>, s: Span, end: int, p: int)
    requires Ordered(spans, end)
    ensures OpenedAt(spans + [s], p) <==> OpenedAt(spans, p) || p == s.start
    ensures p >= end ==> !OpenedAt(spans, p)
  {
    var all := spans + [s];
    if OpenedAt(spans, p) {
      var k :| 0 <= k < |spans| && spans[k].start == p;
      assert all[k] == spans[k];
    }
    if p == s.start { assert all[|spans|].start == p; }
  }

  // ---- the three kinds of jump --------------------------------------------------------------

  lemma {:induction false} LineStates(line: string, directive: string -> bool, i: nat, p: nat)
    requires i < |line| && StateAt(line, i, directive) == InCode && Step(InCode, line, i, directive) == InLine
    requires i < p <= |line|
    ensures StateAt(line, p, directive) == InLine
  {
    if p > i + 1 {
      LineStates(line, directive, i, p - 1);
    }
  }

  predicate CloseAt(line: string, k: int) { At(line, k, '*') && At(line, k + 1, '/') }

  lemma {:induction false} BlockStates(line: string, directive: string -> bool, i: nat, p: nat)
    requires i < |line| && StateAt(line, i, directive) == InCode && Step(InCode, line, i, directive) == Opening
    requires i + 2 <= p <= |line| && NoClose(line, i + 2, p)
    ensures StateAt(line, i + 1, directive) == Opening && StateAt(line, p, directive) == InBlock
  {
    assert StateAt(line, i + 1, directive) == Opening;
    if p > i + 2 {
      BlockStates(line, directive, i, p - 1);
      assert !CloseAt(line, p - 1);
    }
  }

  ghost predicate NoClose(line: string, from: int, to: int) { forall k :: from <= k < to ==> !CloseAt(line, k) }

  /** `end` is behind the first closing pair at or after `from`. */
  ghost predicate Closes(line: string, from: int, end: int) {
    end >= from + 2 && CloseAt(line, end - 2) && NoClose(line, from, end - 2)
  }

  /** Behind the first closing pair from here on, or the end of the line. */
  method FindClose(line: string, from: nat) returns (end: nat)
    requires from <= |line|
    ensures from <= end <= |line|
    ensures Closes(line, from, end) || (end == |line| && NoClose(line, from, end))
  {
    end := from;
    while end < |line|
      invariant from <= end <= |line| && NoClose(line, from, end)
    {
      if line[end] == '*' && end + 1 < |line| && line[end + 1] == '/' { return end + 2; }
      end := end + 1;
    }
  }

  lemma BlockSpan(line: string, directive: string -> bool, i: nat, end: nat)
    requires i < |line| && StateAt(line, i, directive) == InCode && Step(InCode, line, i, directive) == Opening
    requires i + 2 <= end <= |line|
    requires Closes(line, i + 2, end) || (end == |line| && NoClose(line, i + 2, end))
    ensures Stands(line, directive, end)
    ensures forall p :: i <= p < end ==> Label(line, p, directive) == Comment
    ensures forall p :: i < p < end ==> StateAt(line, p, directive) != InCode
  {
    var closed := Closes(line, i + 2, end);
    var stop := if closed then end - 2 else end;
    forall p | i < p < end
      ensures KindOf(StateAt(line, p, directive)) == Comment
    {
      BlockStates(line, directive, i, if p < i + 2 then i + 2 else if p <= stop then p else stop);
    }
    BlockStates(line, directive, i, stop);
    if closed {
      assert StateAt(line, end - 1, directive) == Closing;
      assert StateAt(line, end, directive) == InCode;
    }
  }

  /** Positions i+1 up to j are inside the string that opens at i. */
  ghost predicate Inside(line: string, directive: string -> bool, i: nat, j: nat, q: char) {
    && i < j <= |line| + 1
    && forall p :: i < p < j && p <= |line| ==> StateAt(line, p, directive) in {InString(q), Escaped(q)}
  }

  /** Behind the closing quote or at the end of the line. */
  method StringEnd(line: string, i: nat, ghost directive: string -> bool) returns (j: nat)
    requires i < |line| && StateAt(line, i, directive) == InCode
    requires Step(InCode, line, i, directive) == InString(line[i])
    ensures Inside(line, directive, i, j, line[i]) && Stands(line, directive, j)
  {
    var quote := line[i];
    j := i + 1;
    while j < |line|
      invariant Inside(line, directive, i, j, quote)
      invariant j <= |line| ==> StateAt(line, j, directive) == InString(quote)
      invariant j == |line| + 1 ==> StateAt(line, |line|, directive).Escaped?
      decreases |line| + 1 - j
    {
      assert StateAt(line, j + 1, directive) == Step(InString(quote), line, j, directive);
      if line[j] == '\\' {
        if j + 2 <= |line| {
          assert StateAt(line, j + 2, directive) == Step(Escaped(quote), line, j + 1, directive);
        }
        j := j + 2;
      } else if line[j] == quote {
        j := j + 1;
        break;
      } else {
        j := j + 1;
      }
    }
  }

  lemma StringLabels(line: string, directive: string -> bool, i: nat, j: nat)
    requires i < |line| && StateAt(line, i, directive) == InCode
    requires Step(InCode, line, i, directive) == InString(line[i])
    requires Inside(line, directive, i, j, line[i]) && Stands(line, directive, j)
    ensures forall p :: i <= p < j ==> Label(line, p, directive) == Str
    ensures forall p :: i < p < j && p < |line| ==> StateAt(line, p, directive) != InCode
  {
    hide StateAt;
    forall p | i <= p < j
      ensures Label(line, p, directive) == Str
    {
    }
  }

  // ---- token_contexts ---------------------------------------------------------------------------

  /** The spans are in order, non-empty, disjoint and end at most one past the line; they give every
      position the automaton's label, and there is one for each opening. */
  method TokenContexts(line: string, directive: string -> bool) returns (spans: seq<Span>)
    ensures Ordered(spans, |line| + 1)
    ensures forall pos :: Context(spans, pos) == Label(line, pos, directive)
    ensures forall i :: OpenedAt(spans, i) <==> Opens(line, i, directive)
  {
    hide Context, Label, Agrees, Inside, Ordered;
    spans := [];
    var i, n := 0, |line|;
    NothingScanned(line, directive);
    while i < n
      invariant Scanned(line, directive, spans, i)
      decreases n + 1 - i
    {
      var ch := line[i];
      LabelOfCode(line, directive, i);
      if ch == '/' && i + 1 < n && line[i + 1] == '/' {
        LineSpan(line, directive, spans, i);
        spans := spans + [Span(i, n, Comment)];
        i := n;
        break;
      }
      if ch == '/' && i + 1 < n && line[i + 1] == '*' {
        var end := FindClose(line, i + 2);
        BlockSpan(line, directive, i, end);
        AddSpan(line, directive, spans, i, end, Comment);
        spans := spans + [Span(i, end, Comment)];
        i := end;
        continue;
      }
      if ch == '"' || ch == '\'' {
        var j := StringEnd(line, i, directive);
        StringLabels(line, directive, i, j);
        InsideAdvances(line, directive, i, j, ch);
        AddSpan(line, directive, spans, i, j, Str);
        spans := spans + [Span(i, j, Str)];
        i := j;
        continue;
      }
      if ch == '#' {
        if !directive(line[i + 1..]) {
          LineSpan(line, directive, spans, i);
          spans := spans + [Span(i, n, Comment)];
          i := n;
          break;
        }
      }
      SkipCode(line, directive, spans, i);
      i := i + 1;
    }
    Finished(line, directive, spans, i);
  }

  lemma NothingScanned(line: string, directive: string -> bool)
    ensures Scanned(line, directive, [], 0)
  {
  }

  lemma LabelOfCode(line: string, directive: string -> bool, i: nat)
    requires i < |line| && StateAt(line, i, directive) == InCode
    ensures Label(line, i, directive) == KindOf(Step(InCode, line, i, directive))
  {
  }

  lemma InsideAdvances(line: string, directive: string -> bool, i: nat, j: nat, q: char)
    requires Inside(line, directive, i, j, q)
    ensures i < j
  {
  }

  lemma LineSpan(line: string, directive: string -> bool, spans: seq<Span>, i: nat)
    requires i < |line| && Scanned(line, directive, spans, i) && Step(InCode, line, i, directive) == InLine
    ensures Scanned(line, directive, spans + [Span(i, |line|, Comment)], |line|)
  {
    hide Agrees, Ordered, Context;
    forall p | i < p <= |line|
      ensures StateAt(line, p, directive) == InLine
    {
      LineStates(line, directive, i, p);
    }
    AddSpan(line, directive, spans, i, |line|, Comment);
  }

  lemma Finished(line: string, directive: string -> bool, spans: seq<Span>, i: nat)
    requires Scanned(line, directive, spans, i) && i >= |line|
    ensures Ordered(spans, |line| + 1)
    ensures forall pos :: Context(spans, pos) == Label(line, pos, directive)
    ensures forall p :: OpenedAt(spans, p) <==> Opens(line, p, directive)
  {
    hide Context, StateAt;
    forall pos
      ensures Context(spans, pos) == Label(line, pos, directive)
    {
      if pos < 0 || pos >= i { ContextBeyond(spans, i, pos); }
    }
    forall p
      ensures OpenedAt(spans, p) <==> Opens(line, p, directive)
    {
      OpenedAppend(spans, Span(i, i + 1, Str), i, p);
    }
  }

  // ---- on the three kinds of span ----------------------------------------------------------------

  /** A text in quotes of either kind, without that quote and without a backslash: it is a string up to
      the closing quote, whatever else stands in it, and code goes on behind it. */
  lemma QuotedText(line: string, directive: string -> bool, i: nat, j: nat, p: nat)
    requires i < j < |line| && StateAt(line, i, directive) == InCode
    requires (line[i] == '"' || line[i] == '\'') && line[j] == line[i]
    requires forall k :: i < k < j ==> line[k] != line[i] && line[k] != '\\'
    requires i <= p <= j
    ensures Label(line, p, directive) == Str && StateAt(line, j + 1, directive) == InCode
  {
    hide Label;
    QuotedState(line, directive, i, j, j);
    LabelOfCode(line, directive, i);
    if p > i {
      QuotedState(line, directive, i, j, p);
      LabelIs(line, directive, p);
    }
  }

  lemma {:induction false} QuotedState(line: string, directive: string -> bool, i: nat, j: nat, p: nat)
    requires i < j < |line| && StateAt(line, i, directive) == InCode && (line[i] == '"' || line[i] == '\'')
    requires forall k :: i < k < j ==> line[k] != line[i] && line[k] != '\\'
    requires i < p <= j
    ensures StateAt(line, p, directive) == InString(line[i])
  {
    if p > i + 1 {
      QuotedState(line, directive, i, j, p - 1);
    }
  }

  lemma LabelIs(line: string, directive: string -> bool, p: nat)
    requires p < |line| && StateAt(line, p, directive) != InCode
    ensures Label(line, p, directive) == KindOf(StateAt(line, p, directive))
  {
  }

  /** A backslash in a string takes the next character with it, also the quote. */
  lemma EscapedQuote(line: string, directive: string -> bool, i: nat, q: char)
    requires i + 1 < |line| && StateAt(line, i, directive) == InString(q) && line[i] == '\\'
    ensures Label(line, i, directive) == Str && Label(line, i + 1, directive) == Str
    ensures StateAt(line, i + 2, directive) == InString(q)
  {
    assert StateAt(line, i + 1, directive) == Escaped(q);
  }

  /** Two slashes in code make the rest of the line a comment, and so does a '#' that starts no directive. */
  lemma RestIsComment(line: string, directive: string -> bool, i: nat, p: nat)
    requires i <= p < |line| && StateAt(line, i, directive) == InCode
    requires (line[i] == '/' && i + 1 < |line| && line[i + 1] == '/') || (line[i] == '#' && !directive(line[i + 1..]))
    ensures Label(line, p, directive) == Comment
  {
    LabelOfCode(line, directive, i);
    if p > i { LineStates(line, directive, i, p); }
  }

  /** A slash and a star open a comment that ends with the first star and slash behind them. */
  lemma BlockIsComment(line: string, directive: string -> bool, i: nat, j: nat, p: nat)
    requires i + 2 <= j && j + 1 < |line| && StateAt(line, i, directive) == InCode
    requires line[i] == '/' && line[i + 1] == '*' && line[j] == '*' && line[j + 1] == '/'
    requires forall k :: i + 2 <= k < j ==> !(line[k] == '*' && line[k + 1] == '/')
    requires i <= p < j + 2
    ensures Label(line, p, directive) == Comment && StateAt(line, j + 2, directive) == InCode
  {
    hide Label;
    assert NoClose(line, i + 2, j);
    assert Closes(line, i + 2, j + 2);
    BlockSpan(line, directive, i, j + 2);
    BlockStates(line, directive, i, j);
    assert StateAt(line, j + 1, directive) == Closing;
  }

  /** Anything else in code is code. */
  lemma PlainCode(line: string, directive: string -> bool, i: nat)
    requires i < |line| && StateAt(line, i, directive) == InCode
    requires line[i] != '"' && line[i] != '\'' && (line[i] == '#' ==> directive(line[i + 1..]))
    requires line[i] == '/' && i + 1 < |line| ==> line[i + 1] != '/' && line[i + 1] != '*'
    ensures Label(line, i, directive) == Code && StateAt(line, i + 1, directive) == InCode
  {
    LabelOfCode(line, directive, i);
  }
}
