/** What the emitted code does: a packer that appends tokens, an unpacker that takes them off again
    (src/engine/shared/packer.cpp), and the order of checks in SecureUnpackMsg (datasrc/compile.py). */
module NetProtocol {
  import opened Bytes
  import opened NetVariables

  datatype Value = Int(i: int) | Text(s: string)
  type Struct = map<Slot, Value>
  type Sanitizer = (Mode, string) -> string

  // ---- packing ------------------------------------------------------------------------

  function Sent(i: Instr, m: Struct): seq<Value> {
    match i
    case AddInt(slot) => if slot in m then [m[slot]] else []
    case AddString(slot) => if slot in m then [m[slot]] else []
    case _ => []
  }

  function RunPack(code: seq<Instr>, m: Struct): seq<Value> {
    if code == [] then [] else RunPack(code[..|code| - 1], m) + Sent(code[|code| - 1], m)
  }

  // ---- unpacking ----------------------------------------------------------------------

  datatype Unpacker = Unpacker(queue: seq<Value>, error: bool)

  /** An error sticks; an empty queue, or a token of the other kind, is an error. */
  function GetInt(u: Unpacker): (Unpacker, int) {
    if u.error then (u, 0)
    else if u.queue == [] || u.queue[0].Text? then (u.(error := true), 0)
    else (u.(queue := u.queue[1..]), u.queue[0].i)
  }

  function GetIntOrDefault(u: Unpacker, default: int): (Unpacker, int) {
    if u.error then (u, 0)
    else if u.queue == [] then (u, default)
    else GetInt(u)
  }

  function GetString(u: Unpacker, mode: Mode, sanitize: Sanitizer): (Unpacker, string) {
    if u.error then (u, "")
    else if u.queue == [] || u.queue[0].Int? then (u.(error := true), "")
    else (u.(queue := u.queue[1..]), sanitize(mode, u.queue[0].s))
  }

  /** The unpacker and the buffer the struct lives in. */
  datatype Machine = Machine(unpacker: Unpacker, data: Struct)

  function Read(i: Instr, s: Machine, sanitize: Sanitizer): Machine {
    match i
    case ReadInt(slot) =>
      var (u, v) := GetInt(s.unpacker);
      Machine(u, s.data[slot := Int(v)])
    case ReadIntOrDefault(slot, default) =>
      var (u, v) := GetIntOrDefault(s.unpacker, default);
      Machine(u, s.data[slot := Int(v)])
    case ReadString(slot, mode) =>
      var (u, v) := GetString(s.unpacker, mode, sanitize);
      Machine(u, s.data[slot := Text(v)])
    case _ => s
  }

  function RunUnpack(code: seq<Instr>, s: Machine, sanitize: Sanitizer): Machine {
    if code == [] then s
    else Read(code[|code| - 1], RunUnpack(code[..|code| - 1], s, sanitize), sanitize)
  }

  function Fails(i: Instr, data: Struct): Option<Slot> {
    match i
    case FailUnless(slot, min, max) =>
      if slot in data && data[slot].Int? && (data[slot].i < min || data[slot].i > max) then Some(slot) else None
    case _ => None
  }

  /** The checks break off at the first failure. */
  function RunChecks(code: seq<Instr>, data: Struct): Option<Slot> {
    if code == [] then None
    else
      var earlier := RunChecks(code[..|code| - 1], data);
      if earlier.Some? then earlier else Fails(code[|code| - 1], data)
  }

  datatype Outcome = Failed(on: Failure) | Delivered(data: Struct)
  datatype Failure = OutOfRange(slot: Slot) | UnpackError

  /** SecureUnpackMsg: all reads, then all checks; an unpacker error outranks a failed check. */
  function Receive(reads_: seq<Instr>, checks: seq<Instr>, queue: seq<Value>, before: Struct,
          sanitize: Sanitizer): Outcome {
    var s := RunUnpack(reads_, Machine(Unpacker(queue, false), before), sanitize);
    var failed := RunChecks(checks, s.data);
    if s.unpacker.error then Failed(UnpackError)
    else if failed.Some? then Failed(OutOfRange(failed.value))
    else Delivered(s.data)
  }

  // ---- what a definition promises ---------------------------------------------------------

  predicate Distinct(fields: seq<Field>) {
    forall i, j :: 0 <= i < j < |fields| ==> fields[i].slot != fields[j].slot
  }

  predicate TypedAt(f: Field, m: Struct) { f.slot in m && (f.kind.TextKind? <==> m[f.slot].Text?) }

  predicate Typed(fields: seq<Field>, m: Struct) { forall j :: 0 <= j < |fields| ==> TypedAt(fields[j], m) }

  /** The tokens of a message: its values in declaration and index order. */
  function Tokens(fields: seq<Field>, m: Struct): (r: seq<Value>)
    requires Typed(fields, m)
    ensures |r| == |fields| && forall j :: 0 <= j < |r| ==> r[j] == m[fields[j].slot]
  {
    seq(|fields|, j requires 0 <= j < |fields| => assert TypedAt(fields[j], m); m[fields[j].slot])
  }

  lemma {:induction false} PackSends(fields: seq<Field>, m: Struct)
    requires Typed(fields, m)
    ensures RunPack(Code(Pack, fields), m) == Tokens(fields, m)
  {
    hide Typed, CodeOf, RunPack, Code;
    if fields == [] {
      NothingSent(m);
    } else {
      var n := |fields| - 1;
      TypedPrefix(fields, m, n);
      PackSends(fields[..n], m);
      assert fields == fields[..n] + [fields[n]];
      CodePush(Pack, fields[..n], fields[n]);
      SendOne(Code(Pack, fields[..n]), fields[n], m);
      assert Tokens(fields, m) == Tokens(fields[..n], m) + [m[fields[n].slot]];
    }
  }

  lemma NothingSent(m: Struct)
    ensures RunPack(Code(Pack, []), m) == []
  {
  }

  lemma TypedPrefix(fields: seq<Field>, m: Struct, n: nat)
    requires Typed(fields, m) && n < |fields|
    ensures Typed(fields[..n], m) && TypedAt(fields[n], m)
  {
  }

  lemma SendOne(code: seq<Instr>, f: Field, m: Struct)
    requires TypedAt(f, m)
    ensures RunPack(code + CodeOf(Pack, f), m) == RunPack(code, m) + [m[f.slot]]
  {
    var all := code + CodeOf(Pack, f);
    assert |CodeOf(Pack, f)| == 1 && all[..|code|] == code && all[|code|] == CodeOf(Pack, f)[0];
  }

  /** The value a field ends up with: what was sent, sanitised, or the default where nothing was sent. */
  function Arrives(f: Field, m: Struct, sent: bool, sanitize: Sanitizer): Value
    requires if sent then TypedAt(f, m) else f.HasDefault()
  {
    if !sent then Int(f.kind.default.value)
    else
      match f.kind
      case TextKind(mode, _) => Text(sanitize(mode, m[f.slot].s))
      case IntKind(_, _) => m[f.slot]
  }

  /** Field j has a value: it is among the first k, or has a default. */
  predicate HasValue(fields: seq<Field>, k: nat, j: int) { 0 <= j < |fields| && (j < k || fields[j].HasDefault()) }

  function ValueOf(fields: seq<Field>, m: Struct, k: nat, j: int, sanitize: Sanitizer): Value
    requires Typed(fields, m) && HasValue(fields, k, j)
  {
    assert TypedAt(fields[j], m);
    Arrives(fields[j], m, j < k, sanitize)
  }

  predicate OutOfRangeAt(fields: seq<Field>, m: Struct, k: nat, j: int, sanitize: Sanitizer)
    requires Typed(fields, m) && HasValue(fields, k, j)
  {
    var kind := fields[j].kind;
    && kind.IntKind? && kind.range.Some?
    && !(kind.range.value.0 <= ValueOf(fields, m, k, j, sanitize).i <= kind.range.value.1)
  }

  // ---- reading back --------------------------------------------------------------------------

  lemma ReadOne(code: seq<Instr>, f: Field, s: Machine, sanitize: Sanitizer)
    ensures RunUnpack(code + CodeOf(Unpack, f), s, sanitize) ==
            Read(CodeOf(Unpack, f)[0], RunUnpack(code, s, sanitize), sanitize)
  {
    var all := code + CodeOf(Unpack, f);
    assert |CodeOf(Unpack, f)| == 1 && all[..|code|] == code && all[|code|] == CodeOf(Unpack, f)[0];
  }

  /** The state after the reads of the first j fields, with k tokens sent and `extra` behind them. */
  ghost predicate ReadSoFar(fields: seq<Field>, m: Struct, k: nat, extra: seq<Value>, j: nat, s: Machine,
          sanitize: Sanitizer)
    requires Typed(fields, m) && k <= |fields| && j <= |fields|
  {
    if exists i :: 0 <= i < j && !HasValue(fields, k, i) then s.unpacker.error
    else
      && !s.unpacker.error
      && s.unpacker.queue == (if j <= k then Tokens(fields, m)[j..k] + extra else [])
      && forall i :: 0 <= i < j ==> Holds(fields, m, k, i, s.data, sanitize)
  }

  ghost predicate Holds(fields: seq<Field>, m: Struct, k: nat, i: int, data: Struct, sanitize: Sanitizer)
    requires Typed(fields, m)
  {
    HasValue(fields, k, i) && fields[i].slot in data && data[fields[i].slot] == ValueOf(fields, m, k, i, sanitize)
  }

  lemma ReadSent(f: Field, m: Struct, s: Machine, tail: seq<Value>, sanitize: Sanitizer)
    requires TypedAt(f, m) && !s.unpacker.error && s.unpacker.queue == [m[f.slot]] + tail
    ensures Read(CodeOf(Unpack, f)[0], s, sanitize) ==
            Machine(Unpacker(tail, false), s.data[f.slot := Arrives(f, m, true, sanitize)])
  {
  }

  lemma ReadMissing(f: Field, m: Struct, s: Machine, sanitize: Sanitizer)
    requires s.unpacker.queue == []
    ensures s.unpacker.error || !f.HasDefault() ==> Read(CodeOf(Unpack, f)[0], s, sanitize).unpacker.error
    ensures !s.unpacker.error && f.HasDefault() ==>
              Read(CodeOf(Unpack, f)[0], s, sanitize) ==
              Machine(Unpacker([], false), s.data[f.slot := Arrives(f, m, false, sanitize)])
  {
  }

  lemma ReadAfterError(f: Field, s: Machine, sanitize: Sanitizer)
    requires s.unpacker.error
    ensures Read(CodeOf(Unpack, f)[0], s, sanitize).unpacker.error
  {
  }

  lemma {:induction false} ReadsBack(fields: seq<Field>, m: Struct, k: nat, extra: seq<Value>, j: nat, before: Struct,
                                     sanitize: Sanitizer)
    requires Typed(fields, m) && Distinct(fields) && k <= |fields| && j <= |fields|
    requires k < |fields| ==> extra == []
    ensures ReadSoFar(fields, m, k, extra, j,
                      RunUnpack(Code(Unpack, fields[..j]),
                                Machine(Unpacker(Tokens(fields, m)[..k] + extra, false), before), sanitize), sanitize)
  {
    hide CodeOf, Read, Arrives;
    var start := Machine(Unpacker(Tokens(fields, m)[..k] + extra, false), before);
    if j == 0 {
      assert Tokens(fields, m)[0..k] == Tokens(fields, m)[..k];
    } else {
      var i, f := j - 1, fields[j - 1];
      ReadsBack(fields, m, k, extra, i, before, sanitize);
      assert fields[..j] == fields[..i] + [f];
      CodePush(Unpack, fields[..i], f);
      ReadOne(Code(Unpack, fields[..i]), f, start, sanitize);
      ReadStep(fields, m, k, extra, i, RunUnpack(Code(Unpack, fields[..i]), start, sanitize), sanitize);
    }
  }

  lemma ReadStep(fields: seq<Field>, m: Struct, k: nat, extra: seq<Value>, i: nat, s: Machine, sanitize: Sanitizer)
    requires Typed(fields, m) && Distinct(fields) && k <= |fields| && i < |fields|
    requires k < |fields| ==> extra == []
    requires ReadSoFar(fields, m, k, extra, i, s, sanitize)
    ensures ReadSoFar(fields, m, k, extra, i + 1, Read(CodeOf(Unpack, fields[i])[0], s, sanitize), sanitize)
  {
    hide CodeOf, Read, Arrives, Distinct, Typed;
    var f := fields[i];
    if e :| 0 <= e < i && !HasValue(fields, k, e) {
      ReadAfterError(f, s, sanitize);
    } else if i < k {
      var tail := Tokens(fields, m)[i + 1..k] + extra;
      TypedField(fields, m, i);
      assert Tokens(fields, m)[i..k] + extra == [m[f.slot]] + tail;
      ReadSent(f, m, s, tail, sanitize);
      Stored(fields, m, k, i, s.data, s.data[f.slot := Arrives(f, m, true, sanitize)], sanitize);
    } else {
      assert i == k ==> Tokens(fields, m)[i..k] + extra == [];
      ReadMissing(f, m, s, sanitize);
      assert HasValue(fields, k, i) <==> f.HasDefault();
      if f.HasDefault() {
        Stored(fields, m, k, i, s.data, s.data[f.slot := Arrives(f, m, false, sanitize)], sanitize);
      }
    }
  }

  lemma TypedField(fields: seq<Field>, m: Struct, i: nat)
    requires Typed(fields, m) && i < |fields|
    ensures TypedAt(fields[i], m)
  {
  }

  /** Writing field i leaves the earlier ones alone. */
  lemma Stored(fields: seq<Field>, m: Struct, k: nat, i: nat, data: Struct, data': Struct, sanitize: Sanitizer)
    requires Typed(fields, m) && Distinct(fields) && HasValue(fields, k, i)
    requires forall e :: 0 <= e < i ==> Holds(fields, m, k, e, data, sanitize)
    requires data' == data[fields[i].slot := ValueOf(fields, m, k, i, sanitize)]
    ensures forall e :: 0 <= e <= i ==> Holds(fields, m, k, e, data', sanitize)
  {
    hide ValueOf, Typed;
    forall e | 0 <= e <= i
      ensures Holds(fields, m, k, e, data', sanitize)
    {
      if e < i { assert Holds(fields, m, k, e, data, sanitize); }
    }
  }

  // ---- checking -------------------------------------------------------------------------------

  predicate Bad(f: Field, data: Struct) {
    && f.kind.IntKind? && f.kind.range.Some? && f.slot in data && data[f.slot].Int?
    && !(f.kind.range.value.0 <= data[f.slot].i <= f.kind.range.value.1)
  }

  lemma CheckOne(code: seq<Instr>, f: Field, data: Struct)
    ensures RunChecks(code + CodeOf(Check, f), data) ==
            if RunChecks(code, data).Some? then RunChecks(code, data) else if Bad(f, data) then Some(f.slot) else None
  {
    var all := code + CodeOf(Check, f);
    if CodeOf(Check, f) == [] {
      assert all == code;
    } else {
      assert |CodeOf(Check, f)| == 1 && all[..|code|] == code && all[|code|] == CodeOf(Check, f)[0];
    }
  }

  ghost predicate FirstBad(fields: seq<Field>, data: Struct, j: int) {
    0 <= j < |fields| && Bad(fields[j], data) && forall i :: 0 <= i < j ==> !Bad(fields[i], data)
  }

  /** The checks name the first bad field in declaration and index order, if there is one. */
  lemma {:induction false} ChecksNameFirst(fields: seq<Field>, data: Struct)
    ensures (forall j :: 0 <= j < |fields| ==> !Bad(fields[j], data)) ==> RunChecks(Code(Check, fields), data) == None
    ensures forall j :: FirstBad(fields, data, j) ==> RunChecks(Code(Check, fields), data) == Some(fields[j].slot)
  {
    hide CodeOf, Bad;
    if fields != [] {
      var n := |fields| - 1;
      var front, f := fields[..n], fields[n];
      ChecksNameFirst(front, data);
      CheckOne(Code(Check, front), f, data);
      forall j | FirstBad(fields, data, j)
        ensures RunChecks(Code(Check, fields), data) == Some(fields[j].slot)
      {
        if j < n { assert FirstBad(front, data, j); }
      }
    }
  }

  // ---- the protocol -----------------------------------------------------------------------------

  ghost predicate FirstOutOfRange(fields: seq<Field>, m: Struct, k: nat, j: int, sanitize: Sanitizer)
    requires Typed(fields, m) && forall i :: 0 <= i < |fields| ==> HasValue(fields, k, i)
  {
    && 0 <= j < |fields| && OutOfRangeAt(fields, m, k, j, sanitize)
    && forall i :: 0 <= i < j ==> !OutOfRangeAt(fields, m, k, i, sanitize)
  }

  /** Receiving the first k tokens of a packed message, or all of them and anything behind.
      A missing field without a default is an unpack error, whatever the checks say. Otherwise the
      message arrives, sanitised and completed with defaults, if every ranged field is in range, and
      else the failure names the first one that is not, in declaration and index order. */
  lemma PackThenUnpack(fields: seq<Field>, m: Struct, k: nat, extra: seq<Value>, before: Struct, sanitize: Sanitizer)
    requires Typed(fields, m) && Distinct(fields) && k <= |fields|
    requires k < |fields| ==> extra == []
    ensures |RunPack(Code(Pack, fields), m)| == |fields|
    ensures var queue := RunPack(Code(Pack, fields), m)[..k] + extra;
            var r := Receive(Code(Unpack, fields), Code(Check, fields), queue, before, sanitize);
            if exists i :: 0 <= i < |fields| && !HasValue(fields, k, i) then r == Failed(UnpackError)
            else
              && ((forall j :: 0 <= j < |fields| ==> !OutOfRangeAt(fields, m, k, j, sanitize)) ==>
                    r.Delivered? && forall j :: 0 <= j < |fields| ==> Holds(fields, m, k, j, r.data, sanitize))
              && (forall j :: FirstOutOfRange(fields, m, k, j, sanitize) ==> r == Failed(OutOfRange(fields[j].slot)))
  {
    hide CodeOf, Read, ValueOf, Distinct, Typed, RunChecks, RunUnpack, RunPack;
    PackSends(fields, m);
    ReadsBack(fields, m, k, extra, |fields|, before, sanitize);
    assert fields[..|fields|] == fields;
    var s := RunUnpack(Code(Unpack, fields), Machine(Unpacker(Tokens(fields, m)[..k] + extra, false), before),
        sanitize);
    ChecksNameFirst(fields, s.data);
    if forall i :: 0 <= i < |fields| ==> HasValue(fields, k, i) {
      forall j | 0 <= j < |fields|
        ensures Bad(fields[j], s.data) <==> OutOfRangeAt(fields, m, k, j, sanitize)
      {
        assert Holds(fields, m, k, j, s.data, sanitize);
        BadIsOutOfRange(fields, m, k, j, s.data, sanitize);
      }
      forall j | FirstOutOfRange(fields, m, k, j, sanitize)
        ensures FirstBad(fields, s.data, j)
      {
      }
    }
  }

  lemma BadIsOutOfRange(fields: seq<Field>, m: Struct, k: nat, j: int, data: Struct, sanitize: Sanitizer)
    requires Typed(fields, m) && Holds(fields, m, k, j, data, sanitize)
    ensures Bad(fields[j], data) <==> OutOfRangeAt(fields, m, k, j, sanitize)
  {
    TypedField(fields, m, j);
  }

  // ---- whole messages ------------------------------------------------------------------------------

  predicate Sanitised(f: Field, m: Struct, sanitize: Sanitizer)
    requires TypedAt(f, m)
  {
    f.kind.TextKind? ==> sanitize(f.kind.mode, m[f.slot].s) == m[f.slot].s
  }

  predicate InRange(f: Field, m: Struct)
    requires TypedAt(f, m)
  {
    f.kind.IntKind? && f.kind.range.Some? ==> f.kind.range.value.0 <= m[f.slot].i <= f.kind.range.value.1
  }

  ghost predicate Same(fields: seq<Field>, m: Struct, data: Struct) {
    forall j :: 0 <= j < |fields| ==>
        fields[j].slot in m && fields[j].slot in data && data[fields[j].slot] == m[fields[j].slot]
  }

  predicate Clean(f: Field, m: Struct, sanitize: Sanitizer) {
    TypedAt(f, m) && InRange(f, m) && Sanitised(f, m, sanitize)
  }

  /** Packing a message and unpacking it gives the message back exactly when its ranged fields are
      in range and its texts are sanitised already. */
  lemma RoundTrip(fields: seq<Field>, m: Struct, before: Struct, sanitize: Sanitizer)
    requires Typed(fields, m) && Distinct(fields)
    ensures var r := Receive(Code(Unpack, fields), Code(Check, fields), RunPack(Code(Pack, fields), m), before,
        sanitize);
            r.Delivered? && Same(fields, m, r.data) <==> forall j :: 0 <= j < |fields| ==> Clean(fields[j], m, sanitize)
  {
    hide Code, RunPack, Receive, Distinct, Typed, Clean;
    var n, p := |fields|, RunPack(Code(Pack, fields), m);
    PackThenUnpack(fields, m, n, [], before, sanitize);
    assert p[..n] + [] == p;
    assert forall j :: 0 <= j < n ==> HasValue(fields, n, j);
    SomeFirst(fields, m, n, sanitize);
    var r := Receive(Code(Unpack, fields), Code(Check, fields), p, before, sanitize);
    forall j | 0 <= j < n
      ensures Clean(fields[j], m, sanitize) ==> !OutOfRangeAt(fields, m, n, j, sanitize)
      ensures r.Delivered? ==> Holds(fields, m, n, j, r.data, sanitize) && fields[j].slot in m
      ensures r.Delivered? ==> (r.data[fields[j].slot] == m[fields[j].slot] <==> Clean(fields[j], m, sanitize))
    {
      CleanIsUnchanged(fields, m, j, sanitize);
      if r.Delivered? { assert Holds(fields, m, n, j, r.data, sanitize); }
    }
  }

  lemma CleanIsUnchanged(fields: seq<Field>, m: Struct, j: nat, sanitize: Sanitizer)
    requires Typed(fields, m) && j < |fields|
    ensures HasValue(fields, |fields|, j) && TypedAt(fields[j], m)
    ensures Clean(fields[j], m, sanitize) <==>
            !OutOfRangeAt(fields, m, |fields|, j, sanitize)
                && ValueOf(fields, m, |fields|, j, sanitize) == m[fields[j].slot]
  {
    TypedField(fields, m, j);
  }

  ghost predicate Idempotent(sanitize: Sanitizer) {
    forall mode, s :: sanitize(mode, sanitize(mode, s)) == sanitize(mode, s)
  }

  /** What a receiver accepted, it can send on: the second receiver gets the same message. */
  lemma Forwarded(fields: seq<Field>, m: Struct, before: Struct, before': Struct, sanitize: Sanitizer)
    requires Typed(fields, m) && Distinct(fields) && Idempotent(sanitize)
    requires Receive(Code(Unpack, fields), Code(Check, fields), RunPack(Code(Pack, fields), m), before,
        sanitize).Delivered?
    ensures var r := Receive(Code(Unpack, fields), Code(Check, fields), RunPack(Code(Pack, fields), m), before,
        sanitize);
            Typed(fields, r.data) &&
            var r' := Receive(Code(Unpack, fields), Code(Check, fields), RunPack(Code(Pack, fields), r.data),
                before', sanitize);
            r'.Delivered? && Same(fields, r.data, r'.data)
  {
    hide Code, RunPack, Receive, Distinct;
    var n, p := |fields|, RunPack(Code(Pack, fields), m);
    var r := Receive(Code(Unpack, fields), Code(Check, fields), p, before, sanitize);
    PackThenUnpack(fields, m, n, [], before, sanitize);
    assert p[..n] + [] == p;
    assert forall j :: 0 <= j < n ==> HasValue(fields, n, j);
    SomeFirst(fields, m, n, sanitize);
    assert forall j :: 0 <= j < n ==> !OutOfRangeAt(fields, m, n, j, sanitize);
    forall j | 0 <= j < n
      ensures TypedAt(fields[j], r.data) && Clean(fields[j], r.data, sanitize)
    {
      assert Holds(fields, m, n, j, r.data, sanitize);
      assert TypedAt(fields[j], m);
    }
    assert Typed(fields, r.data);
    RoundTrip(fields, r.data, before', sanitize);
  }

  /** Either every field is in range or there is a first one that is not. */
  lemma {:induction false} SomeFirst(fields: seq<Field>, m: Struct, k: nat, sanitize: Sanitizer)
    requires Typed(fields, m) && forall i :: 0 <= i < |fields| ==> HasValue(fields, k, i)
    ensures (forall j :: 0 <= j < |fields| ==> !OutOfRangeAt(fields, m, k, j, sanitize))
            || exists j :: FirstOutOfRange(fields, m, k, j, sanitize)
  {
    hide OutOfRangeAt, Typed;
    var j := 0;
    while j < |fields|
      invariant 0 <= j <= |fields| && forall i :: 0 <= i < j ==> !OutOfRangeAt(fields, m, k, i, sanitize)
    {
      if OutOfRangeAt(fields, m, k, j, sanitize) {
        assert FirstOutOfRange(fields, m, k, j, sanitize);
        return;
      }
      j := j + 1;
    }
  }
}
