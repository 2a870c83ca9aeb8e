/** Inherited members and validated objects: NetObject in datasrc/datatypes.py, SecureUnpackObj and
    ClampInt in datasrc/compile.py. */
module NetObjects {
  import opened Bytes
  import opened NetVariables
  import opened NetProtocol
  import Reach

  datatype NetObject = NetObject(name: string, base: Option<string>, variables: seq<Decl>)

  // ---- inheritance --------------------------------------------------------------------

  function Named(objects: seq<NetObject>, name: string): (r: seq<NetObject>)
    ensures forall o :: o in r ==> o in objects && o.name == name
  {
    if objects == [] then []
    else (if objects[0].name == name then [objects[0]] else []) + Named(objects[1..], name)
  }

  lemma NamedFirst(o: NetObject, rest: seq<NetObject>, name: string)
    ensures Named([o] + rest, name) == (if o.name == name then [o] else []) + Named(rest, name)
  {
    assert ([o] + rest)[1..] == rest;
  }

  /** only([i for i in objects if i.name == name]) */
  function Only(objects: seq<NetObject>, name: string): (r: Result<NetObject>)
    ensures r.Ok? ==> r.value in objects && r.value.name == name
  {
    var found := Named(objects, name);
    if |found| != 1 then Err(ValueError) else Ok(found[0])
  }

  /** The value of next_base_name after n passes of the loop; None once it has left the loop, at an
      object without a base or at a base that is missing or ambiguous. */
  function Ancestor(objects: seq<NetObject>, base: Option<string>, n: nat): Option<string>
    decreases n
  {
    if n == 0 || base.None? then base
    else if Only(objects, base.value).Err? then None
    else Ancestor(objects, Only(objects, base.value).value.base, n - 1)
  }

  /** The walk ends. */
  ghost predicate Ends(objects: seq<NetObject>, base: Option<string>) {
    exists n: nat :: Ancestor(objects, base, n).None?
  }

  /** None of the first names, one more than there are objects, comes twice. */
  predicate NoneTwice(objects: seq<NetObject>, base: Option<string>) {
    forall i, j :: 0 <= i < j <= |objects| && Ancestor(objects, base, i).Some? ==>
                     Ancestor(objects, base, i) != Ancestor(objects, base, j)
  }

  lemma {:induction false} AncestorAdd(objects: seq<NetObject>, base: Option<string>, i: nat, k: nat)
    ensures Ancestor(objects, base, i + k) == Ancestor(objects, Ancestor(objects, base, i), k)
    decreases i
  {
    hide Only;
    if i > 0 && base.Some? && Only(objects, base.value).Ok? {
      AncestorAdd(objects, Only(objects, base.value).value.base, i - 1, k);
    }
  }

  /** A name that comes twice comes again and again. */
  lemma {:induction false} Recurs(objects: seq<NetObject>, base: Option<string>, i: nat, p: nat, q: nat)
    requires Ancestor(objects, base, i) == Ancestor(objects, base, i + p)
    ensures Ancestor(objects, base, i + p * q) == Ancestor(objects, base, i)
  {
    hide Ancestor;
    if q > 0 {
      Recurs(objects, base, i, p, q - 1);
      assert i + p * q == (i + p * (q - 1)) + p;
      AncestorAdd(objects, base, i + p * (q - 1), p);
      AncestorAdd(objects, base, i, p);
    }
  }

  lemma EndedStays(objects: seq<NetObject>, base: Option<string>, n: nat, m: nat)
    requires Ancestor(objects, base, n).None? && n <= m
    ensures Ancestor(objects, base, m).None?
  {
    AncestorAdd(objects, base, n, m - n);
  }

  ghost function Names(objects: seq<NetObject>): set<string> { set k | 0 <= k < |objects| :: objects[k].name }

  lemma {:induction false} FewNames(objects: seq<NetObject>)
    ensures |Names(objects)| <= |objects|
  {
    if objects != [] {
      var n := |objects| - 1;
      FewNames(objects[..n]);
      assert Names(objects) == Names(objects[..n]) + {objects[n].name};
    }
  }

  /** A name that the walk gets past is the name of an object. */
  lemma PassedName(objects: seq<NetObject>, base: Option<string>, i: nat)
    requires Ancestor(objects, base, i + 1).Some?
    ensures Ancestor(objects, base, i).Some? && Ancestor(objects, base, i).value in Names(objects)
  {
    hide Only;
    AncestorAdd(objects, base, i, 1);
    var o := Only(objects, Ancestor(objects, base, i).value).value;
    var k :| 0 <= k < |objects| && objects[k] == o;
    assert objects[k].name in Names(objects);
  }

  /** The walk ends exactly when no name comes twice in as many steps as there are objects, and then
      within one step more. */
  lemma EndsExactly(objects: seq<NetObject>, base: Option<string>)
    ensures Ends(objects, base) <==> NoneTwice(objects, base)
    ensures Ends(objects, base) <==> Ancestor(objects, base, |objects| + 1).None?
  {
    hide Ancestor;
    var n := |objects|;
    if Ends(objects, base) {
      forall i, j | 0 <= i < j <= n && Ancestor(objects, base, i).Some?
        ensures Ancestor(objects, base, i) != Ancestor(objects, base, j)
      {
        if Ancestor(objects, base, i) == Ancestor(objects, base, j) { NeverEnds(objects, base, i, j - i); }
      }
    }
    if NoneTwice(objects, base) && Ancestor(objects, base, n + 1).Some? {
      RunsOut(objects, base);
    }
  }

  lemma NeverEnds(objects: seq<NetObject>, base: Option<string>, i: nat, p: nat)
    requires p > 0 && Ancestor(objects, base, i).Some? && Ancestor(objects, base, i) == Ancestor(objects, base, i + p)
    ensures !Ends(objects, base)
  {
    hide Ancestor;
    forall m: nat
      ensures Ancestor(objects, base, m).Some?
    {
      Recurs(objects, base, i, p, m);
      assert p * m >= m;
      if Ancestor(objects, base, m).None? { EndedStays(objects, base, m, i + p * m); }
    }
  }

  lemma RunsOut(objects: seq<NetObject>, base: Option<string>)
    requires Ancestor(objects, base, |objects| + 1).Some?
    ensures !NoneTwice(objects, base)
  {
    hide Ancestor, Names;
    var n := |objects|;
    forall i | 0 <= i <= n
      ensures Ancestor(objects, base, i).Some? && Ancestor(objects, base, i).value in Names(objects)
    {
      if Ancestor(objects, base, i + 1).None? { EndedStays(objects, base, i + 1, n + 1); }
      PassedName(objects, base, i);
    }
    var p := seq(n + 1, i requires 0 <= i <= n => Ancestor(objects, base, i).value);
    FewNames(objects);
    var i, j := Reach.Repeats(p, Names(objects));
    assert Ancestor(objects, base, i) == Ancestor(objects, base, j);
  }

  /** The members of the object called `base`, if the walk from it takes n steps at most: first those
      of its own base, then its variables. */
  function MembersOf(objects: seq<NetObject>, base: Option<string>, n: nat): Result<seq<Decl>>
    requires Ancestor(objects, base, n).None?
    decreases n
  {
    if base.None? then Ok([]) else
    var b :- Only(objects, base.value);
    var inherited :- MembersOf(objects, b.base, n - 1);
    Ok(inherited + b.variables)
  }

  lemma {:induction false} EnoughSteps(objects: seq<NetObject>, base: Option<string>, n: nat, m: nat)
    requires Ancestor(objects, base, n).None? && Ancestor(objects, base, m).None?
    ensures MembersOf(objects, base, n) == MembersOf(objects, base, m)
    decreases n
  {
    hide Only;
    if base.Some? && Only(objects, base.value).Ok? {
      EnoughSteps(objects, Only(objects, base.value).value.base, n - 1, m - 1);
    }
  }

  /** The members above and including the object called `base`. */
  function Inherited(objects: seq<NetObject>, base: Option<string>): Result<seq<Decl>>
    requires NoneTwice(objects, base)
  {
    EndsExactly(objects, base);
    MembersOf(objects, base, |objects| + 1)
  }

  function Behind(r: Result<seq<Decl>>, own: seq<Decl>): Result<seq<Decl>> {
    match r
    case Ok(v) => Ok(v + own)
    case Err(e) => Err(e)
  }

  /** Walks up the bases, putting each one's variables in front. It asks for exactly what the walk
      needs to end; what other objects have for bases does not matter. */
  method MembersFromThisAndParents(o: NetObject, objects: seq<NetObject>) returns (r: Result<seq<Decl>>)
    requires NoneTwice(objects, o.base)
    ensures r == Behind(Inherited(objects, o.base), o.variables)
  {
    hide Only, NoneTwice;
    var variables, next := o.variables, o.base;
    ghost var n: nat := |objects| + 1;
    EndsExactly(objects, o.base);
    ghost var whole := Behind(Inherited(objects, o.base), o.variables);
    while next.Some?
      invariant Ancestor(objects, next, n).None? && whole == Behind(MembersOf(objects, next, n), variables)
      decreases n
    {
      var item := Only(objects, next.value);
      if item.Err? { return Err(item.error); }
      BehindBehind(MembersOf(objects, item.value.base, n - 1), item.value.variables, variables);
      variables := item.value.variables + variables;
      next := item.value.base;
      n := n - 1;
    }
    r := Ok(variables);
    assert [] + variables == variables;
  }

  lemma BehindBehind(r: Result<seq<Decl>>, a: seq<Decl>, b: seq<Decl>)
    ensures Behind(Behind(r, a), b) == Behind(r, a + b)
  {
    if r.Ok? { assert r.value + a + b == r.value + (a + b); }
  }

  /** The code of a derived object is the code of its base followed by that of its own variables. */
  lemma DerivedExtendsBase(objects: seq<NetObject>, o: NetObject, pass: Pass)
    requires Only(objects, o.name) == Ok(o) && NoneTwice(objects, o.base) && Inherited(objects, o.base).Ok?
    ensures NoneTwice(objects, Some(o.name)) && Inherited(objects, Some(o.name)).Ok?
    ensures Code(pass, AllFields(Inherited(objects, Some(o.name)).value)) ==
            Code(pass, AllFields(Inherited(objects, o.base).value)) + Code(pass, AllFields(o.variables))
  {
    hide Code, AllFields, Only, NoneTwice;
    var n := |objects| + 1;
    EndsExactly(objects, o.base);
    assert Ancestor(objects, Some(o.name), n + 1).None?;
    EndsExactly(objects, Some(o.name));
    EnoughSteps(objects, Some(o.name), n, n + 1);
    var inherited := Inherited(objects, o.base).value;
    assert MembersOf(objects, Some(o.name), n + 1) == Ok(inherited + o.variables);
    AllFieldsAppend(inherited, o.variables);
    CodeAppend(pass, AllFields(inherited), AllFields(o.variables));
  }

  lemma ByName(o: NetObject, rest: seq<NetObject>)
    ensures forall name :: Named([o] + rest, name) == if o.name == name then [o] + Named(rest, name)
        else Named(rest, name)
    ensures forall name :: Named([], name) == []
  {
    forall name
      ensures Named([o] + rest, name) == if o.name == name then [o] + Named(rest, name) else Named(rest, name)
    {
      NamedFirst(o, rest, name);
      assert [] + Named(rest, name) == Named(rest, name);
    }
  }

  lemma {:induction false} NamedNone(objects: seq<NetObject>, name: string)
    requires forall k :: 0 <= k < |objects| ==> objects[k].name != name
    ensures Named(objects, name) == []
  {
    if objects != [] {
      NamedNone(objects[1..], name);
    }
  }

  /** An object whose name no other one has is found. */
  lemma {:induction false} FoundByName(objects: seq<NetObject>, k: nat)
    requires k < |objects| && forall j :: 0 <= j < |objects| && j != k ==> objects[j].name != objects[k].name
    ensures Named(objects, objects[k].name) == [objects[k]] && Only(objects, objects[k].name) == Ok(objects[k])
  {
    if k == 0 {
      NamedNone(objects[1..], objects[0].name);
    } else {
      FoundByName(objects[1..], k - 1);
    }
  }

  /** Two objects that name each other as base, among any others: the walk from either never ends. */
  lemma NamedByEachOther(objects: seq<NetObject>, a: string, b: string)
    requires Only(objects, a).Ok? && Only(objects, a).value.base == Some(b)
    requires Only(objects, b).Ok? && Only(objects, b).value.base == Some(a)
    ensures !Ends(objects, Some(a)) && !Ends(objects, Some(b))
  {
    hide Only, Ends;
    assert Ancestor(objects, Some(a), 2) == Ancestor(objects, Some(b), 1) == Some(a);
    assert Ancestor(objects, Some(b), 2) == Ancestor(objects, Some(a), 1) == Some(b);
    NeverEnds(objects, Some(a), 0, 2);
    NeverEnds(objects, Some(b), 0, 2);
  }

  /** Beside such a pair, the walk from an object derived from one without a base ends. */
  lemma CycleNeverEnds(a: string, b: string, p: string, q: string)
    requires a != b && p != q && p != a && p != b && q != a && q != b
    ensures var objects := [NetObject(a, Some(b), []), NetObject(b, Some(a), []), NetObject(p, None, []),
                            NetObject(q, Some(p), [])];
            !Ends(objects, Some(a)) && !Ends(objects, Some(b)) && Ends(objects, Some(q))
  {
    hide Only, Named;
    var objects := [NetObject(a, Some(b), []), NetObject(b, Some(a), []), NetObject(p, None, []),
    NetObject(q, Some(p), [])];
    FoundByName(objects, 0);
    FoundByName(objects, 1);
    FoundByName(objects, 2);
    FoundByName(objects, 3);
    NamedByEachOther(objects, a, b);
    TwoSteps(objects, p, q);
  }

  lemma TwoSteps(objects: seq<NetObject>, p: string, q: string)
    requires Only(objects, q).Ok? && Only(objects, q).value.base == Some(p)
    requires Only(objects, p).Ok? && Only(objects, p).value.base == None
    ensures Ends(objects, Some(q))
  {
    hide Only;
    assert Ancestor(objects, Some(q), 2) == Ancestor(objects, Some(p), 1) == None;
  }

  /** A name used twice ends the walk, even where following either bearer would lead round. */
  lemma TwinsEnd(a: string, b: string)
    requires a != b
    ensures var objects := [NetObject(a, Some(b), []), NetObject(a, Some(b), []), NetObject(b, Some(a), [])];
            NoneTwice(objects, Some(b)) && Inherited(objects, Some(b)) == Err(ValueError)
  {
    hide Named;
    var x, y := NetObject(a, Some(b), []), NetObject(b, Some(a), []);
    var objects := [x, x, y];
    ByName(x, [x, y]);
    ByName(x, [y]);
    ByName(y, []);
    assert objects == [x] + [x, y] && [x, y] == [x] + [y] && [y] == [y] + [];
    assert |Named(objects, a)| == 2 && Only(objects, b) == Ok(y);
    assert Ancestor(objects, Some(a), 1).None?;
    assert Ancestor(objects, Some(b), 2).None?;
    EndsExactly(objects, Some(b));
    EnoughSteps(objects, Some(b), 2, 4);
  }

  // ---- validation ----------------------------------------------------------------------

  function ClampInt(v: int, min: int, max: int): (r: int)
    ensures min <= max ==> min <= r <= max
    ensures min <= v <= max ==> r == v
    ensures v < min <= max ==> r == min
    ensures min <= max < v ==> r == max
  {
    if v < min then min else if v > max then max else v
  }

  function Clamped(i: Instr, data: Struct): Struct {
    match i
    case Clamp(slot, min, max) =>
      if slot in data && data[slot].Int? then data[slot := Int(ClampInt(data[slot].i, min, max))] else data
    case _ => data
  }

  function RunValidate(code: seq<Instr>, data: Struct): Struct {
    if code == [] then data else Clamped(code[|code| - 1], RunValidate(code[..|code| - 1], data))
  }

  /** SecureUnpackObj: all reads, then all clamps; only an unpacker error fails. */
  function ReceiveObj(reads_: seq<Instr>, clamps: seq<Instr>, queue: seq<Value>, before: Struct,
          sanitize: Sanitizer): Outcome {
    var s := RunUnpack(reads_, Machine(Unpacker(queue, false), before), sanitize);
    if s.unpacker.error then Failed(UnpackError) else Delivered(RunValidate(clamps, s.data))
  }

  function ClampedValue(f: Field, v: Value): Value {
    if f.kind.IntKind? && f.kind.range.Some? && v.Int?
    then Int(ClampInt(v.i, f.kind.range.value.0, f.kind.range.value.1))
    else v
  }

  lemma ClampOne(code: seq<Instr>, f: Field, data: Struct)
    requires f.slot in RunValidate(code, data)
    ensures var d := RunValidate(code, data);
            RunValidate(code + CodeOf(Validate, f), data) == d[f.slot := ClampedValue(f, d[f.slot])]
  {
    var all := code + CodeOf(Validate, f);
    if CodeOf(Validate, f) == [] {
      assert all == code;
    } else {
      assert |CodeOf(Validate, f)| == 1 && all[..|code|] == code && all[|code|] == CodeOf(Validate, f)[0];
    }
  }

  /** Every field is clamped once; the clamps of other fields do not touch it. */
  lemma {:induction false} ValidateClamps(fields: seq<Field>, data: Struct)
    requires Distinct(fields) && forall j :: 0 <= j < |fields| ==> fields[j].slot in data
    ensures RunValidate(Code(Validate, fields), data).Keys == data.Keys
    ensures forall j :: 0 <= j < |fields| ==>
              RunValidate(Code(Validate, fields), data)[fields[j].slot] == ClampedValue(fields[j], data[fields[j].slot])
    ensures forall slot :: slot in data && (forall j :: 0 <= j < |fields| ==> fields[j].slot != slot) ==>
              RunValidate(Code(Validate, fields), data)[slot] == data[slot]
  {
    hide CodeOf, ClampedValue;
    if fields != [] {
      hide Code, RunValidate;
      var n := |fields| - 1;
      var front, f := fields[..n], fields[n];
      ValidateClamps(front, data);
      assert fields == front + [f];
      CodePush(Validate, front, f);
      ClampOne(Code(Validate, front), f, data);
      assert forall j :: 0 <= j < n ==> front[j].slot != f.slot;
    }
  }

  /** An object whose tokens break off before a member without a default is refused. Every other one
      arrives with each member clamped into its range, and unchanged where it was in range. */
  lemma {:induction false} ObjectArrives(fields: seq<Field>, m: Struct, k: nat, extra: seq<Value>, before: Struct,
          sanitize: Sanitizer)
    requires Typed(fields, m) && Distinct(fields) && k <= |fields|
    requires k < |fields| ==> extra == []
    ensures var queue := Tokens(fields, m)[..k] + extra;
            var r := ReceiveObj(Code(Unpack, fields), Code(Validate, fields), queue, before, sanitize);
            if exists i :: 0 <= i < |fields| && !HasValue(fields, k, i) then r == Failed(UnpackError)
            else r.Delivered? && forall j :: 0 <= j < |fields| ==>
              HasValue(fields, k, j) && fields[j].slot in r.data &&
              r.data[fields[j].slot] == ClampedValue(fields[j], ValueOf(fields, m, k, j, sanitize))
  {
    hide Code, RunUnpack, RunValidate, ClampedValue, Distinct, Typed, ValueOf;
    ReadsBack(fields, m, k, extra, |fields|, before, sanitize);
    assert fields[..|fields|] == fields;
    var s := RunUnpack(Code(Unpack, fields), Machine(Unpacker(Tokens(fields, m)[..k] + extra, false), before),
        sanitize);
    if forall i :: 0 <= i < |fields| ==> HasValue(fields, k, i) {
      forall j | 0 <= j < |fields|
        ensures fields[j].slot in s.data && s.data[fields[j].slot] == ValueOf(fields, m, k, j, sanitize)
      {
        assert Holds(fields, m, k, j, s.data, sanitize);
      }
      ValidateClamps(fields, s.data);
    }
  }

  // ---- objects of unchecked size ------------------------------------------------------------

  function KindOf(member: Member): Kind {
    match member
    case Scalar(v) => v.kind
    case Array(a) => a.element.kind
  }

  /** emit_uncompressed_unpack_and_validate: refuses a member without a default in an object whose
      size is not checked. It does not ask what the default is good for. */
  method EmitUnpackAndValidate(members: seq<Member>, validateSize: bool, ghost decls: seq<Decl>)
    returns (r: Result<(seq<Instr>, seq<Instr>)>)
    requires Built(members, decls)
    modifies Elements(members)`name
    ensures Built(members, decls)
    ensures r == if !validateSize && exists k :: 0 <= k < |decls| && !decls[k].Declared() then Err(ValueError)
                 else Ok((Code(Unpack, AllFields(decls)), Code(Validate, AllFields(decls))))
  {
    for k := 0 to |members|
      invariant Built(members, decls)
      invariant !validateSize ==> forall j :: 0 <= j < k ==> decls[j].Declared()
    {
      assert BuiltFrom(members[k], decls[k]);
      if !validateSize && !KindOf(members[k]).Declared() { return Err(ValueError); }
    }
    var reads_ := EmitAll(members, Unpack, decls);
    var clamps := EmitAll(members, Validate, decls);
    r := Ok((reads_, clamps));
  }

  /** A declared default helps an integer only. */
  lemma {:induction false} FieldsHaveDefaults(decls: seq<Decl>)
    requires forall k :: 0 <= k < |decls| ==> decls[k].Declared()
    ensures forall i :: 0 <= i < |AllFields(decls)| ==>
        (AllFields(decls)[i].HasDefault() <==> AllFields(decls)[i].kind.IntKind?)
  {
    if decls != [] {
      FieldsHaveDefaults(decls[..|decls| - 1]);
    }
  }

  /** The object, cut off after k tokens, is refused. */
  ghost predicate Refused(fields: seq<Field>, m: Struct, k: nat, before: Struct, sanitize: Sanitizer)
    requires Typed(fields, m) && k <= |fields|
  {
    ReceiveObj(Code(Unpack, fields), Code(Validate, fields), Tokens(fields, m)[..k], before, sanitize) ==
        Failed(UnpackError)
  }

  /** An emitted object of unchecked size is readable however many of its tokens are missing exactly
      when it has no text member; in general, when no text is among the missing ones. */
  lemma NoSizeNeeded(decls: seq<Decl>, m: Struct, before: Struct, sanitize: Sanitizer)
    requires forall i :: 0 <= i < |decls| ==> decls[i].Declared()
    requires Typed(AllFields(decls), m) && Distinct(AllFields(decls))
    ensures var fields := AllFields(decls);
            && (forall k: nat :: k <= |fields| ==>
                  (Refused(fields, m, k, before, sanitize) <==>
                      exists j :: k <= j < |fields| && fields[j].kind.TextKind?))
            && ((forall k: nat :: k <= |fields| ==> !Refused(fields, m, k, before, sanitize)) <==>
                  forall j :: 0 <= j < |fields| ==> fields[j].kind.IntKind?)
  {
    hide Code, ReceiveObj, ClampedValue, Distinct, Typed, ValueOf, AllFields, Refused, Decl.Declared;
    var fields := AllFields(decls);
    FieldsHaveDefaults(decls);
    forall k: nat | k <= |fields|
      ensures Refused(fields, m, k, before, sanitize) <==> exists j :: k <= j < |fields| && fields[j].kind.TextKind?
    {
      RefusedExactly(fields, m, k, before, sanitize);
    }
    if j :| 0 <= j < |fields| && fields[j].kind.TextKind? {
      assert Refused(fields, m, 0, before, sanitize);
    }
  }

  lemma RefusedExactly(fields: seq<Field>, m: Struct, k: nat, before: Struct, sanitize: Sanitizer)
    requires Typed(fields, m) && Distinct(fields) && k <= |fields|
    ensures Refused(fields, m, k, before, sanitize) <==> exists j :: k <= j < |fields| && !fields[j].HasDefault()
  {
    hide Code, ReceiveObj, ClampedValue, Distinct, Typed, ValueOf;
    ObjectArrives(fields, m, k, [], before, sanitize);
    assert Tokens(fields, m)[..k] + [] == Tokens(fields, m)[..k];
    if i :| 0 <= i < |fields| && !HasValue(fields, k, i) {
      assert k <= i && !fields[i].HasDefault();
    }
    if j :| k <= j < |fields| && !fields[j].HasDefault() {
      assert !HasValue(fields, k, j);
    }
  }

  /** One text with a default is enough: the object is emitted, and refused when it comes empty. */
  lemma DefaultTextRefused(base: string, mode: Mode, text: string, s: string, before: Struct, sanitize: Sanitizer)
    ensures var decl := ScalarDecl(base, TextKind(mode, Some(text)));
            var m: Struct := map[Slot(base, None) := Text(s)];
            decl.Declared() && Typed(AllFields([decl]), m) && Refused(AllFields([decl]), m, 0, before, sanitize)
  {
    hide Refused, Code;
    var decl := ScalarDecl(base, TextKind(mode, Some(text)));
    var m: Struct := map[Slot(base, None) := Text(s)];
    assert [decl][..0] == [];
    var fields := AllFields([decl]);
    assert fields == [] + decl.Fields() == [Field(Slot(base, None), decl.kind)];
    RefusedExactly(fields, m, 0, before, sanitize);
    assert !fields[0].HasDefault();
  }
}
