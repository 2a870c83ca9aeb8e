/** The variables of the network protocol and the code they emit, as instruction lists: datasrc/datatypes.py. */
module NetVariables {
  import opened Bytes

  /** A member of a generated struct: `base`, or `base[index]`. */
  datatype Slot = Slot(base: string, index: Option<nat>)

  /** What GetString does to the text: NetString, NetStringHalfStrict and NetStringStrict. */
  datatype Mode = Plain | HalfStrict | Strict

  /** NetIntAny and NetTick have no range; NetBool is the range 0 to 1, NetTickStrict that of a tick. */
  datatype Kind =
    | TextKind(mode: Mode, text: Option<string>)
    | IntKind(default: Option<int>, range: Option<(int, int)>)
  {
    /** A default was declared. Every kind of variable takes one. */
    predicate Declared() { if TextKind? then text.Some? else default.Some? }
  }

  datatype Field = Field(slot: Slot, kind: Kind) {
    /** The emitted code can do without a token for it. The default of a text is never emitted. */
    predicate HasDefault() { kind.IntKind? && kind.default.Some? }
  }

  datatype Instr =
    | AddInt(slot: Slot)
    | AddString(slot: Slot)
    | ReadInt(slot: Slot)
    | ReadIntOrDefault(slot: Slot, default: int)
    | ReadString(slot: Slot, mode: Mode)
    | FailUnless(slot: Slot, min: int, max: int)
    | Clamp(slot: Slot, min: int, max: int)

  /** emit_pack, emit_unpack_msg (for objects emit_uncompressed_unpack_obj), emit_unpack_msg_check, emit_validate_obj */
  datatype Pass = Pack | Unpack | Check | Validate

  function CodeOf(pass: Pass, f: Field): seq<Instr> {
    match (pass, f.kind)
    case (Pack, TextKind(_, _)) => [AddString(f.slot)]
    case (Pack, IntKind(_, _)) => [AddInt(f.slot)]
    case (Unpack, TextKind(mode, _)) => [ReadString(f.slot, mode)]
    case (Unpack, IntKind(None, _)) => [ReadInt(f.slot)]
    case (Unpack, IntKind(Some(d), _)) => [ReadIntOrDefault(f.slot, d)]
    case (Check, IntKind(_, Some(r))) => [FailUnless(f.slot, r.0, r.1)]
    case (Validate, IntKind(_, Some(r))) => [Clamp(f.slot, r.0, r.1)]
    case (_, _) => []
  }

  /** The code of several fields, one after the other. */
  function Code(pass: Pass, fields: seq<Field>): seq<Instr> {
    if fields == [] then []
    else Code(pass, fields[..|fields| - 1]) + CodeOf(pass, fields[|fields| - 1])
  }

  lemma CodePush(pass: Pass, fields: seq<Field>, f: Field)
    ensures Code(pass, fields + [f]) == Code(pass, fields) + CodeOf(pass, f)
  {
    assert (fields + [f])[..|fields|] == fields;
  }

  lemma {:induction false} CodeAppend(pass: Pass, a: seq<Field>, b: seq<Field>)
    ensures Code(pass, a + b) == Code(pass, a) + Code(pass, b)
  {
    hide CodeOf;
    if b == [] {
      assert a + b == a;
    } else {
      hide Code;
      var front, last := b[..|b| - 1], b[|b| - 1];
      assert b == front + [last];
      CodeAppend(pass, a, front);
      Assoc(a, front, [last]);
      CodePush(pass, a + front, last);
      CodePush(pass, front, last);
      Assoc(Code(pass, a), Code(pass, front), CodeOf(pass, last));
    }
  }

  // ---- the objects that emit ----------------------------------------------------------

  class NetVariable {
    var name: Slot
    const kind: Kind

    constructor (base: string, kind: Kind)
      ensures name == Slot(base, None) && this.kind == kind
    {
      name := Slot(base, None);
      this.kind := kind;
    }

    function Emit(pass: Pass): seq<Instr>
      reads this
    {
      CodeOf(pass, Field(name, kind))
    }
  }

  /** What an array declaration stands for: its slots in index order. */
  function ArrayFields(base: string, n: nat, kind: Kind): (r: seq<Field>)
    ensures |r| == n && forall i :: 0 <= i < n ==> r[i] == Field(Slot(base, Some(i)), kind)
  {
    seq(n, i requires 0 <= i < n => Field(Slot(base, Some(i)), kind))
  }

  class NetArray {
    const baseName: string
    const element: NetVariable
    const size: nat

    constructor (element: NetVariable, size: nat)
      ensures baseName == element.name.base && this.element == element && this.size == size
    {
      baseName, this.element, this.size := element.name.base, element, size;
    }

    /** Renames the element to every index in turn. The code depends on the remembered base name
        only, so it is the same however often and in whatever order the passes run. */
    method Emit(pass: Pass) returns (lines: seq<Instr>)
      modifies element`name
      ensures lines == Code(pass, ArrayFields(baseName, size, element.kind))
      ensures element.name == if size == 0 then old(element.name) else Slot(baseName, Some(size - 1))
    {
      lines := [];
      for i := 0 to size
        invariant lines == Code(pass, ArrayFields(baseName, i, element.kind))
        invariant element.name == if i == 0 then old(element.name) else Slot(baseName, Some(i - 1))
      {
        element.name := Slot(baseName, Some(i));
        CodePush(pass, ArrayFields(baseName, i, element.kind), Field(element.name, element.kind));
        assert ArrayFields(baseName, i + 1, element.kind)
            == ArrayFields(baseName, i, element.kind) + [Field(element.name, element.kind)];
        lines := lines + element.Emit(pass);
      }
    }
  }

  // ---- definitions -----------------------------------------------------------------------

  datatype Member = Scalar(variable: NetVariable) | Array(items: NetArray)

  /** The declaration a member was built from. */
  datatype Decl = ScalarDecl(base: string, kind: Kind) | ArrayDecl(base: string, kind: Kind, size: nat) {
    function Fields(): seq<Field> {
      match this
      case ScalarDecl(base, kind) => [Field(Slot(base, None), kind)]
      case ArrayDecl(base, kind, size) => ArrayFields(base, size, kind)
    }

    predicate Declared() { kind.Declared() }
  }

  function AllFields(decls: seq<Decl>): seq<Field> {
    if decls == [] then [] else AllFields(decls[..|decls| - 1]) + decls[|decls| - 1].Fields()
  }

  lemma AllFieldsPush(decls: seq<Decl>, d: Decl)
    ensures AllFields(decls + [d]) == AllFields(decls) + d.Fields()
  {
    assert (decls + [d])[..|decls|] == decls;
  }

  lemma {:induction false} AllFieldsAppend(a: seq<Decl>, b: seq<Decl>)
    ensures AllFields(a + b) == AllFields(a) + AllFields(b)
  {
    hide Decl.Fields;
    if b == [] {
      assert a + b == a;
    } else {
      hide AllFields;
      var front, last := b[..|b| - 1], b[|b| - 1];
      assert b == front + [last];
      AllFieldsAppend(a, front);
      Assoc(a, front, [last]);
      AllFieldsPush(a + front, last);
      AllFieldsPush(front, last);
      Assoc(AllFields(a), AllFields(front), last.Fields());
    }
  }

  ghost function Elements(members: seq<Member>): set<NetVariable> {
    set k | 0 <= k < |members| && members[k].Array? :: members[k].items.element
  }

  ghost function Variables(members: seq<Member>): set<NetVariable> {
    set k | 0 <= k < |members| && members[k].Scalar? :: members[k].variable
  }

  /** The members are what the declarations say; the element of an array is not a member itself. */
  ghost predicate Built(members: seq<Member>, decls: seq<Decl>)
    reads Variables(members)
  {
    && |members| == |decls| && Variables(members) !! Elements(members)
    && forall k :: 0 <= k < |members| ==>
         assert members[k].Scalar? ==> members[k].variable in Variables(members);
         BuiltFrom(members[k], decls[k])
  }

  ghost predicate BuiltFrom(member: Member, decl: Decl)
    reads if member.Scalar? then {member.variable} else {}
  {
    match member
    case Scalar(v) => decl == ScalarDecl(v.name.base, v.kind) && v.name.index.None?
    case Array(a) => decl == ArrayDecl(a.baseName, a.element.kind, a.size)
  }

  lemma BuiltMember(members: seq<Member>, decls: seq<Decl>, k: nat)
    requires Built(members, decls) && k < |members|
    ensures |members| == |decls| && BuiltFrom(members[k], decls[k])
    ensures members[k].Array? ==>
              members[k].items.element in Elements(members) && members[k].items.element !in Variables(members)
  {
    if members[k].Array? { assert members[k].items.element in Elements(members); }
  }

  /** One pass over a member emits the code of its fields. */
  method EmitMember(member: Member, pass: Pass, ghost decl: Decl) returns (lines: seq<Instr>)
    requires BuiltFrom(member, decl)
    modifies (if member.Array? then {member.items.element} else {})`name
    ensures lines == Code(pass, decl.Fields())
  {
    hide CodeOf, Code;
    match member {
      case Scalar(v) =>
        lines := v.Emit(pass);
        CodeOfOne(pass, Field(v.name, v.kind));
        EmitIs(v, pass);
      case Array(a) =>
        lines := a.Emit(pass);
    }
  }

  lemma EmitIs(v: NetVariable, pass: Pass)
    ensures v.Emit(pass) == CodeOf(pass, Field(v.name, v.kind))
  {
  }

  lemma CodeOfOne(pass: Pass, f: Field)
    ensures Code(pass, [f]) == CodeOf(pass, f)
  {
    assert [f][..0] == [];
  }

  lemma CodeStep(pass: Pass, decls: seq<Decl>, k: nat)
    requires k < |decls|
    ensures Code(pass, AllFields(decls[..k + 1])) == Code(pass, AllFields(decls[..k])) + Code(pass, decls[k].Fields())
  {
    hide Code, AllFields, Decl.Fields;
    assert decls[..k + 1] == decls[..k] + [decls[k]];
    AllFieldsPush(decls[..k], decls[k]);
    CodeAppend(pass, AllFields(decls[..k]), decls[k].Fields());
  }

  /** One pass over a definition emits the code of its fields in declaration and index order and
      leaves the definition ready for the next pass. */
  method EmitAll(members: seq<Member>, pass: Pass, ghost decls: seq<Decl>) returns (lines: seq<Instr>)
    requires Built(members, decls)
    modifies Elements(members)`name
    ensures lines == Code(pass, AllFields(decls))
    ensures Built(members, decls)
  {
    BuiltLength(members, decls);
    assert decls[..0] == [] && Code(pass, AllFields([])) == [];
    hide Code, AllFields, Decl.Fields, Built, BuiltFrom, Elements, Variables;
    lines := [];
    for k := 0 to |members|
      invariant Built(members, decls)
      invariant lines == Code(pass, AllFields(decls[..k]))
    {
      BuiltMember(members, decls, k);
      var more := EmitMember(members[k], pass, decls[k]);
      CodeStep(pass, decls, k);
      lines := lines + more;
    }
    assert decls[..|decls|] == decls;
  }

  lemma BuiltLength(members: seq<Member>, decls: seq<Decl>)
    requires Built(members, decls)
    ensures |members| == |decls|
  {
  }
}
