/** Program validation: the checks every program passes before it is printed and after it is parsed.
    `seen` is the set of result identities met so far, so a reference resolves only backwards. */
module Validation {
  import opened ProgTypes
  import opened Numbers
  import opened DataText

  function Repeat(t: Type, n: nat): (ts: seq<Type>)
    ensures |ts| == n && forall i :: 0 <= i < n ==> ts[i] == t
  {
    seq(n, _ => t)
  }

  /** The first field with the given name. */
  function FindField(fields: seq<Type>, name: string): (o: Option<Type>)
    ensures o.Some? ==> o.value in fields && FieldName(o.value) == name
    ensures o.None? ==> forall f :: f in fields ==> FieldName(f) != name
  {
    if fields == [] then None
    else if FieldName(fields[0]) == name then Some(fields[0])
    else FindField(fields[1..], name)
  }

  /** Checks argument a against declared type t; the identities seen afterwards, or None. */
  function ValidateArg(tgt: Target, a: Arg, t: Type, seen: set<nat>): Option<set<nat>>
    decreases a, 1
  {
    if a.ResultArg? && a.id in seen then None
    else if !IsAnyPtr(a.typ) && a.typ != t then None
    else ValidateBody(tgt, a, if a.ResultArg? then seen + {a.id} else seen)
  }

  function ValidateBody(tgt: Target, a: Arg, seen: set<nat>): Option<set<nat>>
    decreases a, 0
  {
    match a
    case ConstArg(typ, val) => if ValidConst(typ, val) then Some(seen) else None
    case ResultArg(typ, _, ref, _, _, val) =>
      if !typ.ResourceT? then None
      else if typ.c.dir == DirOut && val != 0 && val != typ.default then None
      else if ref.Some? && ref.value !in seen then None
      else Some(seen)
    case DataArg(typ, _, _) => if ValidData(a) then Some(seen) else None
    case GroupArg(typ, inner) =>
      if typ.StructT? then
        if |inner| != |Desc(tgt, typ.key).fields| then None
        else ValidateSeq(tgt, inner, Desc(tgt, typ.key).fields, seen)
      else if typ.ArrayT? then
        if typ.fixedLen.Some? && |inner| != typ.fixedLen.value then None
        else ValidateSeq(tgt, inner, Repeat(typ.elem, |inner|), seen)
      else None
    case UnionArg(typ, option) =>
      if !typ.UnionT? then None
      else
        var opt := FindField(Desc(tgt, typ.key).fields, FieldName(option.typ));
        if opt.None? then None else ValidateArg(tgt, option, opt.value, seen)
    case PointerArg(typ, _, _, res) =>
      if !ValidAddress(tgt, a) then None
      else if typ.VmaT? then if res.Some? then None else Some(seen)
      else if !typ.PtrT? || a.vmaSize != 0 || typ.c.dir == DirOut then None
      else if res.Some? then ValidateArg(tgt, res.value, typ.elem, seen)
      else Some(seen)
  }

  function ValidateSeq(tgt: Target, args: seq<Arg>, types: seq<Type>, seen: set<nat>): Option<set<nat>>
    requires |args| == |types|
    decreases args
  {
    if args == [] then Some(seen)
    else
      var s := ValidateArg(tgt, args[0], types[0], seen);
      if s.None? then None else ValidateSeq(tgt, args[1..], types[1..], s.value)
  }

  predicate ValidConst(typ: Type, val: u64) {
    && typ.IntT?
    && (match typ.kind
        case KProc(_, valuesPerProc) => val < valuesPerProc || val == PROC_DEFAULT
        case KCsum => val == 0
        case _ => true)
    && (typ.c.dir == DirOut && !typ.kind.KLen? ==>
        val == (if typ.kind.KConst? then typ.kind.val else if typ.kind.KProc? then PROC_DEFAULT else 0))
  }

  predicate ValidData(a: Arg)
    requires a.DataArg?
  {
    && a.typ.BufferT?
    && (forall i :: 0 <= i < |a.data| ==> a.data[i] as int < 256)
    && (a.typ.c.dir == DirOut ==> a.data == [])
    && (!a.typ.c.varlen ==> DataSize(a) == a.typ.c.size)
    && (a.typ.bkind == BufferString && a.typ.c.size != 0 ==> DataSize(a) == a.typ.c.size)
  }

  predicate ValidAddress(tgt: Target, a: Arg)
    requires a.PointerArg?
  {
    if IsSpecial(a) then Neg64(a.address) < |tgt.specialPointers|
    else
      var size := if a.vmaSize == 0 && a.res.Some? then Size(tgt, a.res.value) else a.vmaSize;
      a.address < MaxMem(tgt) && (a.address + size) % TWO64 <= MaxMem(tgt)
  }

  function ValidateCall(tgt: Target, c: Call, seen: set<nat>): Option<set<nat>> {
    if c.meta >= |tgt.syscalls| || |c.args| != |tgt.syscalls[c.meta].args| then None
    else
      var meta := tgt.syscalls[c.meta];
      var s := ValidateSeq(tgt, c.args, meta.args, seen);
      if s.None? then None
      else if meta.ret.None? then if c.ret.Some? then None else s
      else if c.ret.None? then None
      else
        var r := c.ret.value;
        if !r.ResultArg? || CommonOf(tgt, r.typ).dir != DirOut || r.ref.Some? || r.val != 0
           || r.opDiv != 0 || r.opAdd != 0
        then None
        else ValidateArg(tgt, r, meta.ret.value, s.value)
  }

  function ValidateCalls(tgt: Target, calls: seq<Call>, seen: set<nat>): Option<set<nat>> {
    if calls == [] then Some(seen)
    else
      var s := ValidateCall(tgt, calls[0], seen);
      if s.None? then None else ValidateCalls(tgt, calls[1..], s.value)
  }

  /** The identities of a call in the order in which a parser makes them: the return value first. */
  function IdsCall(c: Call): seq<nat> {
    (if c.ret.Some? then Ids(c.ret.value) else []) + IdsSeq(c.args)
  }

  function IdsCalls(calls: seq<Call>): seq<nat> {
    if calls == [] then [] else IdsCall(calls[0]) + IdsCalls(calls[1..])
  }

  function RefsCalls(calls: seq<Call>): set<nat> {
    if calls == [] then {}
    else RefsSeq(calls[0].args) + (if calls[0].ret.Some? then Refs(calls[0].ret.value) else {})
         + RefsCalls(calls[1..])
  }

  predicate Valid(tgt: Target, p: Prog) {
    ValidateCalls(tgt, p.calls, {}).Some?
  }

  /** What the compiler of the descriptions guarantees about a target. */
  ghost predicate WellFormed(tgt: Target) {
    && Ranked(tgt)
    && 1 <= |tgt.specialPointers| <= MAX_SPECIAL_POINTERS
    && 0x10_0000 <= MaxMem(tgt) < 0x8000_0000_0000
    && ANY_KEY in tgt.structs && tgt.structs[ANY_KEY] == AnyDesc(tgt)
    && (forall key :: key in tgt.structs ==> WellFormedDesc(tgt, tgt.structs[key]))
    && (forall i :: 0 <= i < |tgt.syscalls| ==> WellFormedSyscall(tgt, tgt.syscalls[i]))
    && (forall i, j :: 0 <= i < j < |tgt.syscalls| ==> tgt.syscalls[i].name != tgt.syscalls[j].name)
  }

  /** Padding has value zero and only separates struct fields; keys name bodies of the right kind;
      a declared ANY pointer is one of the generic ones. */
  predicate WellFormedType(tgt: Target, t: Type) {
    match t
    case IntT(_, kind, _) => kind.KConst? && kind.pad ==> kind.val == 0
    case ArrayT(_, elem, _) => !IsPad(elem) && WellFormedType(tgt, elem)
    case PtrT(c, elem) =>
      && !IsPad(elem) && WellFormedType(tgt, elem)
      && (IsAnyPtr(t) ==> c.fld != "" && t == AnyPtr(c.size, c.fld))
    case StructT(_, key) => key in tgt.structs && !tgt.structs[key].union
    case UnionT(_, key) => key in tgt.structs && tgt.structs[key].union && tgt.structs[key].fields != []
    case _ => true
  }

  ghost predicate WellFormedDesc(tgt: Target, d: StructDesc) {
    && (d.fields != [] ==> !IsPad(d.fields[0]))
    && forall i :: 0 <= i < |d.fields| ==>
        WellFormedType(tgt, d.fields[i]) && (d.union ==> !IsPad(d.fields[i]) && IsIdent(FieldName(d.fields[i])))
  }

  ghost predicate WellFormedSyscall(tgt: Target, c: Syscall) {
    && IsIdent(c.name)
    && (forall i :: 0 <= i < |c.args| ==> WellFormedType(tgt, c.args[i]) && !IsPad(c.args[i]))
    && (c.ret.Some? ==> c.ret.value.ResourceT? && c.ret.value.c.dir == DirOut)
  }
}
