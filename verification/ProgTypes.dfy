/** The program representation of the fuzzer: types of the system call descriptions, the argument
    trees of a program, and the target that owns the descriptions.

    Types are values. Struct and union bodies live in the target, keyed by name and direction, so a
    description may be recursive; `Target.rank` is the witness that default arguments are finite.
    A byte is a `char` below 256. Unsigned 64-bit words are the subset type `u64`. */
module ProgTypes {
  const TWO64: int := 0x1_0000_0000_0000_0000

  type u64 = x: int | 0 <= x < 0x1_0000_0000_0000_0000

  type pos = x: int | 0 < x witness 1

  datatype Option<+T> = None | Some(value: T)

  datatype Dir = DirIn | DirOut | DirInOut

  datatype Format = FormatNative | FormatBigEndian | FormatStrDec | FormatStrHex | FormatStrOct

  /** The part every type shares: field name, static size, direction, optional and varlen marks. */
  datatype Common = Common(fld: string, size: u64, dir: Dir, optional: bool, varlen: bool)

  /** The integer-like types, all of which are held by a `ConstArg`. */
  datatype IntKind =
    | KConst(val: u64, pad: bool)
    | KInt
    | KFlags
    | KLen
    | KProc(valuesStart: u64, valuesPerProc: u64)
    | KCsum

  datatype Bits = Bits(format: Format, off: nat, len: nat, middle: bool)

  datatype BufferKind = BlobRand | BlobRange | BufferString | BufferFilename | BufferText

  datatype StructKey = StructKey(name: string, dir: Dir)

  /** `ArrayT.fixedLen` is `Some(n)` for a range-length array whose bounds are both n. */
  datatype Type =
    | IntT(c: Common, kind: IntKind, bits: Bits)
    | ResourceT(c: Common, format: Format, default: u64)
    | VmaT(c: Common)
    | BufferT(c: Common, bkind: BufferKind)
    | ArrayT(c: Common, elem: Type, fixedLen: Option<nat>)
    | PtrT(c: Common, elem: Type)
    | StructT(fld: string, key: StructKey)
    | UnionT(fld: string, key: StructKey)

  /** The body of a struct or of a union. */
  datatype StructDesc = StructDesc(c: Common, fields: seq<Type>, align: u64, union: bool)

  datatype Syscall = Syscall(name: string, args: seq<Type>, ret: Option<Type>)

  datatype Target = Target(
    ptrSize: u64,
    pageSize: pos,
    numPages: nat,
    dataOffset: u64,
    specialPointers: seq<u64>,
    syscalls: seq<Syscall>,
    structs: map<StructKey, StructDesc>,
    rank: map<StructKey, nat>)

  /** Argument trees. A `ResultArg` has an identity `id`; `res` is the identity it refers to. */
  datatype Arg =
    | ConstArg(typ: Type, val: u64)
    | PointerArg(typ: Type, address: u64, vmaSize: u64, res: Option<Arg>)
    | DataArg(typ: Type, data: seq<char>, outSize: u64)
    | GroupArg(typ: Type, inner: seq<Arg>)
    | UnionArg(typ: Type, option: Arg)
    | ResultArg(typ: Type, id: nat, ref: Option<nat>, opDiv: u64, opAdd: u64, val: u64)

  datatype Call = Call(meta: nat, args: seq<Arg>, ret: Option<Arg>)

  datatype Prog = Prog(calls: seq<Call>)

  const MAX_SPECIAL_POINTERS: nat := 16
  const PROC_DEFAULT: u64 := 0xffff_ffff_ffff_ffff

  predicate IsPad(t: Type) {
    t.IntT? && t.kind.KConst? && t.kind.pad
  }

  function Neg64(v: u64): u64 {
    if v == 0 then 0 else TWO64 - v
  }

  function Wrap64(v: nat): u64 {
    v % TWO64
  }

  function MaxMem(tgt: Target): nat {
    tgt.numPages * tgt.pageSize
  }

  /** A struct or union body; an unknown key has no fields. */
  function Desc(tgt: Target, key: StructKey): StructDesc {
    if key in tgt.structs then tgt.structs[key] else StructDesc(Common("", 0, DirIn, false, false), [], 0, false)
  }

  function CommonOf(tgt: Target, t: Type): Common {
    match t
    case StructT(_, key) => Desc(tgt, key).c
    case UnionT(_, key) => Desc(tgt, key).c
    case _ => t.c
  }

  function FieldName(t: Type): string {
    match t
    case StructT(fld, _) => fld
    case UnionT(fld, _) => fld
    case _ => t.c.fld
  }

  predicate BitfieldMiddle(t: Type) {
    t.IntT? && t.bits.middle
  }

  predicate IsReadableType(t: Type) {
    t.BufferT? && (t.bkind == BufferString || t.bkind == BufferFilename)
  }

  // ---- the ANY types ----

  const ANY_KEY := StructKey("ANYUNION", DirIn)
  const ANY_UNION := UnionT("ANYUNION", ANY_KEY)
  const ANY_ARRAY := ArrayT(Common("ANYARRAY", 0, DirIn, false, true), ANY_UNION, None)
  const ANY_BLOB := BufferT(Common("ANYBLOB", 0, DirIn, false, true), BlobRand)

  function AnyRes(name: string, format: Format, size: u64): Type {
    ResourceT(Common(name, size, DirIn, true, false), format, 0xffff_ffff_ffff_ffff)
  }

  const ANY_RES16 := AnyRes("ANYRES16", FormatNative, 2)
  const ANY_RES32 := AnyRes("ANYRES32", FormatNative, 4)
  const ANY_RES64 := AnyRes("ANYRES64", FormatNative, 8)
  const ANY_RESDEC := AnyRes("ANYRESDEC", FormatStrDec, 20)
  const ANY_RESHEX := AnyRes("ANYRESHEX", FormatStrHex, 18)
  const ANY_RESOCT := AnyRes("ANYRESOCT", FormatStrOct, 23)

  function AnyPtr(size: u64, fld: string): Type {
    PtrT(Common(fld, size, DirIn, true, false), ANY_ARRAY)
  }

  /** The type of a squashed pointer; the empty field name keeps the generic one. */
  function MakeAnyPtrType(tgt: Target, size: u64, fld: string): Type {
    if fld != "" then AnyPtr(size, fld)
    else if size == tgt.ptrSize then AnyPtr(size, "ANYPTR")
    else AnyPtr(size, "ANYPTR64")
  }

  function AnyDesc(tgt: Target): StructDesc {
    StructDesc(Common("ANYUNION", 0, DirIn, false, true),
               [ANY_BLOB, AnyPtr(tgt.ptrSize, "ANYPTR"), AnyPtr(8, "ANYPTR64"),
                ANY_RES16, ANY_RES32, ANY_RES64, ANY_RESDEC, ANY_RESHEX, ANY_RESOCT], 0, true)
  }

  predicate IsAnyPtr(t: Type) {
    t.PtrT? && t.elem == ANY_ARRAY
  }

  // ---- sizes ----

  predicate IsSpecial(a: Arg)
    requires a.PointerArg?
  {
    a.vmaSize == 0 && a.res.None? && Neg64(a.address) < MAX_SPECIAL_POINTERS
  }

  function DataSize(a: Arg): nat
    requires a.DataArg?
  {
    if a.data != [] then |a.data| else a.outSize
  }

  /** The byte size of an argument, computed exactly: no tree reaches 2^64 bytes. */
  function Size(tgt: Target, a: Arg): nat
    decreases a, 0
  {
    match a
    case DataArg(_, _, _) => DataSize(a)
    case GroupArg(typ, inner) =>
      if !CommonOf(tgt, typ).varlen then CommonOf(tgt, typ).size
      else if typ.StructT? then AlignUp(SizeSum(tgt, inner), Desc(tgt, typ.key).align)
      else SizeSum(tgt, inner)
    case UnionArg(typ, option) =>
      if !CommonOf(tgt, typ).varlen then CommonOf(tgt, typ).size else Size(tgt, option)
    case _ => CommonOf(tgt, a.typ).size
  }

  function SizeSum(tgt: Target, args: seq<Arg>): nat
    decreases args
  {
    if args == [] then 0
    else (if BitfieldMiddle(args[0].typ) then 0 else Size(tgt, args[0])) + SizeSum(tgt, args[1..])
  }

  function AlignUp(size: nat, align: nat): nat {
    if align != 0 && size % align != 0 then size + (align - size % align) else size
  }

  // ---- default arguments ----

  /** How many nested struct bodies the default argument of a type unfolds. */
  function DefaultDepth(tgt: Target, t: Type): nat {
    match t
    case ArrayT(_, elem, fixedLen) => if fixedLen.Some? then DefaultDepth(tgt, elem) else 0
    case PtrT(c, elem) => if c.optional then 0 else DefaultDepth(tgt, elem)
    case StructT(_, key) => if key in tgt.structs && key in tgt.rank then tgt.rank[key] + 1 else 0
    case UnionT(_, key) => if key in tgt.structs && key in tgt.rank then tgt.rank[key] + 1 else 0
    case _ => 0
  }

  /** Does the rank of the body bound the default depth of the type? */
  predicate Bounded(tgt: Target, key: StructKey, t: Type) {
    key in tgt.structs && key in tgt.rank && DefaultDepth(tgt, t) <= tgt.rank[key]
  }

  /** The rank of every body bounds the default depth of its fields, so defaults are finite trees. */
  ghost predicate Ranked(tgt: Target) {
    && tgt.rank.Keys == tgt.structs.Keys
    && forall key, i :: key in tgt.structs && 0 <= i < |tgt.structs[key].fields| ==>
        Bounded(tgt, key, tgt.structs[key].fields[i])
  }

  /** The default argument of a type. Result arguments inside it take identities from `next` on.
      A field above the rank of its body, which a ranked target does not have, is cut off. */
  function DefaultArg(tgt: Target, t: Type, next: nat): (r: (Arg, nat))
    ensures r.0.typ == t && r.1 >= next
    decreases 2 * DefaultDepth(tgt, t), t, 0
  {
    match t
    case IntT(_, kind, _) =>
      (ConstArg(t, if kind.KConst? then kind.val else if kind.KProc? then PROC_DEFAULT else 0), next)
    case ResourceT(_, _, default) => (ResultArg(t, next, None, 0, 0, default), next + 1)
    case VmaT(_) => (PointerArg(t, 0, 0, None), next)
    case BufferT(c, _) =>
      if c.dir == DirOut then (DataArg(t, [], if c.varlen then 0 else c.size), next)
      else (DataArg(t, Zeros(if c.varlen then 0 else c.size), 0), next)
    case ArrayT(_, elem, fixedLen) =>
      if fixedLen.None? then (GroupArg(t, []), next)
      else
        var (inner, n) := DefaultCopies(tgt, elem, fixedLen.value, next);
        (GroupArg(t, inner), n)
    case PtrT(c, elem) =>
      if c.optional then (PointerArg(t, 0, 0, None), next)
      else
        var (inner, n) := DefaultArg(tgt, elem, next);
        (PointerArg(t, 0, 0, Some(inner)), n)
    case StructT(_, key) =>
      if key !in tgt.structs || key !in tgt.rank then (GroupArg(t, []), next)
      else
        var (inner, n) := DefaultFields(tgt, key, tgt.structs[key].fields, next);
        (GroupArg(t, inner), n)
    case UnionT(_, key) =>
      if key !in tgt.structs || key !in tgt.rank || tgt.structs[key].fields == []
        then (UnionArg(t, ConstArg(t, 0)), next)
      else
        var (inner, n) := DefaultFields(tgt, key, tgt.structs[key].fields[..1], next);
        (UnionArg(t, inner[0]), n)
  }

  function Zeros(n: nat): (z: seq<char>) {
    seq(n, _ => 0 as char)
  }

  function DefaultCopies(tgt: Target, elem: Type, n: nat, next: nat): (r: (seq<Arg>, nat))
    ensures |r.0| == n && r.1 >= next
    decreases 2 * DefaultDepth(tgt, elem), elem, n + 1
  {
    if n == 0 then ([], next)
    else
      var (first, n1) := DefaultArg(tgt, elem, next);
      var (others, n2) := DefaultCopies(tgt, elem, n - 1, n1);
      ([first] + others, n2)
  }

  /** Defaults for fields of a body. */
  function DefaultFields(tgt: Target, key: StructKey, fields: seq<Type>, next: nat): (r: (seq<Arg>, nat))
    ensures |r.0| == |fields| && r.1 >= next
    decreases if key in tgt.structs && key in tgt.rank then 2 * tgt.rank[key] + 1 else 0, 0, |fields|
  {
    if fields == [] then ([], next)
    else
      var (first, n1) := if Bounded(tgt, key, fields[0]) then DefaultArg(tgt, fields[0], next)
        else (ConstArg(fields[0], 0), next);
      var (others, n2) := DefaultFields(tgt, key, fields[1..], n1);
      ([first] + others, n2)
  }

  /** Is this the default argument of its own type? A result that others refer to never is. */
  predicate IsDefault(tgt: Target, used: set<nat>, a: Arg)
    decreases a, 0
  {
    match a
    case ConstArg(typ, val) =>
      typ.IntT? && val == (if typ.kind.KConst? then typ.kind.val else if typ.kind.KProc? then PROC_DEFAULT else 0)
    case ResultArg(typ, id, ref, opDiv, opAdd, val) =>
      typ.ResourceT? && ref.None? && opDiv == 0 && opAdd == 0 && id !in used && val == typ.default
    case PointerArg(typ, address, _, res) =>
      if typ.PtrT? && !typ.c.optional
      then address == 0 && res.Some? && IsDefault(tgt, used, res.value)
      else IsSpecial(a) && address == 0
    case DataArg(typ, data, _) =>
      || DataSize(a) == 0
      || (!CommonOf(tgt, typ).varlen
          && (CommonOf(tgt, typ).dir == DirOut || forall i :: 0 <= i < |data| ==> data[i] == 0 as char))
    case GroupArg(typ, inner) =>
      && (typ.ArrayT? && typ.fixedLen.None? ==> inner == [])
      && AllDefault(tgt, used, inner)
    case UnionArg(typ, option) =>
      && typ.UnionT?
      && |Desc(tgt, typ.key).fields| > 0
      && FieldName(option.typ) == FieldName(Desc(tgt, typ.key).fields[0])
      && IsDefault(tgt, used, option)
  }

  predicate AllDefault(tgt: Target, used: set<nat>, args: seq<Arg>)
    decreases args
  {
    args == [] || (IsDefault(tgt, used, args[0]) && AllDefault(tgt, used, args[1..]))
  }

  // ---- identities ----

  /** The identities of the result arguments of a tree, left to right. */
  function Ids(a: Arg): seq<nat>
    decreases a, 0
  {
    match a
    case ResultArg(_, id, _, _, _, _) => [id]
    case PointerArg(_, _, _, res) => if res.Some? then Ids(res.value) else []
    case GroupArg(_, inner) => IdsSeq(inner)
    case UnionArg(_, option) => Ids(option)
    case _ => []
  }

  function IdsSeq(args: seq<Arg>): seq<nat>
    decreases args
  {
    if args == [] then [] else Ids(args[0]) + IdsSeq(args[1..])
  }

  /** The identities a tree refers to. */
  function Refs(a: Arg): set<nat>
    decreases a, 0
  {
    match a
    case ResultArg(_, _, ref, _, _, _) => if ref.Some? then {ref.value} else {}
    case PointerArg(_, _, _, res) => if res.Some? then Refs(res.value) else {}
    case GroupArg(_, inner) => RefsSeq(inner)
    case UnionArg(_, option) => Refs(option)
    case _ => {}
  }

  function RefsSeq(args: seq<Arg>): set<nat>
    decreases args
  {
    if args == [] then {} else Refs(args[0]) + RefsSeq(args[1..])
  }
}
