/** Compiling a program to executor instructions. The compiler walks each call and keeps, per result,
    the address it has seen and the copyout index it has assigned (`Infos`). Beside it stands what the
    instructions are meant to be, where each result simply has a name and each argument a place. */
module ExecCompile {
  import opened ProgTypes
  import opened Validation
  import opened ExecFormat

  datatype Info = Info(addr: u64, idx: u64, ret: bool)

  type Infos = map<nat, Info>

  /** The address of a pointer; a special pointer stands for a fixed address. */
  function PhysicalAddr(tgt: Target, a: Arg): u64
    requires a.PointerArg?
  {
    if IsSpecial(a) then
      if Neg64(a.address) < |tgt.specialPointers| then tgt.specialPointers[Neg64(a.address)] else 0
    else Wrap64(tgt.dataOffset + a.address)
  }

  /** The value of a constant and how much it grows per process. */
  function ConstValue(a: Arg): (u64, u64)
    requires a.ConstArg?
  {
    if !a.typ.IntT? then (a.val, 0)
    else
      match a.typ.kind
      case KCsum => (0, 0)
      case KProc(valuesStart, valuesPerProc) =>
        if a.val == PROC_DEFAULT then (0, 0) else (Wrap64(valuesStart + a.val), valuesPerProc)
      case _ => (a.val, 0)
  }

  function FormatCode(f: Format): u64 {
    match f
    case FormatNative => 0
    case FormatBigEndian => 1
    case FormatStrDec => 2
    case FormatStrHex => 3
    case FormatStrOct => 4
  }

  function BytesOf(data: seq<char>): (s: seq<byte>)
    ensures |s| == |data|
  {
    seq(|data|, i requires 0 <= i < |data| => data[i] as int % 256)
  }

  /** Arguments that can be written as one instruction argument. */
  predicate Writable(a: Arg) {
    match a
    case ConstArg(typ, _) => typ.IntT?
    case ResultArg(typ, _, _, _, _, _) => typ.ResourceT?
    case PointerArg(typ, _, _, _) => typ.VmaT? || typ.PtrT?
    case DataArg(typ, data, _) => typ.BufferT? && data != []
    case UnionArg(_, option) => Writable(option)
    case GroupArg(_, _) => false
  }

  /** The result a written argument refers to. */
  function RefOf(a: Arg): Option<nat> {
    match a
    case ResultArg(_, _, ref, _, _, _) => ref
    case UnionArg(_, option) => RefOf(option)
    case _ => None
  }

  /** The instruction argument; a reference carries copyout index i. */
  function ArgOf(tgt: Target, i: u64, a: Arg): ExecArg
    requires Writable(a)
  {
    match a
    case ConstArg(typ, _) =>
      var (val, stride) := ConstValue(a);
      Const(typ.c.size, FormatCode(typ.bits.format), val, Wrap64(typ.bits.off), Wrap64(typ.bits.len), stride)
    case ResultArg(typ, _, ref, opDiv, opAdd, val) =>
      if ref.None? then Const(typ.c.size, FormatCode(typ.format), val, 0, 0, 0)
      else Result(typ.c.size, FormatCode(typ.format), i, opDiv, opAdd, typ.default)
    case PointerArg(typ, _, _, _) => Const(typ.c.size, 0, PhysicalAddr(tgt, a), 0, 0, 0)
    case DataArg(typ, data, _) => Data(BytesOf(data), IsReadableType(typ))
    case UnionArg(_, option) => ArgOf(tgt, i, option)
  }

  /** Is this argument copied into memory when it lies at an address? */
  predicate CopiedIn(tgt: Target, a: Arg) {
    && !a.GroupArg? && !a.UnionArg?
    && CommonOf(tgt, a.typ).dir != DirOut && !IsPad(a.typ) && Size(tgt, a) != 0
  }

  // ---- visiting the arguments of a call ----

  /** An argument and, if it lies in memory, its address. */
  datatype Visit = Visit(arg: Arg, addr: Option<u64>)

  function Place(base: Option<u64>, off: nat): Option<u64> {
    if base.None? then None else Some(Wrap64(base.value + off))
  }

  function Advance(tgt: Target, a: Arg, off: nat): nat {
    if BitfieldMiddle(a.typ) then off else off + Size(tgt, a)
  }

  /** All arguments of a tree that lies off bytes into the memory at base, each before its parts. */
  function Visits(tgt: Target, a: Arg, base: Option<u64>, off: nat): seq<Visit>
    decreases a, 0
  {
    [Visit(a, Place(base, off))] +
    match a
    case GroupArg(_, inner) => VisitsSeq(tgt, inner, base, off)
    case UnionArg(_, option) => Visits(tgt, option, base, off)
    case PointerArg(_, _, _, res) => if res.None? then [] else Visits(tgt, res.value, Some(PhysicalAddr(tgt, a)), 0)
    case _ => []
  }

  function VisitsSeq(tgt: Target, args: seq<Arg>, base: Option<u64>, off: nat): seq<Visit>
    decreases args
  {
    if args == [] then []
    else Visits(tgt, args[0], base, off) + VisitsSeq(tgt, args[1..], base, Advance(tgt, args[0], off))
  }

  function CallVisits(tgt: Target, c: Call): seq<Visit> {
    (if c.ret.Some? then Visits(tgt, c.ret.value, None, 0) else []) + VisitsSeq(tgt, c.args, None, 0)
  }

  // ---- the compiler ----

  predicate Used(used: set<nat>, a: Arg) { a.ResultArg? && a.id in used }

  /** The copyout index known for a reference. */
  function KnownIndex(infos: Infos, ref: Option<nat>): u64 {
    if ref.Some? && ref.value in infos then infos[ref.value].idx else 0
  }

  predicate EmitsCopyin(tgt: Target, v: Visit) { v.addr.Some? && CopiedIn(tgt, v.arg) }

  /** What is copied in can be written. */
  predicate WritableVisits(tgt: Target, vs: seq<Visit>) {
    forall i :: 0 <= i < |vs| && EmitsCopyin(tgt, vs[i]) ==> Writable(vs[i].arg)
  }

  function Located(used: set<nat>, infos: Infos, v: Visit): Infos {
    if v.addr.Some? && Used(used, v.arg) then infos[v.arg.id := Info(v.addr.value, 0, false)] else infos
  }

  /** The copyin instructions of the visited arguments; addresses of used results are recorded. */
  function Copyins(tgt: Target, used: set<nat>, infos: Infos, vs: seq<Visit>): (seq<Copyin>, Infos)
    requires WritableVisits(tgt, vs)
    decreases vs
  {
    if vs == [] then ([], infos)
    else
      var infos0 := Located(used, infos, vs[0]);
      var here := if EmitsCopyin(tgt, vs[0])
                  then [Copyin(vs[0].addr.value, ArgOf(tgt, KnownIndex(infos0, RefOf(vs[0].arg)), vs[0].arg))] else [];
      var (rest, infos1) := Copyins(tgt, used, infos0, vs[1..]);
      (here + rest, infos1)
  }

  /** The copyout instructions, numbered from k on. */
  function Copyouts(tgt: Target, used: set<nat>, infos: Infos, k: nat, vs: seq<Visit>): (seq<Copyout>, Infos, nat)
    decreases vs
  {
    if vs == [] then ([], infos, k)
    else if !Used(used, vs[0].arg) then Copyouts(tgt, used, infos, k, vs[1..])
    else
      var a := vs[0].arg;
      var info := if a.id in infos then infos[a.id] else Info(0, 0, false);
      if info.ret then Copyouts(tgt, used, infos, k, vs[1..])
      else
        var (rest, infos1, k1) := Copyouts(tgt, used, infos[a.id := info.(idx := Wrap64(k))], k + 1, vs[1..]);
        ([Copyout(Wrap64(k), info.addr, Wrap64(Size(tgt, a)))] + rest, infos1, k1)
  }

  function CallArgs(tgt: Target, infos: Infos, args: seq<Arg>): (r: seq<ExecArg>)
    requires forall i :: 0 <= i < |args| ==> Writable(args[i])
    ensures |r| == |args|
  {
    seq(|args|, i requires 0 <= i < |args| => ArgOf(tgt, KnownIndex(infos, RefOf(args[i])), args[i]))
  }

  /** A call whose parts can all be written: parts in memory, and the arguments themselves. */
  predicate WritableCall(tgt: Target, c: Call) {
    && WritableVisits(tgt, CallVisits(tgt, c))
    && (forall i :: 0 <= i < |c.args| ==> Writable(c.args[i]))
    && (c.ret.Some? ==> c.ret.value.ResultArg?)
  }

  predicate RetUsed(used: set<nat>, c: Call) { c.ret.Some? && Used(used, c.ret.value) }

  /** Compiles one call; `csums` are the checksum copyins, which come last. */
  function CompileCall(tgt: Target, used: set<nat>, infos: Infos, k: nat, c: Call, csums: seq<Copyin>)
    : (ExecCall, Infos, nat)
    requires WritableCall(tgt, c)
  {
    var vs := CallVisits(tgt, c);
    var (cins, infos1) := Copyins(tgt, used, infos, vs);
    var infos2 := if RetUsed(used, c) then infos1[c.ret.value.id := Info(0, Wrap64(k), true)] else infos1;
    var index := if RetUsed(used, c) then Wrap64(k) else NO_COPYOUT;
    var args := CallArgs(tgt, infos2, c.args);
    var (couts, infos3, k1) := Copyouts(tgt, used, infos2, if RetUsed(used, c) then k + 1 else k, vs);
    (ExecCall(Some(c.meta), index, args, cins + csums, couts), infos3, k1)
  }

  function CompileCalls(tgt: Target, used: set<nat>, infos: Infos, k: nat, cs: seq<Call>,
                        csums: seq<seq<Copyin>>): seq<ExecCall>
    requires |csums| == |cs| && forall i :: 0 <= i < |cs| ==> WritableCall(tgt, cs[i])
    decreases cs
  {
    if cs == [] then []
    else
      var (first, infos1, k1) := CompileCall(tgt, used, infos, k, cs[0], csums[0]);
      [first] + CompileCalls(tgt, used, infos1, k1, cs[1..], csums[1..])
  }

  // ---- what the instructions are meant to be ----

  /** The results of visited arguments that others refer to, in order. */
  function Definers(used: set<nat>, vs: seq<Visit>): seq<nat> {
    if vs == [] then []
    else (if Used(used, vs[0].arg) then [vs[0].arg.id] else []) + Definers(used, vs[1..])
  }

  function AllDefiners(tgt: Target, used: set<nat>, cs: seq<Call>): seq<nat> {
    if cs == [] then [] else Definers(used, CallVisits(tgt, cs[0])) + AllDefiners(tgt, used, cs[1..])
  }

  /** A numbering of results. */
  type Numbering = map<nat, u64>

  function NumberOf(ix: Numbering, ref: Option<nat>): u64 {
    if ref.Some? && ref.value in ix then ix[ref.value] else 0
  }

  function MeantCopyins(tgt: Target, ix: Numbering, vs: seq<Visit>): seq<Copyin>
    requires WritableVisits(tgt, vs)
    decreases vs
  {
    if vs == [] then []
    else
      (if EmitsCopyin(tgt, vs[0]) then [Copyin(vs[0].addr.value, ArgOf(tgt, NumberOf(ix, RefOf(vs[0].arg)), vs[0].arg))]
       else [])
      + MeantCopyins(tgt, ix, vs[1..])
  }

  function MeantCopyouts(tgt: Target, used: set<nat>, ix: Numbering, vs: seq<Visit>): seq<Copyout>
    decreases vs
  {
    if vs == [] then []
    else
      (if Used(used, vs[0].arg)
       then [Copyout(NumberOf(ix, Some(vs[0].arg.id)), if vs[0].addr.Some? then vs[0].addr.value else 0,
                     Wrap64(Size(tgt, vs[0].arg)))]
       else [])
      + MeantCopyouts(tgt, used, ix, vs[1..])
  }

  function MeantCall(tgt: Target, used: set<nat>, ix: Numbering, c: Call, csums: seq<Copyin>): ExecCall
    requires WritableCall(tgt, c)
  {
    ExecCall(Some(c.meta),
             if RetUsed(used, c) then NumberOf(ix, Some(c.ret.value.id)) else NO_COPYOUT,
             seq(|c.args|, i requires 0 <= i < |c.args| => ArgOf(tgt, NumberOf(ix, RefOf(c.args[i])), c.args[i])),
             MeantCopyins(tgt, ix, CallVisits(tgt, c)) + csums,
             MeantCopyouts(tgt, used, ix, VisitsSeq(tgt, c.args, None, 0)))
  }

  function MeantCalls(tgt: Target, used: set<nat>, ix: Numbering, cs: seq<Call>, csums: seq<seq<Copyin>>): seq<ExecCall>
    requires |csums| == |cs| && forall i :: 0 <= i < |cs| ==> WritableCall(tgt, cs[i])
    decreases cs
  {
    if cs == [] then []
    else [MeantCall(tgt, used, ix, cs[0], csums[0])] + MeantCalls(tgt, used, ix, cs[1..], csums[1..])
  }
}
