/** The text form of programs: what the serializer writes for every argument. Arguments that equal
    their default are elided, padding is skipped and results that others use are named r0, r1, ... */
module Printer {
  import opened ProgTypes
  import opened Numbers
  import opened DataText
  import opened Validation

  const ADDR_BASE: u64 := 0x7f00_0000_0000

  /** The serializer's names for results: the number of each, and the next free number. */
  datatype Vars = Vars(ids: map<nat, nat>, next: nat)

  function VarName(n: nat): string { "r" + Dec(n) }

  function Alloc(vs: Vars, id: nat): Vars { Vars(vs.ids[id := vs.next], vs.next + 1) }

  /** Drops trailing zeros as long as the last two bytes are both zero. */
  function StripZeros(data: seq<char>): (d: seq<char>)
    ensures |d| <= |data|
    decreases |data|
  {
    if |data| >= 2 && data[|data| - 1] == ZERO_BYTE && data[|data| - 2] == ZERO_BYTE
    then StripZeros(data[..|data| - 1]) else data
  }

  /** The bytes that get printed: variable-size data is stripped only when that saves more than 8. */
  function PrintedData(data: seq<char>, varlen: bool): seq<char> {
    var d := StripZeros(data);
    if varlen && |d| + 8 >= |data| then data else d
  }

  function PrintData(a: Arg): string
    requires a.DataArg? && a.typ.BufferT?
  {
    if a.typ.c.dir == DirOut then "\"\"/" + Dec(DataSize(a))
    else
      var d := PrintedData(a.data, a.typ.c.varlen);
      DataLiteral(d, IsReadableType(a.typ))
      + (if a.typ.c.varlen && |a.data| != |d| then "/" + Dec(|a.data|) else "")
  }

  function PrintAddr(a: Arg): string
    requires a.PointerArg?
  {
    "(" + Hex(Wrap64(ADDR_BASE + a.address)) + (if a.vmaSize != 0 then "/" + Hex(a.vmaSize) else "") + ")"
  }

  /** How many leading arguments remain when trailing defaults are dropped. */
  function Cut(tgt: Target, used: set<nat>, args: seq<Arg>): (n: nat)
    ensures n <= |args|
    decreases |args|
  {
    if args != [] && IsDefault(tgt, used, args[|args| - 1]) then Cut(tgt, used, args[..|args| - 1]) else |args|
  }

  predicate FixedInner(t: Type) { !t.ArrayT? || t.fixedLen.Some? }

  function Shown(tgt: Target, used: set<nat>, a: Arg): seq<Arg>
    requires a.GroupArg?
  {
    var n := Cut(tgt, used, a.inner);
    if FixedInner(a.typ) && n < |a.inner| then a.inner[..n] else a.inner
  }

  function PrintArg(tgt: Target, used: set<nat>, a: Arg, vs: Vars): (string, Vars)
    decreases a, 0
  {
    match a
    case ConstArg(_, val) => (Hex(val), vs)
    case PointerArg(typ, address, _, res) =>
      if IsSpecial(a) then (Hex(address), vs)
      else if res.None? then ("&" + PrintAddr(a) + "=" + (if IsAnyPtr(typ) then "ANY=" else "") + "nil", vs)
      else if IsDefault(tgt, used, res.value) && !IsAnyPtr(typ) then ("&" + PrintAddr(a), vs)
      else
        var (s, vs') := PrintArg(tgt, used, res.value, vs);
        ("&" + PrintAddr(a) + "=" + (if IsAnyPtr(typ) then "ANY=" else "") + s, vs')
    case DataArg(typ, _, _) => (if typ.BufferT? then PrintData(a) else "", vs)
    case GroupArg(typ, inner) =>
      var (s, vs') := PrintInner(tgt, used, Shown(tgt, used, a), vs);
      if typ.StructT? then ("{" + s + "}", vs') else ("[" + s + "]", vs')
    case UnionArg(_, option) =>
      if IsDefault(tgt, used, option) then ("@" + FieldName(option.typ), vs)
      else
        var (s, vs') := PrintArg(tgt, used, option, vs);
        ("@" + FieldName(option.typ) + "=" + s, vs')
    case ResultArg(_, id, ref, opDiv, opAdd, val) =>
      var vs' := if id in used then Alloc(vs, id) else vs;
      ((if id in used then "<" + VarName(vs.next) + "=>" else "") + PrintResult(a, vs'), vs')
  }

  /** The value of a result argument. A reference whose name is unknown, for which the serializer
      panics, prints as r0 here; a text with a wrong name would not read back as the same program. */
  function PrintResult(a: Arg, vs: Vars): string
    requires a.ResultArg?
  {
    if a.ref.None? then Hex(a.val)
    else
      VarName(if a.ref.value in vs.ids then vs.ids[a.ref.value] else 0)
      + (if a.opDiv != 0 then "/" + Dec(a.opDiv) else "")
      + (if a.opAdd != 0 then "+" + Dec(a.opAdd) else "")
  }

  /** Group members: all but the very first one are preceded by a comma, padding is left out. */
  function PrintInner(tgt: Target, used: set<nat>, args: seq<Arg>, vs: Vars): (string, Vars)
    decreases args, 1
  {
    if args == [] then ("", vs)
    else if IsPad(args[0].typ) then PrintTail(tgt, used, args[1..], vs)
    else
      var (s, vs1) := PrintArg(tgt, used, args[0], vs);
      var (t, vs2) := PrintTail(tgt, used, args[1..], vs1);
      (s + t, vs2)
  }

  function PrintTail(tgt: Target, used: set<nat>, args: seq<Arg>, vs: Vars): (string, Vars)
    decreases args, 0
  {
    if args == [] then ("", vs)
    else if IsPad(args[0].typ) then PrintTail(tgt, used, args[1..], vs)
    else
      var (s, vs1) := PrintArg(tgt, used, args[0], vs);
      var (t, vs2) := PrintTail(tgt, used, args[1..], vs1);
      (", " + s + t, vs2)
  }

  function RetUsed(used: set<nat>, c: Call): bool {
    c.ret.Some? && c.ret.value.ResultArg? && c.ret.value.id in used
  }

  /** One call, without the line break. */
  function PrintCall(tgt: Target, used: set<nat>, c: Call, vs: Vars): (string, Vars) {
    var vs1 := if RetUsed(used, c) then Alloc(vs, c.ret.value.id) else vs;
    var name := if c.meta < |tgt.syscalls| then tgt.syscalls[c.meta].name else "";
    var (s, vs2) := PrintInner(tgt, used, c.args, vs1);
    ((if RetUsed(used, c) then VarName(vs.next) + " = " else "") + name + "(" + s + ")", vs2)
  }

  function PrintLines(tgt: Target, used: set<nat>, calls: seq<Call>, vs: Vars): seq<string> {
    if calls == [] then []
    else
      var (s, vs1) := PrintCall(tgt, used, calls[0], vs);
      [s] + PrintLines(tgt, used, calls[1..], vs1)
  }

  function JoinLines(lines: seq<string>): string {
    if lines == [] then "" else lines[0] + "\n" + JoinLines(lines[1..])
  }

  function Lines(tgt: Target, p: Prog): seq<string> {
    PrintLines(tgt, RefsCalls(p.calls), p.calls, Vars(map[], 0))
  }

  function Serialize(tgt: Target, p: Prog): string {
    JoinLines(Lines(tgt, p))
  }
}
