/** The recursive-descent parser of program text, as a function from the remaining text and the
    parser's tables to an argument, the text behind it and the new tables. A syntax error of any kind
    is `Fail`; text that does not fit the descriptions is skipped and replaced by defaults, unless
    parsing is strict. */
module Parser {
  import opened ProgTypes
  import opened Numbers
  import opened DataText
  import opened Validation
  import opened Printer

  const MAX_LINE: nat := 0x10_0000

  /** Named results, the next free identity, and which result refers to which. */
  datatype Tables = Tables(vars: map<string, nat>, next: nat, links: map<nat, nat>)

  datatype Outcome<+T> = Fail | Ok(value: T, rest: string, st: Tables)

  /** Skips an argument that does not fit, minding brackets and quotes. */
  function EatExcessive(stopAtComma: bool, r: string, paren: int, brack: int, brace: int): (r': string)
    ensures |r'| <= |r|
    ensures r != [] && r[0] !in {')', ']', '}', ','} ==> |r'| < |r|
    decreases |r|
  {
    if r == [] then r
    else if r[0] == '(' then EatExcessive(stopAtComma, SkipWs(r[1..]), paren + 1, brack, brace)
    else if r[0] == ')' then
      if paren == 0 then r else EatExcessive(stopAtComma, SkipWs(r[1..]), paren - 1, brack, brace)
    else if r[0] == '[' then EatExcessive(stopAtComma, SkipWs(r[1..]), paren, brack + 1, brace)
    else if r[0] == ']' then
      if brack == 0 then r else EatExcessive(stopAtComma, SkipWs(r[1..]), paren, brack - 1, brace)
    else if r[0] == '{' then EatExcessive(stopAtComma, SkipWs(r[1..]), paren, brack, brace + 1)
    else if r[0] == '}' then
      if brace == 0 then r else EatExcessive(stopAtComma, SkipWs(r[1..]), paren, brack, brace - 1)
    else if r[0] == ',' && stopAtComma && paren == 0 && brack == 0 && brace == 0 then r
    else if r[0] == '\'' || r[0] == '\"' then
      var r1 := SkipUntil(SkipWs(r[1..]), r[0]);
      if r1 == [] then r1 else EatExcessive(stopAtComma, SkipWs(r1[1..]), paren, brack, brace)
    else EatExcessive(stopAtComma, SkipWs(r[1..]), paren, brack, brace)
  }

  function SkipUntil(r: string, quote: char): (r': string)
    ensures |r'| <= |r|
    decreases |r|
  {
    if r == [] || r[0] == quote then r else SkipUntil(SkipWs(r[1..]), quote)
  }

  /** A whole word such as nil, one expected character at a time. */
  function ExpectWord(r: string, word: string): (o: Option<string>)
    ensures o.Some? ==> |o.value| <= |r| && (word != [] ==> |o.value| < |r|)
    decreases |word|
  {
    if word == [] then Some(r)
    else
      var r1 := Expect(r, word[0]);
      if r1.None? then None else ExpectWord(r1.value, word[1..])
  }

  /** Character c and a number behind it, if c is next; otherwise the given value. */
  function OptionalNumber(r: string, c: char, absent: u64): (o: Option<(u64, string)>)
    ensures o.Some? ==> |o.value.1| <= |r|
  {
    if r == [] then None
    else if r[0] != c then Some((absent, r))
    else
      var r1 := Expect(r, c);
      var id := if r1.Some? then Ident(r1.value) else None;
      if id.None? then None
      else
        var v := ParseUint(id.value.0);
        if v.None? then None else Some((v.value, id.value.1))
  }

  function RoundDown(v: nat, unit: pos): nat
  {
    v - v % unit
  }

  /** A sized region is rounded to pages and moved inside memory: its start and size. */
  function Region(tgt: Target, addr: u64, size: u64): (nat, nat) {
    var round := RoundDown((size + tgt.pageSize - 1) % TWO64, tgt.pageSize);
    var whole := if round == 0 then tgt.pageSize else round;
    var vma := if whole > MaxMem(tgt) then MaxMem(tgt) else whole;
    var page := RoundDown(addr, tgt.pageSize);
    (if page > MaxMem(tgt) - vma then MaxMem(tgt) - vma else page, vma)
  }

  /** An address with optional offset and size. */
  function ParseAddr(tgt: Target, r: string): (o: Option<(u64, u64, string)>)
    ensures o.Some? ==> |o.value.2| < |r|
  {
    var r1 := Expect(r, '(');
    var id := if r1.Some? then Ident(r1.value) else None;
    var base := if id.Some? then ParseUint(id.value.0) else None;
    if base.None? || base.value < ADDR_BASE then None
    else ParseAddrOffset(tgt, base.value - ADDR_BASE, id.value.1)
  }

  /** Old programs may add an offset to the address or subtract one. */
  function ParseAddrOffset(tgt: Target, addr: u64, r: string): (o: Option<(u64, u64, string)>)
    ensures o.Some? ==> |o.value.2| < |r|
  {
    if r != [] && (r[0] == '+' || r[0] == '-') then
      var off := OptionalNumber(r, r[0], 0);
      if off.None? then None
      else ParseAddrSize(tgt, (addr + if r[0] == '+' then off.value.0 else Neg64(off.value.0)) % TWO64, off.value.1)
    else ParseAddrSize(tgt, addr, r)
  }

  function ParseAddrSize(tgt: Target, addr: u64, r: string): (o: Option<(u64, u64, string)>)
    ensures o.Some? ==> |o.value.2| < |r|
  {
    if r != [] && r[0] == '/' then
      var size := OptionalNumber(r, '/', 0);
      if size.None? then None
      else
        var (start, vma) := Region(tgt, addr, size.value.0);
        var r1 := Expect(size.value.1, ')');
        if r1.None? || vma >= TWO64 then None else Some((start, vma, r1.value))
    else
      var r1 := Expect(r, ')');
      if r1.None? then None else Some((addr, 0, r1.value))
  }

  function ParseArg(tgt: Target, strict: bool, t: Type, r: string, st: Tables): (o: Outcome<Arg>)
    ensures o.Ok? ==> |o.rest| < |r|
    decreases |r|, 2
  {
    if r != [] && r[0] == '<' then
      var r1 := Expect(r, '<');
      var id := if r1.Some? then Ident(r1.value) else None;
      var r2 := if id.Some? then ExpectWord(id.value.1, "=>") else None;
      if r2.None? then Fail
      else
        var o := ParseImpl(tgt, strict, t, r2.value, st);
        if o.Ok? && o.value.ResultArg?
        then o.(st := o.st.(vars := o.st.vars[id.value.0 := o.value.id])) else o
    else ParseImpl(tgt, strict, t, r, st)
  }

  function Default(tgt: Target, t: Type, r: string, st: Tables): Outcome<Arg>
  {
    var (a, next) := DefaultArg(tgt, t, st.next);
    Ok(a, r, st.(next := next))
  }

  /** The recovery from an argument of the wrong kind. */
  function Recover(tgt: Target, strict: bool, t: Type, r: string, st: Tables): (o: Outcome<Arg>)
    ensures o.Ok? ==> |o.rest| <= |r|
    ensures o.Ok? && r != [] && r[0] !in {')', ']', '}', ','} ==> |o.rest| < |r|
  {
    if strict then Fail else Default(tgt, t, EatExcessive(true, r, 0, 0, 0), st)
  }

  /** The first character decides what kind of argument follows. */
  function ParseImpl(tgt: Target, strict: bool, t: Type, r: string, st: Tables): (o: Outcome<Arg>)
    ensures o.Ok? ==> |o.rest| < |r|
    decreases |r|, 1
  {
    if r == [] then Fail
    else if r[0] == '0' then ParseInt(tgt, strict, t, r, st)
    else if r[0] == 'r' then ParseRes(tgt, strict, t, r, st)
    else if r[0] == '&' then ParsePointer(tgt, strict, t, r, st)
    else if r[0] == '\"' || r[0] == '\'' then ParseString(tgt, strict, t, r, st)
    else if r[0] == '{' then ParseStruct(tgt, strict, t, r, st)
    else if r[0] == '[' then ParseArray(tgt, strict, t, r, st)
    else if r[0] == '@' then ParseUnion(tgt, strict, t, r, st)
    else if r[0] == 'n' then
      var r1 := ExpectWord(r, "nil");
      if r1.None? then Fail else Default(tgt, t, r1.value, st)
    else Fail
  }

  function ParsePointer(tgt: Target, strict: bool, t: Type, r: string, st: Tables): (o: Outcome<Arg>)
    requires r != [] && r[0] == '&'
    ensures o.Ok? ==> |o.rest| < |r|
    decreases |r|, 0
  {
    if !t.PtrT? && !t.VmaT? then Recover(tgt, strict, t, r, st)
    else
      var r1 := Expect(r, '&');
      var addr := if r1.Some? then ParseAddr(tgt, r1.value) else None;
      if addr.None? || addr.value.2 == [] then Fail
      else
        var (address, vmaSize, r2) := addr.value;
        if r2[0] != '=' then MakePointer(tgt, strict, t, address, vmaSize, r2, st)
        else
          var r3 := Expect(r2, '=');
          if r3.None? || r3.value == [] then Fail
          else ParsePointee(tgt, strict, t, address, vmaSize, r3.value, st)
  }

  /** The text behind the equals sign of a pointer. */
  function ParsePointee(tgt: Target, strict: bool, t: Type, address: u64, vmaSize: u64, r: string,
                        st: Tables): (o: Outcome<Arg>)
    requires (t.PtrT? || t.VmaT?) && r != []
    ensures o.Ok? ==> |o.rest| <= |r|
    decreases |r|, 3
  {
    if r[0] == 'A' then
      var r1 := ExpectWord(r, "ANY=");
      var o := if r1.Some? then ParseArg(tgt, strict, ANY_ARRAY, r1.value, st) else Fail;
      if o.Fail? then Fail
      else o.(value := PointerArg(MakeAnyPtrType(tgt, t.c.size, t.c.fld), address, 0, Some(o.value)))
    else if t.VmaT? then
      var r1 := ExpectWord(r, "nil");
      if r1.None? then Fail else MakePointer(tgt, strict, t, address, vmaSize, r1.value, st)
    else
      var o := ParseArg(tgt, strict, t.elem, r, st);
      if o.Fail? then Fail else o.(value := PointerArg(t, address, 0, Some(o.value)))
  }

  function ParseStruct(tgt: Target, strict: bool, t: Type, r: string, st: Tables): (o: Outcome<Arg>)
    requires r != []
    ensures o.Ok? ==> |o.rest| < |r|
    decreases |r|, 0
  {
    var r1 := Expect(r, '{');
    if r1.None? then Fail
    else if !t.StructT? then RecoverGroup(tgt, strict, t, r1.value, '}', st)
    else FinishStruct(tgt, strict, t, ParseFields(tgt, strict, Desc(tgt, t.key).fields, '}', r1.value, st))
  }

  /** Behind the fields: the closing bracket, and defaults for the fields that are missing. */
  function FinishStruct(tgt: Target, strict: bool, t: Type, o: Outcome<seq<Arg>>): (o': Outcome<Arg>)
    requires t.StructT? && (o.Ok? ==> |o.value| <= |Desc(tgt, t.key).fields|)
    ensures o'.Ok? ==> o.Ok? && |o'.rest| < |o.rest|
  {
    var fields := Desc(tgt, t.key).fields;
    var r := if o.Ok? then Expect(o.rest, '}') else None;
    if r.None? || (strict && exists i :: |o.value| <= i < |fields| && !IsPad(fields[i])) then Fail
    else
      var (others, next) := DefaultArgs(tgt, fields[|o.value|..], o.st.next);
      Ok(GroupArg(t, o.value + others), r.value, o.st.(next := next))
  }

  function ParseArray(tgt: Target, strict: bool, t: Type, r: string, st: Tables): (o: Outcome<Arg>)
    requires r != []
    ensures o.Ok? ==> |o.rest| < |r|
    decreases |r|, 0
  {
    var r1 := Expect(r, '[');
    if r1.None? then Fail
    else if !t.ArrayT? then RecoverGroup(tgt, strict, t, r1.value, ']', st)
    else FinishArray(tgt, strict, t, ParseElems(tgt, strict, t.elem, r1.value, st))
  }

  /** Behind the elements: the closing bracket; an array of fixed length is cut or filled. */
  function FinishArray(tgt: Target, strict: bool, t: Type, o: Outcome<seq<Arg>>): (o': Outcome<Arg>)
    requires t.ArrayT?
    ensures o'.Ok? ==> o.Ok? && |o'.rest| < |o.rest|
  {
    var r := if o.Ok? then Expect(o.rest, ']') else None;
    if r.None? then Fail
    else if t.fixedLen.None? then Ok(GroupArg(t, o.value), r.value, o.st)
    else if |o.value| >= t.fixedLen.value then Ok(GroupArg(t, o.value[..t.fixedLen.value]), r.value, o.st)
    else if strict then Fail
    else
      var (others, next) := DefaultArgs(tgt, Repeat(t.elem, t.fixedLen.value - |o.value|), o.st.next);
      Ok(GroupArg(t, o.value + others), r.value, o.st.(next := next))
  }

  function ParseUnion(tgt: Target, strict: bool, t: Type, r: string, st: Tables): (o: Outcome<Arg>)
    requires r != [] && r[0] == '@'
    ensures o.Ok? ==> |o.rest| < |r|
    decreases |r|, 0
  {
    if !t.UnionT? then Recover(tgt, strict, t, r, st)
    else
      var r1 := Expect(r, '@');
      var id := if r1.Some? then Ident(r1.value) else None;
      if id.None? then Fail
      else
        var opt := FindField(Desc(tgt, t.key).fields, id.value.0);
        if opt.None? then Recover(tgt, strict, t, id.value.1, st)
        else if id.value.1 == [] then Fail
        else if id.value.1[0] != '=' then
          var o := Default(tgt, opt.value, id.value.1, st);
          o.(value := UnionArg(t, o.value))
        else
          var r2 := Expect(id.value.1, '=');
          var o := if r2.Some? then ParseArg(tgt, strict, opt.value, r2.value, st) else Fail;
          if o.Fail? then Fail else o.(value := UnionArg(t, o.value))
  }

  /** Skips to the closing bracket of a group that does not fit its type. */
  function RecoverGroup(tgt: Target, strict: bool, t: Type, r: string, close: char, st: Tables): (o: Outcome<Arg>)
    ensures o.Ok? ==> |o.rest| <= |r|
  {
    if strict then Fail
    else
      var r1 := Expect(EatExcessive(false, r, 0, 0, 0), close);
      if r1.None? then Fail else Default(tgt, t, r1.value, st)
  }

  function Residue(v: u64, n: nat): (r: u64)
    requires n > 0
  {
    ResidueBound(v, n);
    v % n
  }

  lemma ResidueBound(v: u64, n: nat)
    requires n > 0
    ensures 0 <= v % n <= v
  {
  }

  function ParseInt(tgt: Target, strict: bool, t: Type, r: string, st: Tables): (o: Outcome<Arg>)
    ensures o.Ok? ==> |o.rest| < |r|
  {
    var id := Ident(r);
    var v := if id.Some? then ParseUint(id.value.0) else None;
    if v.None? then Fail
    else if t.IntT? then Ok(ConstArg(t, v.value), id.value.1, st)
    else if t.ResourceT? then
      Ok(ResultArg(t, st.next, None, 0, 0, v.value), id.value.1, st.(next := st.next + 1))
    else if (t.PtrT? || t.VmaT?) && tgt.specialPointers != [] then
      Ok(PointerArg(t, Neg64(Residue(Neg64(v.value), |tgt.specialPointers|)), 0, None), id.value.1, st)
    else Recover(tgt, strict, t, id.value.1, st)
  }

  function ParseRes(tgt: Target, strict: bool, t: Type, r: string, st: Tables): (o: Outcome<Arg>)
    ensures o.Ok? ==> |o.rest| < |r|
  {
    var id := Ident(r);
    var div := if id.Some? then OptionalNumber(id.value.1, '/', 0) else None;
    var add := if div.Some? then OptionalNumber(div.value.1, '+', 0) else None;
    if add.None? then Fail
    else if id.value.0 !in st.vars then
      if strict then Fail else Default(tgt, t, add.value.1, st)
    else
      var v := st.vars[id.value.0];
      Ok(ResultArg(t, st.next, Some(v), div.value.0, add.value.0, 0), add.value.1,
         st.(next := st.next + 1, links := st.links[st.next := v]))
  }

  /** A pointer without a printed pointee: the default pointee, or none for a vma. */
  function MakePointer(tgt: Target, strict: bool, t: Type, address: u64, vmaSize: u64, r: string,
                       st: Tables): (o: Outcome<Arg>)
    requires (t.PtrT? || t.VmaT?)
    ensures o.Ok? ==> o.rest == r
  {
    if t.VmaT? then
      if strict && address % tgt.pageSize != 0 then Fail
      else Ok(PointerArg(t, RoundDown(address, tgt.pageSize), vmaSize, None), r, st)
    else
      var o := Default(tgt, t.elem, r, st);
      o.(value := PointerArg(t, address, 0, Some(o.value)))
  }

  function ParseString(tgt: Target, strict: bool, t: Type, r: string, st: Tables): (o: Outcome<Arg>)
    requires r != [] && (r[0] == '\"' || r[0] == '\'')
    ensures o.Ok? ==> |o.rest| < |r|
  {
    var d := ParseData(r);
    if !t.BufferT? then Recover(tgt, strict, t, r, st)
    else if d.None? || d.value.1 == [] then Fail
    else
      var (data, r1) := d.value;
      var num := OptionalNumber(r1, '/', 0);
      if num.None? || (strict && num.value.0 > MaxMem(tgt)) then Fail
      else
        var given := if num.value.0 > MaxMem(tgt) then MaxMem(tgt) else num.value.0;
        var size := if !t.c.varlen then t.c.size else if r1[0] == '/' then given else |data|;
        if size >= TWO64 then Fail
        else if t.c.dir == DirOut then Ok(DataArg(t, [], size), num.value.1, st)
        else Ok(DataArg(t, Resize(data, size), 0), num.value.1, st)
  }

  /** Data padded with zeros or cut to the given size. */
  function Resize(data: seq<char>, size: nat): (d: seq<char>)
    ensures |d| == size
  {
    if size > |data| then data + Zeros(size - |data|) else data[..size]
  }

  /** Struct fields up to the closing bracket; padding takes no text. */
  function ParseFields(tgt: Target, strict: bool, types: seq<Type>, close: char, r: string,
                       st: Tables): (o: Outcome<seq<Arg>>)
    ensures o.Ok? ==> |o.rest| <= |r| && |o.value| <= |types|
    decreases |r|, 3, |types|
  {
    if r == [] then Fail
    else if r[0] == close then Ok([], r, st)
    else if types == [] then if strict then Fail else Ok([], EatExcessive(false, r, 0, 0, 0), st)
    else if IsPad(types[0]) then
      if close == ')' then Fail
      else
        var o := ParseFields(tgt, strict, types[1..], close, r, st);
        if o.Fail? then Fail else o.(value := [ConstArg(types[0], 0)] + o.value)
    else
      var a := ParseArg(tgt, strict, types[0], r, st);
      if a.Fail? || a.rest == [] then Fail
      else
        var r1 := if a.rest[0] == close then Some(a.rest) else Expect(a.rest, ',');
        var o := if r1.Some? then ParseFields(tgt, strict, types[1..], close, r1.value, a.st) else Fail;
        if o.Fail? then Fail else o.(value := [a.value] + o.value)
  }

  function ParseElems(tgt: Target, strict: bool, t: Type, r: string, st: Tables): (o: Outcome<seq<Arg>>)
    ensures o.Ok? ==> |o.rest| <= |r|
    decreases |r|, 3, 0
  {
    if r == [] then Fail
    else if r[0] == ']' then Ok([], r, st)
    else
      var a := ParseArg(tgt, strict, t, r, st);
      if a.Fail? || a.rest == [] then Fail
      else
        var r1 := if a.rest[0] == ']' then Some(a.rest) else Expect(a.rest, ',');
        var o := if r1.Some? then ParseElems(tgt, strict, t, r1.value, a.st) else Fail;
        if o.Fail? then Fail else o.(value := [a.value] + o.value)
  }

  // ---- calls and programs ----

  function Lookup(syscalls: seq<Syscall>, name: string, i: nat): (o: Option<nat>)
    requires i <= |syscalls|
    ensures o.Some? ==> i <= o.value < |syscalls| && syscalls[o.value].name == name
    decreases |syscalls| - i
  {
    if i == |syscalls| then None
    else if syscalls[i].name == name then Some(i)
    else Lookup(syscalls, name, i + 1)
  }

  /** Default arguments for the types from index i on. */
  function DefaultArgs(tgt: Target, types: seq<Type>, next: nat): (r: (seq<Arg>, nat))
    ensures |r.0| == |types|
  {
    if types == [] then ([], next)
    else
      var (first, n1) := DefaultArg(tgt, types[0], next);
      var (others, n2) := DefaultArgs(tgt, types[1..], n1);
      ([first] + others, n2)
  }

  function ParseCall(tgt: Target, strict: bool, line: string, st: Tables): Option<(Call, Tables)>
  {
    var id := Ident(line);
    if id.None? || id.value.1 == [] then None
    else
      var named := id.value.1[0] == '=';
      var r1 := if named then Expect(id.value.1, '=') else None;
      var id2 := if named then (if r1.Some? then Ident(r1.value) else None) else id;
      var meta := if id2.Some? then Lookup(tgt.syscalls, id2.value.0, 0) else None;
      if meta.None? then None else ParseCallArgs(tgt, strict, meta.value, if named then Some(id.value.0) else None,
                                                 id2.value.1, st)
  }

  /** The argument list of a call. */
  function ParseCallArgs(tgt: Target, strict: bool, meta: nat, name: Option<string>, r: string,
                         st: Tables): Option<(Call, Tables)>
    requires meta < |tgt.syscalls|
  {
    var sys := tgt.syscalls[meta];
    var st1 := if sys.ret.Some? then st.(next := st.next + 1) else st;
    var r1 := Expect(r, '(');
    if r1.None? then None
    else FinishCall(tgt, strict, meta, name, st.next, ParseFields(tgt, strict, sys.args, ')', r1.value, st1))
  }

  /** Behind the arguments: missing ones get defaults, and only now the name of the result, whose
      identity is `id`, is bound. */
  function FinishCall(tgt: Target, strict: bool, meta: nat, name: Option<string>, id: nat,
                      o: Outcome<seq<Arg>>): Option<(Call, Tables)>
    requires meta < |tgt.syscalls| && (o.Ok? ==> |o.value| <= |tgt.syscalls[meta].args|)
  {
    var sys := tgt.syscalls[meta];
    var r := if o.Ok? then Expect(o.rest, ')') else None;
    if r.None? || (r.value != [] && r.value[0] != '#') || (strict && |o.value| < |sys.args|) then None
    else
      var (others, next) := DefaultArgs(tgt, sys.args[|o.value|..], o.st.next);
      var ret := if sys.ret.Some? then Some(ResultArg(sys.ret.value, id, None, 0, 0, 0)) else None;
      var vars := if name.Some? && ret.Some? then o.st.vars[name.value := id] else o.st.vars;
      Some((Call(meta, o.value + others, ret), o.st.(next := next, vars := vars)))
  }

  function ParseLines(tgt: Target, strict: bool, lines: seq<string>, st: Tables): Option<(seq<Call>, Tables)>
  {
    if lines == [] then Some(([], st))
    else if lines[0] == [] || lines[0][0] == '#' then ParseLines(tgt, strict, lines[1..], st)
    else
      var c := ParseCall(tgt, strict, lines[0], st);
      if c.None? then None
      else
        var others := ParseLines(tgt, strict, lines[1..], c.value.1);
        if others.None? then None else Some(([c.value.0] + others.value.0, others.value.1))
  }

  function LineEnd(text: string): (n: nat)
    ensures n <= |text|
    ensures forall i :: 0 <= i < n ==> text[i] != '\n'
    ensures n < |text| ==> text[n] == '\n'
  {
    if text == [] || text[0] == '\n' then 0 else 1 + LineEnd(text[1..])
  }

  /** The lines of a text, without a carriage return at their ends; a line of MAX_LINE is too long. */
  function ScanLines(text: string): Option<seq<string>>
    decreases |text|
  {
    if text == [] then Some([])
    else
      var n := LineEnd(text);
      if n >= MAX_LINE then None
      else
        var line := if n > 0 && text[n - 1] == '\r' then text[..n - 1] else text[..n];
        var others := if n == |text| then Some([]) else ScanLines(text[n + 1..]);
        if others.None? then None else Some([line] + others.value)
  }

  /** Parses and validates: every use of a result in the tree must itself be in the tree. */
  function Deserialize(tgt: Target, text: string, strict: bool): Option<Prog>
  {
    var lines := ScanLines(text);
    var o := if lines.Some? then ParseLines(tgt, strict, lines.value, Tables(map[], 0, map[])) else None;
    if o.None? then None
    else
      var (calls, st) := o.value;
      var seen := ValidateCalls(tgt, calls, {});
      if seen.None? || exists u :: u in st.links && st.links[u] in seen.value && u !in seen.value then None
      else Some(Prog(calls))
  }
}
