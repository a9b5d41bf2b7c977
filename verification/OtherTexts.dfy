/** Texts that the printer does not write but the parser reads: programs printed under other descriptions, old
    forms of addresses, other numbers and sizes, comments and other line ends. */
module OtherTexts {
  import opened ProgTypes
  import opened Numbers
  import opened DataText
  import opened Validation
  import opened Printer
  import opened Parser
  import opened TextLemmas
  import opened ReadTokens
  import opened Skipping

  // ---- arguments that do not fit ----

  /** Types that take a number. */
  predicate TakesNumber(t: Type) { t.IntT? || t.ResourceT? || t.PtrT? || t.VmaT? }

  /** The printed argument is not of a kind that the type takes. A reference is taken as one whatever the type. */
  predicate Misfits(a: Arg, t: Type) {
    match a
    case ConstArg(_, _) => !TakesNumber(t)
    case ResultArg(_, _, ref, _, _, _) => ref.None? && !TakesNumber(t)
    case PointerArg(_, _, _, _) => if IsSpecial(a) then !TakesNumber(t) else !t.PtrT? && !t.VmaT?
    case DataArg(typ, _, _) => typ.BufferT? && !t.BufferT?
    case GroupArg(typ, _) => if typ.StructT? then !t.StructT? else !t.ArrayT?
    case UnionArg(_, _) => !t.UnionT?
  }

  /** The first characters of printed arguments. */
  predicate Starts(s: string) { s == [] || s[0] in {'0', '&', '\"', '\'', '{', '[', '@', '<', 'r', ','} }

  lemma ArgStarts(tgt: Target, used: set<nat>, a: Arg, vs: Vars)
    ensures Starts(PrintArg(tgt, used, a, vs).0)
  {
    hide IsDefault, Dec, Digits;
  }

  lemma {:induction false} InnerStarts(tgt: Target, used: set<nat>, args: seq<Arg>, vs: Vars)
    ensures Starts(PrintInner(tgt, used, args, vs).0)
  {
    hide PrintArg;
    if args != [] {
      ArgStarts(tgt, used, args[0], vs);
      TailStarts(tgt, used, args[1..], vs);
      TailStarts(tgt, used, args[1..], PrintArg(tgt, used, args[0], vs).1);
    }
  }

  lemma {:induction false} TailStarts(tgt: Target, used: set<nat>, args: seq<Arg>, vs: Vars)
    ensures Starts(PrintTail(tgt, used, args, vs).0)
  {
    hide PrintArg;
    if args != [] {
      TailStarts(tgt, used, args[1..], vs);
    }
  }

  /** The first character decides what is read. */
  lemma Dispatched(tgt: Target, strict: bool, t: Type, r: string, st: Tables)
    requires r != [] && r[0] in {'0', 'r', '&', '\"', '\'', '{', '[', '@'}
    ensures ParseArg(tgt, strict, t, r, st) ==
      if r[0] == '0' then ParseInt(tgt, strict, t, r, st)
      else if r[0] == 'r' then ParseRes(tgt, strict, t, r, st)
      else if r[0] == '&' then ParsePointer(tgt, strict, t, r, st)
      else if r[0] == '{' then ParseStruct(tgt, strict, t, r, st)
      else if r[0] == '[' then ParseArray(tgt, strict, t, r, st)
      else if r[0] == '@' then ParseUnion(tgt, strict, t, r, st)
      else ParseString(tgt, strict, t, r, st)
  {
    hide ParseInt, ParseRes, ParsePointer, ParseStruct, ParseArray, ParseUnion, ParseString;
  }

  lemma NumberMisfit(tgt: Target, strict: bool, t: Type, v: u64, rest: string, st: Tables)
    requires Ended(rest) && !TakesNumber(t)
    ensures ParseArg(tgt, strict, t, Hex(v) + rest, st) == if strict then Fail else Default(tgt, t, rest, st)
  {
    HexRoundTrip(v);
    EndedIs(rest);
    IdentIs(Hex(v), rest);
    assert (Hex(v) + rest)[0] == Hex(v)[0] == '0';
    hide Hex, EatExcessive;
    Dispatched(tgt, strict, t, Hex(v) + rest, st);
    PlainWhole("");
    assert "" + rest == rest;
    SkippedIff("", rest);
  }

  /** A named number: the name is not bound. */
  lemma NamedMisfit(tgt: Target, strict: bool, t: Type, n: nat, v: u64, rest: string, st: Tables)
    requires Ended(rest) && !TakesNumber(t)
    ensures ParseArg(tgt, strict, t, "<" + VarName(n) + ("=>" + (Hex(v) + rest)), st) ==
            if strict then Fail else Default(tgt, t, rest, st)
  {
    var body := Hex(v) + rest;
    NumberMisfit(tgt, strict, t, v, rest, st);
    assert body[0] == Hex(v)[0] == '0';
    hide Hex, Digits, EatExcessive, VarName;
    assert ParseImpl(tgt, strict, t, body, st) == ParseArg(tgt, strict, t, body, st);
    NameRead(n, body);
    hide ParseImpl, ExpectWord, Ident, Expect, SkipWs;
    NoResult(tgt, t, st.next);
  }

  lemma NameRead(n: nat, body: string)
    requires body != [] && body[0] == '0'
    ensures var r := "<" + VarName(n) + ("=>" + body);
      && r[0] == '<' && Expect(r, '<') == Some(VarName(n) + ("=>" + body))
      && Ident(VarName(n) + ("=>" + body)) == Some((VarName(n), "=>" + body))
        && ExpectWord("=>" + body, "=>") == Some(body)
  {
    ValueOfDigits(n, 10);
    hide Digits, ExpectWord;
    assert SkipWs(body) == body && SkipWs("=>" + body) == "=>" + body;
    IdentAhead('<', VarName(n), "=>" + body);
    ExpectWordIs("=>", body);
    assert "<" + VarName(n) + ("=>" + body) == ['<'] + VarName(n) + ("=>" + body);
  }

  lemma NoResult(tgt: Target, t: Type, next: nat)
    requires !TakesNumber(t)
    ensures !DefaultArg(tgt, t, next).0.ResultArg?
  {
  }

  /** A reference to a bound name is taken as one whatever the type, and no validation accepts it unless the type is
      that
      of a resource. */
  lemma ReferenceTaken(tgt: Target, t: Type, n: nat, rest: string, strict: bool, st: Tables)
    requires Ended(rest) && VarName(n) in st.vars
    ensures var o, a := ParseArg(tgt, strict, t, VarName(n) + rest, st),
        ResultArg(t, st.next, Some(st.vars[VarName(n)]), 0, 0, 0);
      && o.Ok? && o.value == a && o.rest == rest
      && (!t.ResourceT? ==> forall seen :: ValidateArg(tgt, a, t, seen) == None)
  {
    EndedIs(rest);
    ValueOfDigits(n, 10);
    hide Digits;
    IdentIs(VarName(n), rest);
    assert (VarName(n) + rest)[0] == 'r';
  }

  /** A group in brackets for another type: everything up to the closing bracket is skipped. */
  lemma GroupMisfit(tgt: Target, strict: bool, t: Type, open: char, close: char, s: string, rest: string, st: Tables)
    requires Ended(rest) && Whole(false, s) && Starts(s)
    requires (open == '{' && close == '}' && !t.StructT?) || (open == '[' && close == ']' && !t.ArrayT?)
    ensures ParseArg(tgt, strict, t, [open] + s + [close] + rest, st) ==
            if strict then Fail else Default(tgt, t, rest, st)
  {
    hide EatExcessive, Whole, Default;
    EndedIs(rest);
    var end := [close] + rest;
    assert [open] + s + [close] + rest == [open] + (s + end);
    Dispatched(tgt, strict, t, [open] + (s + end), st);
    ExpectIs(open, s + end);
    if s != [] {
      assert (s + end)[0] == s[0];
    } else {
      assert s + end == end;
    }
    assert SkipWs(s + end) == s + end;
    SkippedIff(s, end);
    ExpectIs(close, rest);
  }

  /** An argument of another kind is skipped as a whole and replaced by the default of the type; strict parsing fails.
      */
  lemma MisfitReplaced(tgt: Target, used: set<nat>, a: Arg, vs: Vars, t: Type, rest: string, strict: bool, st: Tables)
    requires Quiet(a) && Misfits(a, t) && Ended(rest)
    ensures ParseArg(tgt, strict, t, PrintArg(tgt, used, a, vs).0 + rest, st) ==
            if strict then Fail else Default(tgt, t, rest, st)
  {
    var s := PrintArg(tgt, used, a, vs).0;
    hide EatExcessive, Whole, IsDefault, Hex, Quiet, PrintAddr, PrintData, Default;
    match a
    case ConstArg(_, val) => NumberMisfit(tgt, strict, t, val, rest, st);
    case ResultArg(_, id, _, _, _, val) =>
      if id in used {
        PrintNamedIs(tgt, used, a, vs, rest);
        NamedMisfit(tgt, strict, t, vs.next, val, rest, st);
      } else {
        assert "" + Hex(val) == Hex(val);
        NumberMisfit(tgt, strict, t, val, rest, st);
      }
    case PointerArg(_, address, _, _) =>
      if IsSpecial(a) {
        NumberMisfit(tgt, strict, t, address, rest, st);
      } else {
        PointerStarts(tgt, used, a, vs);
        WholeMisfit(tgt, used, a, vs, t, rest, strict, st);
      }
    case DataArg(_, _, _) =>
      DataStarts(a);
      WholeMisfit(tgt, used, a, vs, t, rest, strict, st);
    case GroupArg(typ, _) =>
      GroupWhole(tgt, used, a, vs);
      var inner := PrintInner(tgt, used, Shown(tgt, used, a), vs).0;
      InnerStarts(tgt, used, Shown(tgt, used, a), vs);
      if typ.StructT? {
        GroupMisfit(tgt, strict, t, '{', '}', inner, rest, st);
      } else {
        GroupMisfit(tgt, strict, t, '[', ']', inner, rest, st);
      }
    case UnionArg(_, option) =>
      assert s[0] == '@';
      WholeMisfit(tgt, used, a, vs, t, rest, strict, st);
  }

  /** Pointers, data and unions are skipped from their first character on. */
  lemma WholeMisfit(tgt: Target, used: set<nat>, a: Arg, vs: Vars, t: Type, rest: string, strict: bool, st: Tables)
    requires Quiet(a) && Ended(rest)
    requires var s := PrintArg(tgt, used, a, vs).0;
      && s != []
      && ((s[0] == '&' && !t.PtrT? && !t.VmaT?) || (IsQuote(s[0]) && !t.BufferT?) || (s[0] == '@' && !t.UnionT?))
    ensures ParseArg(tgt, strict, t, PrintArg(tgt, used, a, vs).0 + rest, st) ==
            if strict then Fail else Default(tgt, t, rest, st)
  {
    var s := PrintArg(tgt, used, a, vs).0;
    ArgWhole(tgt, used, a, vs);
    SkippedIff(s, rest);
    hide EatExcessive, Whole, Quiet, PrintArg, Default;
    assert (s + rest)[0] == s[0];
    Dispatched(tgt, strict, t, s + rest, st);
  }

  lemma PointerStarts(tgt: Target, used: set<nat>, a: Arg, vs: Vars)
    requires a.PointerArg? && !IsSpecial(a)
    ensures var s := PrintArg(tgt, used, a, vs).0; s != [] && s[0] == '&'
  {
    hide IsDefault, PrintAddr;
  }

  lemma DataStarts(a: Arg)
    requires a.DataArg? && a.typ.BufferT?
    ensures PrintData(a) != [] && IsQuote(PrintData(a)[0])
  {
    hide Dec, HexEncode, Escape;
  }

  /** Printed arguments beyond the last declared one are skipped; strict parsing fails if there are any. */
  lemma ExcessSkipped(tgt: Target, used: set<nat>, args: seq<Arg>, vs: Vars, close: char, rest: string, strict: bool,
                      st: Tables)
    requires (forall i :: 0 <= i < |args| ==> Quiet(args[i])) && (close == ')' || close == '}')
    ensures var s := PrintInner(tgt, used, args, vs).0;
      ParseFields(tgt, strict, [], close, s + ([close] + rest), st) ==
      if strict && s != [] then Fail else Ok([], [close] + rest, st)
  {
    hide EatExcessive, Whole, Quiet;
    var s, end := PrintInner(tgt, used, args, vs).0, [close] + rest;
    InnerWhole(tgt, used, args, |args|, 0, vs);
    assert args[0..|args|] == args;
    InnerStarts(tgt, used, args, vs);
    SkippedIff(s, end);
    if s == [] {
      assert s + end == end;
    } else {
      assert (s + end)[0] == s[0] != close;
    }
  }

  /** A reference to a name that was not bound gives the default of the type; strict parsing fails. */
  lemma UnknownName(tgt: Target, t: Type, n: nat, rest: string, strict: bool, st: Tables)
    requires Ended(rest) && VarName(n) !in st.vars
    ensures ParseArg(tgt, strict, t, VarName(n) + rest, st) == if strict then Fail else Default(tgt, t, rest, st)
  {
    EndedIs(rest);
    ValueOfDigits(n, 10);
    hide Digits;
    IdentIs(VarName(n), rest);
    assert (VarName(n) + rest)[0] == 'r';
  }

  // ---- addresses ----

  lemma OffsetText(x: string, sign: char, y: string, rest: string)
    ensures "(" + x + [sign] + y + ")" + rest == ['('] + x + ([sign] + y + (")" + rest))
  {
  }

  function Shifted(addr: u64, off: u64, sign: char): u64 {
    (addr + if sign == '+' then off else TWO64 - off) % TWO64
  }

  /** Old programs add an offset to an address or subtract one, modulo 2^64. */
  lemma AddressOffset(tgt: Target, base: u64, off: u64, sign: char, rest: string)
    requires sign == '+' || sign == '-'
    ensures ParseAddr(tgt, "(" + Hex(base) + [sign] + Hex(off) + ")" + rest) ==
      if base < ADDR_BASE then None else Some((Shifted(base - ADDR_BASE, off, sign), 0, SkipWs(rest)))
  {
    hide Hex, ParseAddr, SkipWs, Shifted;
    OffsetText(Hex(base), sign, Hex(off), rest);
    OffsetBehind(tgt, base, off, sign, rest);
  }

  lemma OffsetBehind(tgt: Target, base: u64, off: u64, sign: char, rest: string)
    requires sign == '+' || sign == '-'
    ensures ParseAddr(tgt, ['('] + Hex(base) + ([sign] + Hex(off) + (")" + rest))) ==
      if base < ADDR_BASE then None else Some((Shifted(base - ADDR_BASE, off, sign), 0, SkipWs(rest)))
  {
    var end := ")" + rest;
    var r := [sign] + Hex(off) + end;
    SignRead(sign, off, end);
    hide Hex, ParseAddr, ParseAddrOffset, SkipWs, OptionalNumber, Expect, Shifted;
    CloseRead(end, rest);
    OffsetThere(tgt, base, r, sign, off, end, rest);
  }

  lemma CloseRead(end: string, rest: string)
    requires end == ")" + rest
    ensures end != [] && end[0] == ')' && Expect(end, ')') == Some(SkipWs(rest))
  {
    ExpectIs(')', rest);
    assert end == [')'] + rest;
  }

  lemma OffsetThere(tgt: Target, base: u64, r: string, sign: char, off: u64, end: string, rest: string)
    requires r != [] && r[0] == sign && (sign == '+' || sign == '-') && SkipWs(r) == r
    requires OptionalNumber(r, sign, 0) == Some((off, end))
    requires end != [] && end[0] == ')' && Expect(end, ')') == Some(SkipWs(rest))
    ensures ParseAddr(tgt, ['('] + Hex(base) + r) ==
      if base < ADDR_BASE then None else Some((Shifted(base - ADDR_BASE, off, sign), 0, SkipWs(rest)))
  {
    hide Hex, ParseAddr, ParseAddrOffset, SkipWs, OptionalNumber, Expect, Shifted;
    AddressRead(tgt, base, r);
    if base >= ADDR_BASE {
      OffsetRead(tgt, base - ADDR_BASE, r, off, end, rest);
    }
  }

  lemma SignRead(sign: char, off: u64, end: string)
    requires (sign == '+' || sign == '-') && end != [] && end[0] == ')'
    ensures var r := [sign] + Hex(off) + end;
      r[0] == sign && SkipWs(r) == r && OptionalNumber(r, sign, 0) == Some((off, end))
  {
    hide OptionalNumber, Hex;
    var r := [sign] + Hex(off) + end;
    assert r[0] == sign && SkipWs(r) == r && SkipWs(end) == end;
    HexAfter(sign, off, end);
  }

  lemma AddressRead(tgt: Target, base: u64, r: string)
    requires r != [] && !IsIdentChar(r[0]) && SkipWs(r) == r
    ensures base < ADDR_BASE ==> ParseAddr(tgt, ['('] + Hex(base) + r) == None
    ensures base >= ADDR_BASE ==> ParseAddr(tgt, ['('] + Hex(base) + r) == ParseAddrOffset(tgt, base - ADDR_BASE, r)
  {
    HexRoundTrip(base);
    hide Hex, ParseUint, ParseAddrOffset, SkipWs, IsIdent, Ident, Expect;
    IdentAhead('(', Hex(base), r);
  }

  lemma OffsetRead(tgt: Target, addr: u64, r: string, off: u64, end: string, rest: string)
    requires r != [] && (r[0] == '+' || r[0] == '-') && OptionalNumber(r, r[0], 0) == Some((off, end))
    requires end != [] && end[0] == ')' && Expect(end, ')') == Some(SkipWs(rest))
    ensures ParseAddrOffset(tgt, addr, r) == Some((Shifted(addr, off, r[0]), 0, SkipWs(rest)))
  {
    hide OptionalNumber, Expect, Region;
    assert off == 0 ==> (addr + TWO64) % TWO64 == addr % TWO64;
  }

  /** A region consists of whole pages inside memory: at least one page, and as many as the size needs as far as memory
      goes, except that a size whose rounding wraps around counts as one page; it starts at the page of the address
      unless it would then end beyond memory. */
  lemma RegionIs(tgt: Target, addr: u64, size: u64)
    requires 0 < MaxMem(tgt) < TWO64
    ensures var (start, vma) := Region(tgt, addr, size);
      && start % tgt.pageSize == 0 && vma % tgt.pageSize == 0 && tgt.pageSize <= vma && start + vma <= MaxMem(tgt)
      && (if size + tgt.pageSize > TWO64 then vma == tgt.pageSize
          else if size > MaxMem(tgt) then vma == MaxMem(tgt)
          else if size > 0 then size <= vma < size + tgt.pageSize
          else vma == tgt.pageSize)
      && start <= addr && (start + vma < MaxMem(tgt) ==> addr < start + tgt.pageSize)
  {
    var page: pos, max, floor := tgt.pageSize, MaxMem(tgt), RoundDown(addr, tgt.pageSize);
    Pages(tgt);
    PageDown(addr, page);
    var sum := (size + page - 1) % TWO64;
    Wrapped(size, page);
    var vma := RegionSize(max, sum, page);
    RegionStart(max, vma, floor, page);
    hide RoundDown, MaxMem;
    var r := Region(tgt, addr, size);
    assert r == (if floor > max - vma then max - vma else floor, vma);
  }

  lemma Wrapped(size: u64, page: pos)
    requires page <= TWO64
    ensures (size + page - 1) % TWO64 == if size + page > TWO64 then size + page - 1 - TWO64 else size + page - 1
  {
  }

  lemma RegionSize(max: nat, sum: nat, page: pos) returns (vma: nat)
    requires max % page == 0 && page <= max
    ensures var round := RoundDown(sum, page);
      var whole := if round == 0 then page else round;
      vma == if whole > max then max else whole
    ensures vma % page == 0 && page <= vma <= max && (sum < page ==> vma == page)
    ensures page <= sum ==> if sum - page + 1 > max then vma == max else sum - page + 1 <= vma <= sum
  {
    PageDown(sum, page);
    var round := RoundDown(sum, page);
    OnePage(page);
    PageGap(round, 0, page);
    PageGap(round, max, page);
    hide RoundDown;
    var whole := if round == 0 then page else round;
    vma := if whole > max then max else whole;
  }

  lemma RegionStart(max: nat, vma: nat, floor: nat, page: pos)
    requires max % page == 0 && vma % page == 0 && floor % page == 0 && vma <= max
    ensures var start := if floor > max - vma then max - vma else floor; start % page == 0 && start + vma <= max
  {
    PageGap(max, vma, page);
  }

  lemma OnePage(page: pos)
    ensures page % page == 0
  {
  }

  lemma Pages(tgt: Target)
    ensures MaxMem(tgt) % tgt.pageSize == 0 && (MaxMem(tgt) > 0 ==> MaxMem(tgt) >= tgt.pageSize)
  {
    DivIs(tgt.numPages, tgt.pageSize, 0);
    if MaxMem(tgt) > 0 {
      MulBound(tgt.numPages, tgt.pageSize);
    }
  }

  lemma PageDown(v: nat, page: pos)
    ensures RoundDown(v, page) % page == 0 && RoundDown(v, page) <= v < RoundDown(v, page) + page
  {
    DivIs(v / page, page, 0);
    assert v == v / page * page + v % page;
  }

  lemma PageGap(a: nat, b: nat, page: pos)
    requires a % page == 0 && b % page == 0
    ensures (a - b) % page == 0 && (a > b ==> a - b >= page)
  {
    SubMod(a, b, page);
    if a > b && a - b < page {
      DivIs(0, page, a - b);
    }
  }

  /** A number for a pointer is taken as minus the index of a special pointer, modulo their number. */
  lemma NumberIsSpecial(tgt: Target, t: Type, v: u64, rest: string, strict: bool, st: Tables) returns (k: nat)
    requires Ended(rest) && (t.PtrT? || t.VmaT?) && tgt.specialPointers != []
    ensures k < |tgt.specialPointers| && k < TWO64
    ensures ((if v == 0 then 0 else TWO64 - v) - k) % |tgt.specialPointers| == 0
    ensures ParseArg(tgt, strict, t, Hex(v) + rest, st) ==
      Ok(PointerArg(t, if k == 0 then 0 else TWO64 - k, 0, None), rest, st)
  {
    HexRoundTrip(v);
    EndedIs(rest);
    IdentIs(Hex(v), rest);
    assert (Hex(v) + rest)[0] == Hex(v)[0] == '0';
    hide Hex, ParseUint;
    Dispatched(tgt, strict, t, Hex(v) + rest, st);
    var n := |tgt.specialPointers|;
    k := Residue(Neg64(v), n);
    ResidueOf(Neg64(v), n);
  }

  lemma ResidueOf(w: nat, n: pos)
    ensures 0 <= w % n < n && (w - w % n) % n == 0
  {
    DivIs(w / n, n, 0);
    assert w == w / n * n + w % n;
  }

  // ---- data and arrays of other lengths ----

  /** Data is cut to its size or filled up with zeros; a size beyond memory counts as that of memory, and strict parsing
      fails. A type of fixed size decides about the size alone. */
  lemma SizedData(tgt: Target, t: Type, d: seq<char>, n: u64, rest: string, strict: bool, st: Tables)
    returns (e: seq<char>)
    requires Ended(rest) && t.BufferT? && t.c.dir != DirOut && IsBytes(d) && MaxMem(tgt) < TWO64
    ensures var r := DataLiteral(d, IsReadableType(t)) + (['/'] + Dec(n) + rest);
      ParseArg(tgt, strict, t, r, st) == if strict && n > MaxMem(tgt) then Fail else Ok(DataArg(t, e, 0), rest, st)
    ensures |e| == if !t.c.varlen then t.c.size else if n > MaxMem(tgt) then MaxMem(tgt) else n
    ensures forall i :: 0 <= i < |e| ==> e[i] == if i < |d| then d[i] else ZERO_BYTE
  {
    EndedIs(rest);
    var tail := ['/'] + Dec(n) + rest;
    assert tail[0] == '/' && SkipWs(tail) == tail;
    NumberAfter('/', n, rest);
    ReadLiteral(d, IsReadableType(t), tail);
    var r := DataLiteral(d, IsReadableType(t)) + tail;
    hide Dec, DataLiteral, ParseData, OptionalNumber, MaxMem;
    Dispatched(tgt, strict, t, r, st);
    var size := if !t.c.varlen then t.c.size else if n > MaxMem(tgt) then MaxMem(tgt) else n;
    e := Resize(d, size);
  }

  /** Where a type prescribes the length of an array, the array that is read without it is cut, or filled up with
      defaults unless parsing is strict. */
  lemma ArrayLength(tgt: Target, t: Type, n: nat, r: string, strict: bool, st: Tables)
    requires t.ArrayT? && t.fixedLen.None? && r != [] && r[0] == '[' && ParseArg(tgt, strict, t, r, st).Ok?
    ensures var o, t1 := ParseArg(tgt, strict, t, r, st), t.(fixedLen := Some(n));
      && o.value.GroupArg?
      && var elems := o.value.inner;
      var (more, next) := DefaultArgs(tgt, Repeat(t.elem, if n > |elems| then n - |elems| else 0), o.st.next);
      ParseArg(tgt, strict, t1, r, st) ==
      if n <= |elems| then Ok(GroupArg(t1, elems[..n]), o.rest, o.st)
      else if strict then Fail
      else Ok(GroupArg(t1, elems + more), o.rest, o.st.(next := next))
  {
    hide ParseElems, Expect, DefaultArgs;
    Dispatched(tgt, strict, t, r, st);
    Dispatched(tgt, strict, t.(fixedLen := Some(n)), r, st);
  }

  // ---- blanks and lines ----

  /** Exactly the spaces and tabs in front are skipped. */
  lemma {:induction false} SkipWsIs(r: string) returns (k: nat)
    ensures k <= |r| && SkipWs(r) == r[k..] && (forall i :: 0 <= i < k ==> r[i] == ' ' || r[i] == '\t')
    ensures k < |r| ==> r[k] != ' ' && r[k] != '\t'
    decreases |r|
  {
    k := 0;
    if r != [] && (r[0] == ' ' || r[0] == '\t') {
      var j := SkipWsIs(r[1..]);
      k := j + 1;
      assert r[1..][j..] == r[k..];
      assert forall i :: 1 <= i < |r| ==> r[i] == r[1..][i - 1];
    }
  }

  /** Empty lines and lines that start with a number sign do not count. */
  lemma {:induction false} LineIgnored(tgt: Target, strict: bool, before: seq<string>, line: string, after: seq<string>,
                                       st: Tables)
    requires line == [] || line[0] == '#'
    ensures ParseLines(tgt, strict, before + [line] + after, st) == ParseLines(tgt, strict, before + after, st)
    decreases before
  {
    hide ParseCall;
    var all := before + [line] + after;
    if before == [] {
      assert all[0] == line && all[1..] == after && before + after == after;
    } else {
      assert all[0] == before[0] && all[1..] == before[1..] + [line] + after;
      assert (before + after)[0] == before[0] && (before + after)[1..] == before[1..] + after;
      LineIgnored(tgt, strict, before[1..], line, after, st);
      var c := ParseCall(tgt, strict, before[0], st);
      if c.Some? {
        LineIgnored(tgt, strict, before[1..], line, after, c.value.1);
      }
    }
  }

  /** Lines with the given ends. */
  function Joined(lines: seq<string>, end: string): string {
    if lines == [] then [] else lines[0] + end + Joined(lines[1..], end)
  }

  lemma {:induction false} LineEndIs(line: string, rest: string)
    requires forall i :: 0 <= i < |line| ==> line[i] != '\n'
    ensures LineEnd(line + ['\n'] + rest) == |line|
    decreases line
  {
    var text := line + ['\n'] + rest;
    if line == [] {
      assert text[0] == '\n';
    } else {
      assert text[0] == line[0] && text[1..] == line[1..] + ['\n'] + rest;
      LineEndIs(line[1..], rest);
    }
  }

  /** A text splits into its lines, with and without carriage returns at their ends; lines have to be shorter than the
      limit, a carriage return included. */
  lemma {:induction false} LineEnds(lines: seq<string>, cr: bool)
    requires forall k :: 0 <= k < |lines| ==> (forall i :: 0 <= i < |lines[k]| ==> lines[k][i] != '\n')
    requires forall k :: 0 <= k < |lines| && lines[k] != [] ==> lines[k][|lines[k]| - 1] != '\r'
    requires forall k :: 0 <= k < |lines| ==> |lines[k]| + (if cr then 1 else 0) < MAX_LINE
    ensures ScanLines(Joined(lines, if cr then "\r\n" else "\n")) == Some(lines)
    decreases lines
  {
    hide LineEnd, ScanLines;
    if lines == [] {
      NoLines();
    } else {
      var end := if cr then "\r\n" else "\n";
      var line, rest := lines[0] + (if cr then "\r" else ""), Joined(lines[1..], end);
      assert Joined(lines, end) == line + ['\n'] + rest;
      LineEnds(lines[1..], cr);
      FirstLine(lines[0], line, rest, lines[1..]);
      assert [lines[0]] + lines[1..] == lines;
    }
  }

  lemma NoLines()
    ensures ScanLines([]) == Some([])
  {
  }

  lemma FirstLine(stripped: string, line: string, rest: string, others: seq<string>)
    requires (line == stripped && (line != [] ==> line[|line| - 1] != '\r')) || line == stripped + "\r"
    requires |line| < MAX_LINE && (forall i :: 0 <= i < |line| ==> line[i] != '\n') && ScanLines(rest) == Some(others)
    ensures ScanLines(line + ['\n'] + rest) == Some([stripped] + others)
  {
    var text, n := line + ['\n'] + rest, |line|;
    LineEndIs(line, rest);
    hide LineEnd;
    assert text[..n] == line && text[n + 1..] == rest && (n > 0 ==> text[n - 1] == line[n - 1]);
    if line == stripped + "\r" {
      assert text[..n - 1] == stripped;
    }
  }
}
