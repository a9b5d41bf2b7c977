/** How the parser reads back one printed token after the other: numbers, data, results, addresses,
    and what is known about an argument and a list of arguments in their places. */
module ReadTokens {
  import opened ProgTypes
  import opened Numbers
  import opened DataText
  import opened Validation
  import opened CanonicalForm
  import opened Printer
  import opened Parser
  import opened TextLemmas

  /** Everything the printer and the parser know about one argument in its place. */
  ghost predicate Ready(tgt: Target, used: set<nat>, order: seq<nat>, a: Arg, t: Type, seen: set<nat>, vs: Vars,
                        st: Tables) {
    && WellFormed(tgt) && WellFormedType(tgt, t) && !IsPad(t)
    && ValidateArg(tgt, a, t, seen).Some? && Canonical(tgt, a, t)
    && Refs(a) <= used
    && Numbered(order, Ids(a), st.next)
    && Linked(used, order, seen, vs, st)
  }

  /** Outcome o is the renumbered argument with the rest of the text and consistent tables. */
  ghost predicate Reads(used: set<nat>, order: seq<nat>, a: Arg, seen: set<nat>, vs: Vars, st: Tables, rest: string,
                        o: Outcome<Arg>) {
    && o.Ok? && o.value == Rename(order, a) && o.rest == rest
    && o.st.next == st.next + |Ids(a)|
    && Linked(used, order, seen + ToSet(Ids(a)), vs, o.st)
  }

  lemma EndedIs(rest: string)
    requires Ended(rest)
    ensures SkipWs(rest) == rest && !IsIdentChar(rest[0])
  {
  }

  /** What validity and canonical form say about one node. */
  lemma NodeFacts(tgt: Target, a: Arg, t: Type, seen: set<nat>)
    requires ValidateArg(tgt, a, t, seen).Some? && Canonical(tgt, a, t)
    ensures !IsAnyPtr(a.typ) ==> a.typ == t
    ensures a.ConstArg? ==> a.typ == t && ValidConst(t, a.val) && (IsPad(t) ==> a.val == 0)
    ensures a.DataArg? ==> a.typ == t && ValidData(a) && (t.c.dir != DirOut ==> a.outSize == 0)
                           && (t.c.varlen ==> DataSize(a) <= MaxMem(tgt))
    ensures a.ResultArg? ==> && a.typ == t && t.ResourceT? && a.id !in seen
                             && (if a.ref.Some? then a.ref.value in seen && a.val == 0
                                 else a.opDiv == 0 && a.opAdd == 0)
    ensures a.PointerArg? ==>
      && ValidAddress(tgt, a) && (a.typ.PtrT? || a.typ.VmaT?) && (a.typ.PtrT? ==> a.vmaSize == 0)
      && (a.res.None? ==> a.typ == t && (IsSpecial(a) || (t.VmaT? && PageAligned(tgt, a.address, a.vmaSize))))
      && (a.res.Some? ==>
            && a.typ.PtrT? && Canonical(tgt, a.res.value, a.typ.elem)
            && ValidateArg(tgt, a.res.value, a.typ.elem, seen) == ValidateArg(tgt, a, t, seen)
            && (IsAnyPtr(a.typ) ==>
                  (t.PtrT? || t.VmaT?) && a.typ == MakeAnyPtrType(tgt, CommonOf(tgt, t).size, FieldName(t))))
  {
  }

  /** Which function reads an argument, by its first character. */
  lemma Dispatch(tgt: Target, t: Type, r: string, st: Tables)
    requires r != [] && r[0] != '<'
    ensures ParseArg(tgt, false, t, r, st) == ParseImpl(tgt, false, t, r, st)
    ensures r[0] == '0' ==> ParseImpl(tgt, false, t, r, st) == ParseInt(tgt, false, t, r, st)
    ensures r[0] == 'r' ==> ParseImpl(tgt, false, t, r, st) == ParseRes(tgt, false, t, r, st)
    ensures r[0] == '&' ==> ParseImpl(tgt, false, t, r, st) == ParsePointer(tgt, false, t, r, st)
    ensures r[0] == '\"' || r[0] == '\'' ==> ParseImpl(tgt, false, t, r, st) == ParseString(tgt, false, t, r, st)
    ensures r[0] == '{' ==> ParseImpl(tgt, false, t, r, st) == ParseStruct(tgt, false, t, r, st)
    ensures r[0] == '[' ==> ParseImpl(tgt, false, t, r, st) == ParseArray(tgt, false, t, r, st)
    ensures r[0] == '@' ==> ParseImpl(tgt, false, t, r, st) == ParseUnion(tgt, false, t, r, st)
  {
  }

  // ---- leaves ----

  lemma HexToken(v: u64, rest: string)
    requires rest != [] && !IsIdentChar(rest[0]) && SkipWs(rest) == rest
    ensures Ident(Hex(v) + rest) == Some((Hex(v), rest)) && ParseUint(Hex(v)) == Some(v)
    ensures (Hex(v) + rest)[0] == '0'
  {
    HexRoundTrip(v);
    IdentIs(Hex(v), rest);
  }

  lemma NumberAfter(c: char, v: u64, rest: string)
    requires rest != [] && !IsIdentChar(rest[0]) && SkipWs(rest) == rest
    ensures OptionalNumber([c] + Dec(v) + rest, c, 0) == Some((v, rest))
  {
    DecRoundTrip(v);
    IdentIs(Dec(v), rest);
    ExpectIs(c, Dec(v) + rest);
    assert [c] + Dec(v) + rest == [c] + (Dec(v) + rest);
    assert (Dec(v) + rest)[0] == Dec(v)[0];
  }

  lemma HexAfter(c: char, v: u64, rest: string)
    requires rest != [] && !IsIdentChar(rest[0]) && SkipWs(rest) == rest
    ensures OptionalNumber([c] + Hex(v) + rest, c, 0) == Some((v, rest))
  {
    HexToken(v, rest);
    ExpectIs(c, Hex(v) + rest);
    assert [c] + Hex(v) + rest == [c] + (Hex(v) + rest);
  }

  lemma ReadInt(tgt: Target, t: Type, v: u64, rest: string, st: Tables)
    requires tgt.specialPointers != [] && Ended(rest)
    ensures (Hex(v) + rest)[0] == '0'
    ensures t.IntT? ==> ParseInt(tgt, false, t, Hex(v) + rest, st) == Ok(ConstArg(t, v), rest, st)
    ensures t.ResourceT? ==> ParseInt(tgt, false, t, Hex(v) + rest, st)
                             == Ok(ResultArg(t, st.next, None, 0, 0, v), rest, st.(next := st.next + 1))
    ensures t.PtrT? || t.VmaT? ==> ParseInt(tgt, false, t, Hex(v) + rest, st)
                                   == Ok(PointerArg(t, Neg64(Neg64(v) % |tgt.specialPointers|), 0, None), rest, st)
  {
    EndedIs(rest);
    HexToken(v, rest);
  }

  /** A leaf without results is read with the tables unchanged. */
  lemma ReadsLeaf(used: set<nat>, order: seq<nat>, a: Arg, seen: set<nat>, vs: Vars, st: Tables, rest: string,
                  o: Outcome<Arg>)
    requires Linked(used, order, seen, vs, st) && Ids(a) == [] && Rename(order, a) == a && o == Ok(a, rest, st)
    ensures Reads(used, order, a, seen, vs, st, rest, o)
  {
    assert seen + ToSet([]) == seen;
  }

  lemma NegNeg(v: u64, n: nat)
    requires Neg64(v) < n
    ensures Neg64(Neg64(v) % n) == v
  {
  }

  lemma ReadConst(tgt: Target, used: set<nat>, order: seq<nat>, a: Arg, t: Type, seen: set<nat>, vs: Vars, st: Tables,
                  rest: string)
    requires Ready(tgt, used, order, a, t, seen, vs, st) && a.ConstArg? && Ended(rest)
    ensures Reads(used, order, a, seen, vs, st, rest, ParseArg(tgt, false, t, Hex(a.val) + rest, st))
  {
    NodeFacts(tgt, a, t, seen);
    ReadInt(tgt, t, a.val, rest, st);
    Dispatch(tgt, t, Hex(a.val) + rest, st);
    ReadsLeaf(used, order, a, seen, vs, st, rest, ParseArg(tgt, false, t, Hex(a.val) + rest, st));
  }

  lemma ReadSpecial(tgt: Target, used: set<nat>, order: seq<nat>, a: Arg, t: Type, seen: set<nat>, vs: Vars, st: Tables,
                    rest: string)
    requires Ready(tgt, used, order, a, t, seen, vs, st) && a.PointerArg? && IsSpecial(a) && Ended(rest)
    ensures Reads(used, order, a, seen, vs, st, rest, ParseArg(tgt, false, t, Hex(a.address) + rest, st))
  {
    NodeFacts(tgt, a, t, seen);
    ReadInt(tgt, t, a.address, rest, st);
    NegNeg(a.address, |tgt.specialPointers|);
    Dispatch(tgt, t, Hex(a.address) + rest, st);
    ReadsLeaf(used, order, a, seen, vs, st, rest, ParseArg(tgt, false, t, Hex(a.address) + rest, st));
  }

  lemma ResizeIs(data: seq<char>, n: nat)
    requires n <= |data| && forall i :: n <= i < |data| ==> data[i] == ZERO_BYTE
    ensures Resize(data[..n], |data|) == data
  {
  }

  /** A literal and the size behind it, if there is one. */
  lemma ReadLiteral(d: seq<char>, readable: bool, tail: string)
    requires IsBytes(d) && tail != [] && SkipWs(tail) == tail
    ensures var r := DataLiteral(d, readable) + tail;
            && (r[0] == '\"' || r[0] == '\'') && ParseData(r) == Some((d, tail))
  {
    DataLiteralRoundTrip(d, readable, tail);
  }

  lemma ReadOutData(tgt: Target, t: Type, size: u64, rest: string, st: Tables)
    requires Ended(rest) && t.BufferT? && t.c.dir == DirOut
    requires if t.c.varlen then size <= MaxMem(tgt) else size == t.c.size
    ensures var r := DataLiteral([], false) + (['/'] + Dec(size) + rest);
            && (r[0] == '\"' || r[0] == '\'')
            && ParseString(tgt, false, t, r, st) == Ok(DataArg(t, [], size), rest, st)
  {
    EndedIs(rest);
    var tail := ['/'] + Dec(size) + rest;
    NumberAfter('/', size, rest);
    ReadLiteral([], false, tail);
  }

  lemma ReadSized(tgt: Target, t: Type, d: seq<char>, size: u64, rest: string, st: Tables)
    requires Ended(rest) && t.BufferT? && t.c.dir != DirOut && t.c.varlen
    requires IsBytes(d) && |d| <= size <= MaxMem(tgt)
    ensures var r := DataLiteral(d, IsReadableType(t)) + (['/'] + Dec(size) + rest);
            && (r[0] == '\"' || r[0] == '\'')
            && ParseString(tgt, false, t, r, st) == Ok(DataArg(t, Resize(d, size), 0), rest, st)
  {
    EndedIs(rest);
    var tail := ['/'] + Dec(size) + rest;
    NumberAfter('/', size, rest);
    ReadLiteral(d, IsReadableType(t), tail);
  }

  lemma ReadUnsized(tgt: Target, t: Type, d: seq<char>, size: u64, rest: string, st: Tables)
    requires Ended(rest) && t.BufferT? && t.c.dir != DirOut
    requires IsBytes(d) && size == if t.c.varlen then |d| else t.c.size
    ensures var r := DataLiteral(d, IsReadableType(t)) + rest;
            && (r[0] == '\"' || r[0] == '\'')
            && ParseString(tgt, false, t, r, st) == Ok(DataArg(t, Resize(d, size), 0), rest, st)
  {
    EndedIs(rest);
    ReadLiteral(d, IsReadableType(t), rest);
  }

  lemma PrintInDataIs(a: Arg, rest: string) returns (d: seq<char>, sized: bool)
    requires a.DataArg? && ValidData(a) && a.typ.c.dir != DirOut
    ensures IsBytes(d) && |d| <= |a.data| && Resize(d, |a.data|) == a.data
    ensures sized ==> a.typ.c.varlen
    ensures !sized && a.typ.c.varlen ==> |d| == |a.data|
    ensures PrintData(a) + rest == DataLiteral(d, IsReadableType(a.typ)) + if sized then ['/'] + Dec(|a.data|) + rest
      else rest
  {
    d := PrintedData(a.data, a.typ.c.varlen);
    sized := a.typ.c.varlen && |a.data| != |d|;
    StripIs(a.data);
    assert d == a.data[..|d|];
    ResizeIs(a.data, |d|);
    if sized {
      assert PrintData(a) == DataLiteral(d, IsReadableType(a.typ)) + (['/'] + Dec(|a.data|));
    } else {
      assert PrintData(a) == DataLiteral(d, IsReadableType(a.typ));
    }
  }

  lemma ReadInData(tgt: Target, a: Arg, t: Type, rest: string, st: Tables)
    requires Ended(rest) && a.DataArg? && a.typ == t && ValidData(a) && t.c.dir != DirOut && a.outSize == 0
    requires t.c.varlen ==> DataSize(a) <= MaxMem(tgt) < TWO64
    ensures var r := PrintData(a) + rest;
            && (r[0] == '\"' || r[0] == '\'')
            && ParseString(tgt, false, t, r, st) == Ok(a, rest, st)
  {
    var d, sized := PrintInDataIs(a, rest);
    if sized {
      ReadSized(tgt, t, d, |a.data|, rest, st);
    } else {
      ReadUnsized(tgt, t, d, |a.data|, rest, st);
    }
  }

  lemma PrintOutDataIs(size: string, rest: string)
    ensures "\"\"/" + size + rest == DataLiteral([], false) + (['/'] + size + rest)
  {
    assert HexEncode([]) == [];
    assert DataLiteral([], false) == "\"\"";
  }

  /** A valid data argument in canonical form is read back with the tables unchanged. */
  lemma ReadDataArg(tgt: Target, a: Arg, t: Type, rest: string, st: Tables)
    requires Ended(rest) && a.DataArg? && a.typ == t && ValidData(a) && (t.c.dir != DirOut ==> a.outSize == 0)
    requires t.c.varlen ==> DataSize(a) <= MaxMem(tgt) < TWO64
    ensures var r := PrintData(a) + rest;
            && (r[0] == '\"' || r[0] == '\'')
            && ParseString(tgt, false, t, r, st) == Ok(a, rest, st)
  {
    if t.c.dir == DirOut {
      ReadOutData(tgt, t, DataSize(a), rest, st);
      PrintOutDataIs(Dec(DataSize(a)), rest);
    } else {
      ReadInData(tgt, a, t, rest, st);
    }
  }

  lemma ReadData(tgt: Target, used: set<nat>, order: seq<nat>, a: Arg, t: Type, seen: set<nat>, vs: Vars, st: Tables,
                 rest: string)
    requires Ready(tgt, used, order, a, t, seen, vs, st) && a.DataArg? && a.typ.BufferT? && Ended(rest)
    ensures Reads(used, order, a, seen, vs, st, rest, ParseArg(tgt, false, t, PrintData(a) + rest, st))
  {
    NodeFacts(tgt, a, t, seen);
    ReadDataArg(tgt, a, t, rest, st);
    Dispatch(tgt, t, PrintData(a) + rest, st);
    ReadsLeaf(used, order, a, seen, vs, st, rest, ParseArg(tgt, false, t, PrintData(a) + rest, st));
  }

  // ---- results ----

  /** An optional operand of a reference: nothing when it is zero. */
  function Operand(c: char, v: u64): string { if v != 0 then [c] + Dec(v) else "" }

  lemma ReadOperand(c: char, v: u64, rest: string)
    requires rest != [] && rest[0] != c && !IsIdentChar(rest[0]) && SkipWs(rest) == rest
    requires c == '/' || c == '+'
    ensures OptionalNumber(Operand(c, v) + rest, c, 0) == Some((v, rest))
    ensures var r := Operand(c, v) + rest; r != [] && !IsIdentChar(r[0]) && SkipWs(r) == r && (r[0] == c || r == rest)
  {
    if v != 0 {
      NumberAfter(c, v, rest);
    } else {
      assert Operand(c, v) + rest == rest;
    }
  }

  lemma ReadReference(tgt: Target, t: Type, n: nat, opDiv: u64, opAdd: u64, rest: string, st: Tables)
    requires Ended(rest) && VarName(n) in st.vars
    ensures var r := VarName(n) + (Operand('/', opDiv) + (Operand('+', opAdd) + rest));
            && r[0] == 'r'
            && ParseRes(tgt, false, t, r, st)
               == Ok(ResultArg(t, st.next, Some(st.vars[VarName(n)]), opDiv, opAdd, 0), rest,
                     st.(next := st.next + 1, links := st.links[st.next := st.vars[VarName(n)]]))
  {
    EndedIs(rest);
    var add := Operand('+', opAdd) + rest;
    ReadOperand('+', opAdd, rest);
    var div := Operand('/', opDiv) + add;
    ReadOperand('/', opDiv, add);
    HexIsPrintable(n);
    IdentIs(VarName(n), div);
    NameHead(n, div);
    hide VarName, Operand, SkipWs, OptionalNumber, Ident;
  }

  lemma NameHead(n: nat, s: string)
    ensures (VarName(n) + s)[0] == 'r'
  {
  }

  lemma PrintReferenceIs(a: Arg, vs: Vars, rest: string)
    requires a.ResultArg? && a.ref.Some? && a.ref.value in vs.ids
    ensures PrintResult(a, vs) + rest
            == VarName(vs.ids[a.ref.value]) + (Operand('/', a.opDiv) + (Operand('+', a.opAdd) + rest))
  {
    var name, x, y := VarName(vs.ids[a.ref.value]), Operand('/', a.opDiv), Operand('+', a.opAdd);
    assert PrintResult(a, vs) == name + x + y;
    assert name + x + y + rest == name + (x + (y + rest));
  }

  /** Without its optional name, a result argument is read as a number or as a known name. */
  lemma ReadResultBody(tgt: Target, order: seq<nat>, a: Arg, t: Type, vs: Vars, st: Tables, rest: string)
    requires tgt.specialPointers != [] && Ended(rest)
    requires a.ResultArg? && a.typ == t && t.ResourceT? && Pos(order, a.id) == st.next
    requires if a.ref.Some? then a.val == 0 && Named(order, vs, st, a.ref.value) else a.opDiv == 0 && a.opAdd == 0
    requires forall u :: u in st.links ==> u < st.next
    ensures var o := ParseImpl(tgt, false, t, PrintResult(a, vs) + rest, st);
            && o.Ok? && o.value == Rename(order, a) && o.rest == rest
            && o.st.next == st.next + 1 && o.st.vars == st.vars
            && forall u :: u in o.st.links ==> u < o.st.next
  {
    if a.ref.None? {
      ReadInt(tgt, t, a.val, rest, st);
    } else {
      ReadReference(tgt, t, vs.ids[a.ref.value], a.opDiv, a.opAdd, rest, st);
      PrintReferenceIs(a, vs, rest);
    }
    Dispatch(tgt, t, PrintResult(a, vs) + rest, st);
  }

  lemma NameIsFresh(vs: Vars, d: nat)
    requires d in vs.ids && vs.ids[d] < vs.next
    ensures VarName(vs.ids[d]) != VarName(vs.next)
  {
    if VarName(vs.ids[d]) == VarName(vs.next) {
      assert VarName(vs.ids[d])[1..] == Dec(vs.ids[d]) && VarName(vs.next)[1..] == Dec(vs.next);
      DecInjective(vs.ids[d], vs.next);
    }
  }

  /** Binding a new name on both sides keeps the tables consistent. */
  lemma LinkedBind(used: set<nat>, order: seq<nat>, seen: set<nat>, vs: Vars, st: Tables, id: nat)
    requires Linked(used, order, seen, vs, st)
    ensures Linked(used, order, seen + {id}, Alloc(vs, id), st.(vars := st.vars[VarName(vs.next) := Pos(order, id)]))
  {
    var vs', st' := Alloc(vs, id), st.(vars := st.vars[VarName(vs.next) := Pos(order, id)]);
    forall d | d in seen + {id} && d in used
      ensures Named(order, vs', st', d)
    {
      if d != id {
        assert Named(order, vs, st, d);
        NameIsFresh(vs, d);
      }
    }
  }

  predicate NoBlank(s: string) { s == [] || (s[0] != ' ' && s[0] != '\t') }

  /** A whole word in front of a text is read character by character. */
  lemma {:induction false} ExpectWordIs(word: string, rest: string)
    requires NoBlank(rest) && forall i :: 0 <= i < |word| ==> word[i] != ' ' && word[i] != '\t'
    ensures ExpectWord(word + rest, word) == Some(rest)
  {
    if word == [] {
      assert word + rest == rest;
    } else {
      var tail := word[1..] + rest;
      assert word + rest == [word[0]] + tail;
      ExpectIs(word[0], tail);
      assert SkipWs(tail) == tail;
      ExpectWordIs(word[1..], rest);
    }
  }

  lemma IdentAhead(c: char, name: string, tail: string)
    requires IsIdent(name) && (tail == [] || !IsIdentChar(tail[0]))
    ensures Expect([c] + name + tail, c) == Some(name + tail)
    ensures Ident(name + tail) == Some((name, SkipWs(tail)))
  {
    IdentIs(name, tail);
    assert [c] + name + tail == [c] + (name + tail);
    ExpectIs(c, name + tail);
    assert (name + tail)[0] == name[0];
  }

  lemma ReadName(tgt: Target, t: Type, n: nat, body: string, st: Tables)
    requires SkipWs(body) == body && NoBlank(body)
    requires var o := ParseImpl(tgt, false, t, body, st); o.Ok? && o.value.ResultArg?
    ensures var o := ParseImpl(tgt, false, t, body, st);
            ParseArg(tgt, false, t, "<" + VarName(n) + ("=>" + body), st)
            == o.(st := o.st.(vars := o.st.vars[VarName(n) := o.value.id]))
  {
    HexIsPrintable(n);
    IdentAhead('<', VarName(n), "=>" + body);
    ExpectWordIs("=>", body);
    assert SkipWs("=>" + body) == "=>" + body;
  }

  lemma ReadUnnamed(tgt: Target, used: set<nat>, order: seq<nat>, a: Arg, seen: set<nat>, vs: Vars, st: Tables,
                    rest: string, o: Outcome<Arg>)
    requires Linked(used, order, seen, vs, st) && a.ResultArg? && a.id !in used
    requires o.Ok? && o.value == Rename(order, a) && o.rest == rest && o.st.next == st.next + 1 && o.st.vars == st.vars
    requires forall u :: u in o.st.links ==> u < o.st.next
    ensures Reads(used, order, a, seen, vs, st, rest, o)
  {
    assert ToSet(Ids(a)) == {a.id};
    forall d | d in seen + {a.id} && d in used
      ensures Named(order, vs, o.st, d)
    {
      assert Named(order, vs, st, d);
    }
  }

  lemma ReadNamed(tgt: Target, used: set<nat>, order: seq<nat>, a: Arg, seen: set<nat>, vs: Vars, st: Tables,
                  rest: string, o: Outcome<Arg>)
    requires Linked(used, order, seen, vs, st) && a.ResultArg?
    requires o.Ok? && o.value == Rename(order, a) && o.rest == rest && o.st.next == st.next + 1
    requires o.st.vars == st.vars[VarName(vs.next) := Pos(order, a.id)]
    requires forall u :: u in o.st.links ==> u < o.st.next
    ensures Reads(used, order, a, seen, Alloc(vs, a.id), st, rest, o)
  {
    assert ToSet(Ids(a)) == {a.id};
    LinkedBind(used, order, seen, vs, st, a.id);
    forall d | d in seen + {a.id} && d in used
      ensures Named(order, Alloc(vs, a.id), o.st, d)
    {
      assert Named(order, Alloc(vs, a.id), st.(vars := o.st.vars), d);
    }
  }

  lemma PrintNamedIs(tgt: Target, used: set<nat>, a: Arg, vs: Vars, rest: string)
    requires a.ResultArg? && a.id in used && (a.ref.Some? ==> a.ref.value != a.id)
    ensures PrintArg(tgt, used, a, vs).0 + rest == "<" + VarName(vs.next) + ("=>" + (PrintResult(a, vs) + rest))
    ensures PrintArg(tgt, used, a, vs).1 == Alloc(vs, a.id)
  {
    // the reference is to another result, so the new name does not change how it prints
    assert PrintResult(a, Alloc(vs, a.id)) == PrintResult(a, vs);
    var x, y := VarName(vs.next), PrintResult(a, vs);
    assert "<" + x + "=>" + y + rest == "<" + x + ("=>" + (y + rest));
  }

  lemma PrintUnnamedIs(tgt: Target, used: set<nat>, a: Arg, vs: Vars)
    requires a.ResultArg? && a.id !in used
    ensures PrintArg(tgt, used, a, vs) == (PrintResult(a, vs), vs)
  {
    assert "" + PrintResult(a, vs) == PrintResult(a, vs);
  }

  lemma BodyStarts(a: Arg, vs: Vars, rest: string)
    requires a.ResultArg?
    ensures var body := PrintResult(a, vs) + rest; body != [] && body[0] != '<' && SkipWs(body) == body && NoBlank(body)
  {
    PrintResultPrintable(a, vs);
    assert (PrintResult(a, vs) + rest)[0] == PrintResult(a, vs)[0];
    var first := PrintResult(a, vs)[0];
    if a.ref.None? {
      HexIsPrintable(a.val);
      assert first == '0';
    } else {
      assert first == 'r';
    }
  }

  lemma ReadResult(tgt: Target, used: set<nat>, order: seq<nat>, a: Arg, t: Type, seen: set<nat>, vs: Vars, st: Tables,
                   rest: string)
    requires Ready(tgt, used, order, a, t, seen, vs, st) && a.ResultArg? && Ended(rest)
    ensures var (s, vs') := PrintArg(tgt, used, a, vs);
            Reads(used, order, a, seen, vs', st, rest, ParseArg(tgt, false, t, s + rest, st))
  {
    NodeFacts(tgt, a, t, seen);
    assert Ids(a)[0] == a.id;
    assert a.ref.Some? ==> a.ref.value in Refs(a) && Named(order, vs, st, a.ref.value);
    var body := PrintResult(a, vs) + rest;
    BodyStarts(a, vs, rest);
    ReadResultBody(tgt, order, a, t, vs, st, rest);
    if a.id !in used {
      PrintUnnamedIs(tgt, used, a, vs);
      Dispatch(tgt, t, body, st);
      ReadUnnamed(tgt, used, order, a, seen, vs, st, rest, ParseImpl(tgt, false, t, body, st));
    } else {
      ReadName(tgt, t, vs.next, body, st);
      PrintNamedIs(tgt, used, a, vs, rest);
      ReadNamed(tgt, used, order, a, seen, vs, st, rest,
                ParseArg(tgt, false, t, "<" + VarName(vs.next) + ("=>" + body), st));
    }
  }

  // ---- pointers ----

  /** A page-aligned size survives rounding up to pages. */
  lemma RoundUpAligned(size: nat, page: pos)
    requires size % page == 0
    ensures RoundDown(size + page - 1, page) == size
  {
    var k := size / page;
    assert size + page - 1 == k * page + (page - 1);
    DivIs(k, page, page - 1);
  }

  ghost predicate AddressOk(tgt: Target, a: Arg)
    requires a.PointerArg?
  {
    && a.address < MaxMem(tgt) < 0x8000_0000_0000
    && (a.vmaSize != 0 ==> PageAligned(tgt, a.address, a.vmaSize))
  }

  lemma RegionAligned(tgt: Target, address: u64, vmaSize: u64)
    requires address < MaxMem(tgt) < 0x8000_0000_0000 && vmaSize != 0 && PageAligned(tgt, address, vmaSize)
    ensures Region(tgt, address, vmaSize) == (address, vmaSize)
  {
    RoundUpAligned(vmaSize, tgt.pageSize);
    assert tgt.pageSize <= vmaSize;
    assert RoundDown(address, tgt.pageSize) == address;
  }

  lemma ReadAddrHead(tgt: Target, address: u64, r: string)
    requires address < MaxMem(tgt) < 0x8000_0000_0000 && r != [] && (r[0] == ')' || r[0] == '/')
    ensures ParseAddr(tgt, ['('] + Hex(ADDR_BASE + address) + r) == ParseAddrSize(tgt, address, r)
  {
    HexRoundTrip(ADDR_BASE + address);
    IdentAhead('(', Hex(ADDR_BASE + address), r);
    assert SkipWs(r) == r;
  }

  lemma ReadAddrSize(tgt: Target, address: u64, vmaSize: u64, tail: string)
    requires address < MaxMem(tgt) < 0x8000_0000_0000 && vmaSize != 0 && PageAligned(tgt, address, vmaSize)
    ensures ParseAddrSize(tgt, address, ['/'] + Hex(vmaSize) + (")" + tail)) == Some((address, vmaSize, SkipWs(tail)))
  {
    var r := ")" + tail;
    assert SkipWs(r) == r;
    HexAfter('/', vmaSize, r);
    ExpectIs(')', tail);
    RegionAligned(tgt, address, vmaSize);
  }

  lemma ReadPlainAddr(tgt: Target, address: u64, s: string, tail: string)
    requires address < MaxMem(tgt) < 0x8000_0000_0000
    requires s == "(" + Hex(ADDR_BASE + address) + "" + ")"
    ensures ParseAddr(tgt, s + tail) == Some((address, 0, SkipWs(tail)))
  {
    hide Hex, ParseAddr, SkipWs;
    ReadAddrHead(tgt, address, ")" + tail);
    ExpectIs(')', tail);
    PlainAddrText(Hex(ADDR_BASE + address), tail);
  }

  lemma PlainAddrText(x: string, tail: string)
    ensures "(" + x + "" + ")" + tail == ['('] + x + (")" + tail)
  {
  }

  lemma ReadSizedAddr(tgt: Target, address: u64, vmaSize: u64, s: string, tail: string)
    requires address < MaxMem(tgt) < 0x8000_0000_0000 && vmaSize != 0 && PageAligned(tgt, address, vmaSize)
    requires s == "(" + Hex(ADDR_BASE + address) + ("/" + Hex(vmaSize)) + ")"
    ensures ParseAddr(tgt, s + tail) == Some((address, vmaSize, SkipWs(tail)))
  {
    var x, y := Hex(ADDR_BASE + address), Hex(vmaSize);
    ReadAddrHead(tgt, address, ['/'] + y + (")" + tail));
    ReadAddrSize(tgt, address, vmaSize, tail);
    SizedAddrText(x, y, tail);
  }

  lemma SizedAddrText(x: string, y: string, tail: string)
    ensures "(" + x + ("/" + y) + ")" + tail == ['('] + x + (['/'] + y + (")" + tail))
  {
  }

  lemma PrintAddrForm(a: Arg)
    requires a.PointerArg? && ADDR_BASE + a.address < TWO64
    ensures a.vmaSize == 0 ==> PrintAddr(a) == "(" + Hex(ADDR_BASE + a.address) + "" + ")"
    ensures a.vmaSize != 0 ==> PrintAddr(a) == "(" + Hex(ADDR_BASE + a.address) + ("/" + Hex(a.vmaSize)) + ")"
    ensures PrintAddr(a)[0] == '('
  {
    assert Wrap64(ADDR_BASE + a.address) == ADDR_BASE + a.address;
  }

  lemma ReadAddr(tgt: Target, a: Arg, tail: string)
    requires a.PointerArg? && AddressOk(tgt, a)
    ensures ParseAddr(tgt, PrintAddr(a) + tail) == Some((a.address, a.vmaSize, SkipWs(tail)))
  {
    PrintAddrForm(a);
    if a.vmaSize == 0 {
      ReadPlainAddr(tgt, a.address, PrintAddr(a), tail);
    } else {
      ReadSizedAddr(tgt, a.address, a.vmaSize, PrintAddr(a), tail);
    }
  }

  /** The pointer itself is read; what follows decides about the pointee. */
  lemma ReadPointerHead(tgt: Target, a: Arg, t: Type, tail: string, st: Tables)
    requires a.PointerArg? && AddressOk(tgt, a) && (t.PtrT? || t.VmaT?)
    requires tail != [] && SkipWs(tail) == tail
    requires tail[0] == '=' ==> |tail| > 1 && SkipWs(tail[1..]) == tail[1..]
    ensures ParseArg(tgt, false, t, "&" + (PrintAddr(a) + tail), st)
            == if tail[0] == '=' then ParsePointee(tgt, false, t, a.address, a.vmaSize, tail[1..], st)
               else MakePointer(tgt, false, t, a.address, a.vmaSize, tail, st)
  {
    var r := ['&'] + (PrintAddr(a) + tail);
    PrintAddrForm(a);
    assert (PrintAddr(a) + tail)[0] == '(';
    ReadAddr(tgt, a, tail);
    ExpectIs('&', PrintAddr(a) + tail);
    Dispatch(tgt, t, r, st);
  }

  /** Elided defaults leave the tables consistent: nothing in them is used. */
  lemma LinkedElided(used: set<nat>, order: seq<nat>, seen: set<nat>, ids: seq<nat>, vs: Vars, st: Tables, next: nat)
    requires Linked(used, order, seen, vs, st) && next >= st.next && forall id :: id in ids ==> id !in used
    ensures Linked(used, order, seen + ToSet(ids), vs, st.(next := next))
  {
    forall d | d in seen + ToSet(ids) && d in used
      ensures Named(order, vs, st.(next := next), d)
    {
      assert Named(order, vs, st, d);
    }
  }

  // ---- lists ----

  /** Members printed from behind a comma: leading padding takes no text. */
  function PrintRest(tgt: Target, used: set<nat>, args: seq<Arg>, vs: Vars): (string, Vars)
    decreases args, 1
  {
    if args == [] then ("", vs)
    else if IsPad(args[0].typ) then PrintRest(tgt, used, args[1..], vs)
    else PrintInner(tgt, used, args, vs)
  }

  predicate EndsShown(args: seq<Arg>) { args != [] && !IsPad(args[|args| - 1].typ) }

  lemma {:induction false} TailIs(tgt: Target, used: set<nat>, args: seq<Arg>, vs: Vars)
    requires EndsShown(args)
    ensures PrintTail(tgt, used, args, vs).0 == ", " + PrintRest(tgt, used, args, vs).0
    ensures PrintTail(tgt, used, args, vs).1 == PrintRest(tgt, used, args, vs).1
  {
    if IsPad(args[0].typ) {
      TailIs(tgt, used, args[1..], vs);
    } else {
      var s := PrintArg(tgt, used, args[0], vs).0;
      var t := PrintTail(tgt, used, args[1..], PrintArg(tgt, used, args[0], vs).1).0;
      assert ", " + s + t == ", " + (s + t);
    }
  }

  ghost predicate ListReady(tgt: Target, used: set<nat>, order: seq<nat>, args: seq<Arg>, types: seq<Type>,
                            seen: set<nat>, vs: Vars, st: Tables) {
    && WellFormed(tgt) && |args| == |types|
    && (forall i :: 0 <= i < |types| ==> WellFormedType(tgt, types[i]))
    && ValidateSeq(tgt, args, types, seen).Some? && CanonicalSeq(tgt, args, types)
    && RefsSeq(args) <= used
    && Numbered(order, IdsSeq(args), st.next)
    && Linked(used, order, seen, vs, st)
  }

  ghost predicate ListReads(used: set<nat>, order: seq<nat>, args: seq<Arg>, seen: set<nat>, vs: Vars, st: Tables,
                            rest: string, o: Outcome<seq<Arg>>) {
    && o.Ok? && o.value == RenameSeq(order, args) && o.rest == rest
    && o.st.next == st.next + |IdsSeq(args)|
    && Linked(used, order, seen + ToSet(IdsSeq(args)), vs, o.st)
  }

  /** A list is its first member and the others, each in its place. */
  lemma ListReadyHead(tgt: Target, used: set<nat>, order: seq<nat>, args: seq<Arg>, types: seq<Type>, seen: set<nat>,
                      vs: Vars, st: Tables)
    requires ListReady(tgt, used, order, args, types, seen, vs, st) && args != []
    ensures !IsPad(types[0]) ==> Ready(tgt, used, order, args[0], types[0], seen, vs, st)
    ensures IsPad(args[0].typ) == IsPad(types[0])
    ensures IsPad(types[0]) ==>
      args[0] == ConstArg(types[0], 0) && ListReady(tgt, used, order, args[1..], types[1..], seen, vs, st)
  {
    NumberedConcat(order, Ids(args[0]), IdsSeq(args[1..]), st.next);
    NodeFacts(tgt, args[0], types[0], seen);
    if IsPad(types[0]) {
      ValidateAdds(tgt, args[0], types[0], seen);
      PadIsConst(tgt, args[0], types[0], seen);
      assert seen + ToSet([]) == seen;
      assert [] + IdsSeq(args[1..]) == IdsSeq(args);
    }
  }

  lemma PadIsConst(tgt: Target, a: Arg, t: Type, seen: set<nat>)
    requires IsPad(t) && ValidateArg(tgt, a, t, seen).Some? && Canonical(tgt, a, t)
    ensures a == ConstArg(t, 0)
  {
  }

  /** After the first member has been read, the others are ready. */
  lemma ListReadyTail(tgt: Target, used: set<nat>, order: seq<nat>, args: seq<Arg>, types: seq<Type>, seen: set<nat>,
                      vs: Vars, st: Tables, vs1: Vars, rest: string, o: Outcome<Arg>)
    requires ListReady(tgt, used, order, args, types, seen, vs, st) && args != []
    requires Reads(used, order, args[0], seen, vs1, st, rest, o)
    ensures ListReady(tgt, used, order, args[1..], types[1..], seen + ToSet(Ids(args[0])), vs1, o.st)
  {
    NumberedConcat(order, Ids(args[0]), IdsSeq(args[1..]), st.next);
    ValidateAdds(tgt, args[0], types[0], seen);
  }

  lemma ListReadsCons(used: set<nat>, order: seq<nat>, args: seq<Arg>, seen: set<nat>, vs1: Vars, vs2: Vars, st: Tables,
                      rest1: string, o1: Outcome<Arg>, rest2: string, o2: Outcome<seq<Arg>>)
    requires args != [] && Reads(used, order, args[0], seen, vs1, st, rest1, o1)
    requires ListReads(used, order, args[1..], seen + ToSet(Ids(args[0])), vs2, o1.st, rest2, o2)
    ensures ListReads(used, order, args, seen, vs2, st, rest2, o2.(value := [o1.value] + o2.value))
  {
    assert seen + ToSet(Ids(args[0])) + ToSet(IdsSeq(args[1..])) == seen + ToSet(IdsSeq(args));
  }
}
