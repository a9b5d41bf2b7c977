/** The parser reads back every printed argument tree: induction over the tree. */
module ReadTrees {
  import opened ProgTypes
  import opened Numbers
  import opened DataText
  import opened Validation
  import opened CanonicalForm
  import opened Printer
  import opened Parser
  import opened TextLemmas
  import opened ReadTokens

  /** Every printed argument is read back, with its results renumbered. */
  lemma {:induction false} ReadArg(tgt: Target, used: set<nat>, order: seq<nat>, a: Arg, t: Type, seen: set<nat>,
                                   vs: Vars, st: Tables, rest: string)
    requires Ready(tgt, used, order, a, t, seen, vs, st) && Ended(rest)
    ensures var (s, vs') := PrintArg(tgt, used, a, vs);
            Reads(used, order, a, seen, vs', st, rest, ParseArg(tgt, false, t, s + rest, st))
    decreases a, 5
  {
    NodeFacts(tgt, a, t, seen);
    match a
    case ConstArg(_, _) => ReadConst(tgt, used, order, a, t, seen, vs, st, rest);
    case DataArg(_, _, _) => ReadData(tgt, used, order, a, t, seen, vs, st, rest);
    case ResultArg(_, _, _, _, _, _) => ReadResult(tgt, used, order, a, t, seen, vs, st, rest);
    case PointerArg(_, _, _, _) =>
      if IsSpecial(a) {
        ReadSpecial(tgt, used, order, a, t, seen, vs, st, rest);
      } else {
        ReadPointer(tgt, used, order, a, t, seen, vs, st, rest);
      }
    case UnionArg(_, _) => ReadUnion(tgt, used, order, a, t, seen, vs, st, rest);
    case GroupArg(_, _) => ReadGroup(tgt, used, order, a, t, seen, vs, st, rest);
  }

  // ---- pointers ----

  lemma {:induction false} ReadPointer(tgt: Target, used: set<nat>, order: seq<nat>, a: Arg, t: Type, seen: set<nat>,
                                       vs: Vars, st: Tables, rest: string)
    requires Ready(tgt, used, order, a, t, seen, vs, st) && Ended(rest) && a.PointerArg? && !IsSpecial(a)
    ensures var (s, vs') := PrintArg(tgt, used, a, vs);
            Reads(used, order, a, seen, vs', st, rest, ParseArg(tgt, false, t, s + rest, st))
    decreases a, 4
  {
    NodeFacts(tgt, a, t, seen);
    if a.res.None? {
      ReadVma(tgt, used, order, a, t, seen, vs, st, rest);
    } else if IsDefault(tgt, used, a.res.value) && !IsAnyPtr(a.typ) {
      ReadDefaultPointee(tgt, used, order, a, t, seen, vs, st, rest);
    } else {
      ReadPointee(tgt, used, order, a, t, seen, vs, st, rest);
    }
  }

  lemma PointerText(a: string, tail: string, rest: string)
    ensures "&" + a + "=" + "" + tail + rest == "&" + (a + ("=" + (tail + rest)))
    ensures "&" + a + "=" + "ANY=" + tail + rest == "&" + (a + ("=" + ("ANY=" + (tail + rest))))
    ensures "&" + a + rest == "&" + (a + rest)
  {
  }

  lemma ReadVma(tgt: Target, used: set<nat>, order: seq<nat>, a: Arg, t: Type, seen: set<nat>, vs: Vars, st: Tables,
                rest: string)
    requires Ready(tgt, used, order, a, t, seen, vs, st) && Ended(rest) && a.PointerArg? && !IsSpecial(a) && a.res.None?
    ensures var (s, vs') := PrintArg(tgt, used, a, vs);
            Reads(used, order, a, seen, vs', st, rest, ParseArg(tgt, false, t, s + rest, st))
  {
    NodeFacts(tgt, a, t, seen);
    EndedIs(rest);
    var tail := "=" + ("nil" + rest);
    PointerText(PrintAddr(a), "nil", rest);
    assert tail[1..] == "nil" + rest;
    ReadPointerHead(tgt, a, t, tail, st);
    ExpectWordIs("nil", rest);
    assert RoundDown(a.address, tgt.pageSize) == a.address;
    ReadsLeaf(used, order, a, seen, vs, st, rest, Ok(a, rest, st));
  }

  lemma ReadDefaultPointee(tgt: Target, used: set<nat>, order: seq<nat>, a: Arg, t: Type, seen: set<nat>, vs: Vars,
                           st: Tables, rest: string)
    requires Ready(tgt, used, order, a, t, seen, vs, st) && Ended(rest) && a.PointerArg? && a.res.Some?
    requires IsDefault(tgt, used, a.res.value) && !IsAnyPtr(a.typ)
    ensures var (s, vs') := PrintArg(tgt, used, a, vs);
            Reads(used, order, a, seen, vs', st, rest, ParseArg(tgt, false, t, s + rest, st))
  {
    NodeFacts(tgt, a, t, seen);
    EndedIs(rest);
    PointerText(PrintAddr(a), "", rest);
    ReadPointerHead(tgt, a, t, rest, st);
    DefaultIs(tgt, used, order, a.res.value, t.elem, seen, st.next);
    LinkedElided(used, order, seen, Ids(a), vs, st, st.next + |Ids(a)|);
  }

  /** Parsing a pointer with a printed pointee is parsing the pointee and wrapping it. */
  lemma PointeeStep(tgt: Target, a: Arg, t: Type, s: string, rest: string, st: Tables)
    requires a.PointerArg? && AddressOk(tgt, a) && a.vmaSize == 0 && (t.PtrT? || t.VmaT?) && GoodText(s)
    requires !IsAnyPtr(a.typ) ==> t.PtrT? && a.typ == t
    requires IsAnyPtr(a.typ) ==> a.typ == MakeAnyPtrType(tgt, t.c.size, t.c.fld)
    requires a.typ.PtrT? && ParseArg(tgt, false, a.typ.elem, s + rest, st).Ok?
    ensures var o := ParseArg(tgt, false, a.typ.elem, s + rest, st);
            ParseArg(tgt, false, t, "&" + PrintAddr(a) + "=" + (if IsAnyPtr(a.typ) then "ANY=" else "") + s + rest, st)
            == o.(value := PointerArg(a.typ, a.address, 0, Some(o.value)))
  {
    var body := s + rest;
    BodyText(s, rest);
    PointerText(PrintAddr(a), s, rest);
    hide PrintAddr, SkipWs, GoodText, AddressOk, ExpectWord;
    if IsAnyPtr(a.typ) {
      ReadPointerHead(tgt, a, t, "=" + ("ANY=" + body), st);
      ExpectWordIs("ANY=", body);
    } else {
      ReadPointerHead(tgt, a, t, "=" + body, st);
    }
  }

  lemma BodyText(s: string, rest: string)
    requires GoodText(s)
    ensures var body := s + rest;
      && body != [] && body[0] == s[0] && SkipWs(body) == body && ("=" + body)[1..] == body
      && ("=" + ("ANY=" + body))[1..] == "ANY=" + body && ("ANY=" + body)[0] == 'A'
  {
  }

  lemma {:induction false} ReadPointee(tgt: Target, used: set<nat>, order: seq<nat>, a: Arg, t: Type, seen: set<nat>,
                                       vs: Vars, st: Tables, rest: string)
    requires Ready(tgt, used, order, a, t, seen, vs, st) && Ended(rest) && a.PointerArg? && a.res.Some?
    requires !IsDefault(tgt, used, a.res.value) || IsAnyPtr(a.typ)
    ensures var (s, vs') := PrintArg(tgt, used, a, vs);
            Reads(used, order, a, seen, vs', st, rest, ParseArg(tgt, false, t, s + rest, st))
    decreases a, 3
  {
    NodeFacts(tgt, a, t, seen);
    PointeeWellFormed(tgt, a, t, seen);
    ReadArg(tgt, used, order, a.res.value, a.typ.elem, seen, vs, st, rest);
    PrintArgPrintable(tgt, used, a.res.value, a.typ.elem, seen, vs);
    PointeeStep(tgt, a, t, PrintArg(tgt, used, a.res.value, vs).0, rest, st);
  }

  // ---- unions ----

  lemma UnionText(name: string, s: string, rest: string)
    ensures "@" + name + "=" + s + rest == ['@'] + name + (['='] + (s + rest))
  {
  }

  /** The name of an option and the equals sign are read; then the option. */
  lemma ReadOption(tgt: Target, t: Type, opt: Type, name: string, body: string, st: Tables)
    requires t.UnionT? && IsIdent(name) && FindField(Desc(tgt, t.key).fields, name) == Some(opt)
    requires SkipWs(body) == body && ParseArg(tgt, false, opt, body, st).Ok?
    ensures var o := ParseArg(tgt, false, opt, body, st);
            ParseUnion(tgt, false, t, ['@'] + name + (['='] + body), st) == o.(value := UnionArg(t, o.value))
  {
    IdentAhead('@', name, ['='] + body);
    assert SkipWs(['='] + body) == ['='] + body;
    ExpectIs('=', body);
  }

  lemma OptionStep(tgt: Target, t: Type, opt: Type, name: string, s: string, rest: string, st: Tables)
    requires t.UnionT? && IsIdent(name) && FindField(Desc(tgt, t.key).fields, name) == Some(opt) && GoodText(s)
    requires ParseArg(tgt, false, opt, s + rest, st).Ok?
    ensures var o := ParseArg(tgt, false, opt, s + rest, st);
            ParseArg(tgt, false, t, "@" + name + "=" + s + rest, st) == o.(value := UnionArg(t, o.value))
  {
    var body := s + rest;
    assert body[0] == s[0] && SkipWs(body) == body;
    ReadOption(tgt, t, opt, name, body, st);
    Dispatch(tgt, t, ['@'] + name + (['='] + body), st);
    UnionText(name, s, rest);
  }

  lemma DefaultOptionStep(tgt: Target, t: Type, opt: Type, name: string, rest: string, st: Tables)
    requires t.UnionT? && IsIdent(name) && FindField(Desc(tgt, t.key).fields, name) == Some(opt) && Ended(rest)
    ensures ParseArg(tgt, false, t, "@" + name + rest, st)
            == Ok(UnionArg(t, DefaultArg(tgt, opt, st.next).0), rest, st.(next := DefaultArg(tgt, opt, st.next).1))
  {
    EndedIs(rest);
    IdentAhead('@', name, rest);
    Dispatch(tgt, t, ['@'] + name + rest, st);
  }

  lemma {:induction false} ReadUnion(tgt: Target, used: set<nat>, order: seq<nat>, a: Arg, t: Type, seen: set<nat>,
                                     vs: Vars, st: Tables, rest: string)
    requires Ready(tgt, used, order, a, t, seen, vs, st) && Ended(rest) && a.UnionArg?
    ensures var (s, vs') := PrintArg(tgt, used, a, vs);
            Reads(used, order, a, seen, vs', st, rest, ParseArg(tgt, false, t, s + rest, st))
    decreases a, 4
  {
    hide WellFormed, Linked, GoodText, PrintAddr;
    var opt := OptionWellFormed(tgt, a, t, seen);
    var name := FieldName(a.option.typ);
    assert Canonical(tgt, a.option, opt);
    if IsDefault(tgt, used, a.option) {
      DefaultOptionStep(tgt, t, opt, name, rest, st);
      DefaultIs(tgt, used, order, a.option, opt, seen, st.next);
      LinkedElided(used, order, seen, Ids(a), vs, st, st.next + |Ids(a)|);
    } else {
      ReadArg(tgt, used, order, a.option, opt, seen, vs, st, rest);
      PrintArgPrintable(tgt, used, a.option, opt, seen, vs);
      OptionStep(tgt, t, opt, name, PrintArg(tgt, used, a.option, vs).0, rest, st);
    }
  }

  // ---- lists ----

  /** One shown field and its comma are read; then the others. */
  lemma FieldStep(tgt: Target, types: seq<Type>, close: char, s: string, u: string, rest: string, st: Tables,
                  a: Outcome<Arg>)
    requires types != [] && !IsPad(types[0]) && GoodText(s) && (close == '}' || close == ')')
      && (u == "" || GoodText(u))
    requires var tail := if u == "" then [close] + rest else ", " + u + ([close] + rest);
             a == ParseArg(tgt, false, types[0], s + tail, st) && a.Ok? && a.rest == tail
    requires ParseFields(tgt, false, types[1..], close, u + ([close] + rest), a.st).Ok?
    ensures var tail := if u == "" then [close] + rest else ", " + u + ([close] + rest);
            var o := ParseFields(tgt, false, types[1..], close, u + ([close] + rest), a.st);
            ParseFields(tgt, false, types, close, s + tail, st) == o.(value := [a.value] + o.value)
  {
    var end := [close] + rest;
    var tail := if u == "" then end else ", " + u + end;
    assert (s + tail)[0] == s[0] != close;
    if u == "" {
      assert u + end == end;
    } else {
      ReadComma(u, end);
    }
  }

  lemma ReadComma(u: string, end: string)
    requires GoodText(u)
    ensures var tail := ", " + u + end; tail != [] && tail[0] == ',' && Expect(tail, ',') == Some(u + end)
  {
    var body := u + end;
    assert body[0] == u[0] && SkipWs(body) == body;
    assert ", " + u + end == [','] + ([' '] + body);
    ExpectIs(',', [' '] + body);
    assert ([' '] + body)[1..] == body;
  }

  lemma PadStep(tgt: Target, types: seq<Type>, u: string, rest: string, st: Tables)
    requires types != [] && IsPad(types[0]) && GoodText(u)
    requires ParseFields(tgt, false, types[1..], '}', u + (['}'] + rest), st).Ok?
    ensures var o := ParseFields(tgt, false, types[1..], '}', u + (['}'] + rest), st);
            ParseFields(tgt, false, types, '}', u + (['}'] + rest), st) ==
              o.(value := [ConstArg(types[0], 0)] + o.value)
  {
    assert (u + (['}'] + rest))[0] == u[0] != '}';
  }

  /** The text of a list is that of its first member and that of the others behind a comma. */
  lemma RestIs(tgt: Target, used: set<nat>, args: seq<Arg>, vs: Vars, end: string)
    requires args != [] && !IsPad(args[0].typ) && (args[1..] == [] || EndsShown(args[1..]))
    ensures var (s, vs1) := PrintArg(tgt, used, args[0], vs);
            var (u, vs2) := PrintRest(tgt, used, args[1..], vs1);
            && PrintRest(tgt, used, args, vs).0 + end == s + (if args[1..] == [] then end else ", " + u + end)
            && PrintRest(tgt, used, args, vs).1 == vs2
  {
    var (s, vs1) := PrintArg(tgt, used, args[0], vs);
    var t := PrintTail(tgt, used, args[1..], vs1).0;
    assert PrintRest(tgt, used, args, vs).0 == s + t;
    Assoc(s, t, end);
    if args[1..] != [] {
      TailIs(tgt, used, args[1..], vs1);
    } else {
      assert "" + end == end;
    }
  }

  lemma Assoc(x: string, y: string, z: string)
    ensures x + y + z == x + (y + z)
  {
  }

  lemma {:induction false} ReadFields(tgt: Target, used: set<nat>, order: seq<nat>, args: seq<Arg>, types: seq<Type>,
                                      more: seq<Type>, close: char, seen: set<nat>, vs: Vars, st: Tables, rest: string)
    requires ListReady(tgt, used, order, args, types, seen, vs, st) && (args == [] || EndsShown(args))
    requires close == '}' || (close == ')' && forall i :: 0 <= i < |types| ==> !IsPad(types[i]))
    ensures var (s, vs') := PrintRest(tgt, used, args, vs);
            ListReads(used, order, args, seen, vs', st, [close] + rest,
                      ParseFields(tgt, false, types + more, close, s + ([close] + rest), st))
    decreases args, 4
  {
    if args == [] {
      assert "" + ([close] + rest) == [close] + rest;
      assert seen + ToSet([]) == seen;
    } else {
      ListReadyHead(tgt, used, order, args, types, seen, vs, st);
      assert (types + more)[1..] == types[1..] + more && (types + more)[0] == types[0];
      if IsPad(types[0]) {
        ReadFields(tgt, used, order, args[1..], types[1..], more, close, seen, vs, st, rest);
        RestStarts(tgt, used, args[1..], types[1..], seen, vs);
        PadStep(tgt, types + more, PrintRest(tgt, used, args[1..], vs).0, rest, st);
      } else {
        ReadField(tgt, used, order, args, types, more, close, seen, vs, st, rest);
      }
    }
  }

  lemma {:induction false} ReadField(tgt: Target, used: set<nat>, order: seq<nat>, args: seq<Arg>, types: seq<Type>,
                                     more: seq<Type>, close: char, seen: set<nat>, vs: Vars, st: Tables, rest: string)
    requires ListReady(tgt, used, order, args, types, seen, vs, st) && EndsShown(args) && !IsPad(types[0])
    requires close == '}' || (close == ')' && forall i :: 0 <= i < |types| ==> !IsPad(types[i]))
    ensures var (s, vs') := PrintRest(tgt, used, args, vs);
            ListReads(used, order, args, seen, vs', st, [close] + rest,
                      ParseFields(tgt, false, types + more, close, s + ([close] + rest), st))
    decreases args, 3
  {
    hide WellFormed, Linked, Numbered;
    ListReadyHead(tgt, used, order, args, types, seen, vs, st);
    var end := [close] + rest;
    RestIs(tgt, used, args, vs, end);
    var (s, vs1) := PrintArg(tgt, used, args[0], vs);
    var (u, vs2) := PrintRest(tgt, used, args[1..], vs1);
    var tail := if args[1..] == [] then end else ", " + u + end;
    ReadArg(tgt, used, order, args[0], types[0], seen, vs, st, tail);
    var o := ParseArg(tgt, false, types[0], s + tail, st);
    ListReadyTail(tgt, used, order, args, types, seen, vs, st, vs1, tail, o);
    ReadFields(tgt, used, order, args[1..], types[1..], more, close, seen + ToSet(Ids(args[0])), vs1, o.st, rest);
    FieldTexts(tgt, used, args, types, seen, vs);
    assert (types + more)[1..] == types[1..] + more && (types + more)[0] == types[0];
    FieldStep(tgt, types + more, close, s, u, rest, st, o);
    ListReadsCons(used, order, args, seen, vs1, vs2, st, tail, o, end,
                  ParseFields(tgt, false, types[1..] + more, close, u + end, o.st));
  }

  /** The first member of a list and the others print as good text. */
  lemma FieldTexts(tgt: Target, used: set<nat>, args: seq<Arg>, types: seq<Type>, seen: set<nat>, vs: Vars)
    requires WellFormed(tgt) && |args| == |types| && args != [] && (args[1..] == [] || EndsShown(args[1..]))
    requires forall i :: 0 <= i < |types| ==> WellFormedType(tgt, types[i])
    requires ValidateSeq(tgt, args, types, seen).Some?
    ensures var (s, vs1) := PrintArg(tgt, used, args[0], vs); var u := PrintRest(tgt, used, args[1..], vs1).0;
            GoodText(s) && if args[1..] == [] then u == "" else GoodText(u)
  {
    PrintArgPrintable(tgt, used, args[0], types[0], seen, vs);
    if args[1..] != [] {
      RestStarts(tgt, used, args[1..], types[1..], ValidateArg(tgt, args[0], types[0], seen).value,
                 PrintArg(tgt, used, args[0], vs).1);
    }
  }

  lemma {:induction false} RestStarts(tgt: Target, used: set<nat>, args: seq<Arg>, types: seq<Type>, seen: set<nat>,
                                      vs: Vars)
    requires WellFormed(tgt) && |args| == |types| && EndsShown(args)
    requires forall i :: 0 <= i < |types| ==> WellFormedType(tgt, types[i])
    requires ValidateSeq(tgt, args, types, seen).Some?
    ensures GoodText(PrintRest(tgt, used, args, vs).0)
  {
    if IsPad(args[0].typ) {
      RestStarts(tgt, used, args[1..], types[1..], ValidateArg(tgt, args[0], types[0], seen).value, vs);
    } else {
      PrintArgPrintable(tgt, used, args[0], types[0], seen, vs);
      PrintInnerPrintable(tgt, used, args, types, seen, vs);
    }
  }

  lemma ElemStep(tgt: Target, t: Type, s: string, u: string, rest: string, st: Tables, a: Outcome<Arg>)
    requires GoodText(s) && (u == "" || GoodText(u))
    requires var tail := if u == "" then "]" + rest else ", " + u + ("]" + rest);
             a == ParseArg(tgt, false, t, s + tail, st) && a.Ok? && a.rest == tail
    requires ParseElems(tgt, false, t, u + ("]" + rest), a.st).Ok?
    ensures var tail := if u == "" then "]" + rest else ", " + u + ("]" + rest);
            var o := ParseElems(tgt, false, t, u + ("]" + rest), a.st);
            ParseElems(tgt, false, t, s + tail, st) == o.(value := [a.value] + o.value)
  {
    var end := "]" + rest;
    var tail := if u == "" then end else ", " + u + end;
    assert (s + tail)[0] == s[0] != ']';
    if u == "" {
      assert u + end == end;
    } else {
      ReadComma(u, end);
    }
  }

  lemma {:induction false} ReadElems(tgt: Target, used: set<nat>, order: seq<nat>, args: seq<Arg>, t: Type,
                                     seen: set<nat>, vs: Vars, st: Tables, rest: string)
    requires ListReady(tgt, used, order, args, Repeat(t, |args|), seen, vs, st) && !IsPad(t)
    ensures var (s, vs') := PrintRest(tgt, used, args, vs);
            ListReads(used, order, args, seen, vs', st, "]" + rest, ParseElems(tgt, false, t, s + ("]" + rest), st))
    decreases args, 3
  {
    var end := "]" + rest;
    if args == [] {
      assert "" + end == end;
      assert seen + ToSet([]) == seen;
    } else {
      ReadElem(tgt, used, order, args, t, seen, vs, st, rest);
    }
  }

  lemma {:induction false} ReadElem(tgt: Target, used: set<nat>, order: seq<nat>, args: seq<Arg>, t: Type,
                                    seen: set<nat>, vs: Vars, st: Tables, rest: string)
    requires ListReady(tgt, used, order, args, Repeat(t, |args|), seen, vs, st) && !IsPad(t) && args != []
    ensures var (s, vs') := PrintRest(tgt, used, args, vs);
            ListReads(used, order, args, seen, vs', st, "]" + rest, ParseElems(tgt, false, t, s + ("]" + rest), st))
    decreases args, 2
  {
    hide WellFormed, Linked, Numbered;
    var end := "]" + rest;
    var types := Repeat(t, |args|);
    assert types[1..] == Repeat(t, |args[1..]|);
    ListReadyHead(tgt, used, order, args, types, seen, vs, st);
    LastShown(tgt, args, t, seen);
    RestIs(tgt, used, args, vs, end);
    var (s, vs1) := PrintArg(tgt, used, args[0], vs);
    var (u, vs2) := PrintRest(tgt, used, args[1..], vs1);
    var tail := if args[1..] == [] then end else ", " + u + end;
    ReadArg(tgt, used, order, args[0], t, seen, vs, st, tail);
    var o := ParseArg(tgt, false, t, s + tail, st);
    ListReadyTail(tgt, used, order, args, types, seen, vs, st, vs1, tail, o);
    ReadElems(tgt, used, order, args[1..], t, seen + ToSet(Ids(args[0])), vs1, o.st, rest);
    FieldTexts(tgt, used, args, types, seen, vs);
    ElemStep(tgt, t, s, u, rest, st, o);
    ListReadsCons(used, order, args, seen, vs1, vs2, st, tail, o, end, ParseElems(tgt, false, t, u + end, o.st));
  }

  /** No element of an array is padding. */
  lemma {:induction false} LastShown(tgt: Target, args: seq<Arg>, t: Type, seen: set<nat>)
    requires args != [] && !IsPad(t) && ValidateSeq(tgt, args, Repeat(t, |args|), seen).Some?
    ensures EndsShown(args)
    ensures |args| > 1 ==> EndsShown(args[1..])
  {
    if |args| > 1 {
      assert Repeat(t, |args|)[1..] == Repeat(t, |args[1..]|);
      LastShown(tgt, args[1..], t, ValidateArg(tgt, args[0], t, seen).value);
    }
  }

  // ---- groups ----

  /** The shown prefix of a list and the elided defaults behind it, each in its place. */
  lemma SplitReady(tgt: Target, used: set<nat>, order: seq<nat>, args: seq<Arg>, types: seq<Type>, n: nat,
                   seen: set<nat>, vs: Vars, st: Tables)
    requires ListReady(tgt, used, order, args, types, seen, vs, st) && n <= |args|
    ensures ListReady(tgt, used, order, args[..n], types[..n], seen, vs, st)
    ensures ValidateSeq(tgt, args[n..], types[n..], seen + ToSet(IdsSeq(args[..n]))).Some?
    ensures CanonicalSeq(tgt, args[n..], types[n..])
    ensures Numbered(order, IdsSeq(args[n..]), st.next + |IdsSeq(args[..n])|)
    ensures IdsSeq(args) == IdsSeq(args[..n]) + IdsSeq(args[n..])
    ensures RenameSeq(order, args) == RenameSeq(order, args[..n]) + RenameSeq(order, args[n..])
  {
    var x, y := args[..n], args[n..];
    var tx, ty := types[..n], types[n..];
    assert x + y == args && tx + ty == types;
    ValidateConcat(tgt, x, y, tx, ty, seen);
    ValidateSeqAdds(tgt, x, tx, seen);
    CanonicalConcat(tgt, x, y, tx, ty);
    IdsConcat(x, y);
    RefsConcat(x, y);
    RenameConcat(order, x, y);
    NumberedConcat(order, IdsSeq(x), IdsSeq(y), st.next);
  }

  lemma {:induction false} RefsConcat(a: seq<Arg>, b: seq<Arg>)
    ensures RefsSeq(a + b) == RefsSeq(a) + RefsSeq(b)
  {
    if a == [] {
      assert a + b == b;
    } else {
      assert (a + b)[1..] == a[1..] + b;
      RefsConcat(a[1..], b);
    }
  }

  /** The shown prefix has been read and the defaults are filled in: the whole list is there. */
  lemma FillDefaults(tgt: Target, used: set<nat>, order: seq<nat>, args: seq<Arg>, types: seq<Type>, n: nat,
                     seen: set<nat>, vs: Vars, vs': Vars, st: Tables, rest: string, o: Outcome<seq<Arg>>)
    requires ListReady(tgt, used, order, args, types, seen, vs, st) && n <= |args| && AllDefault(tgt, used, args[n..])
    requires ListReads(used, order, args[..n], seen, vs', st, rest, o)
    ensures var d := DefaultArgs(tgt, types[n..], o.st.next);
            ListReads(used, order, args, seen, vs', st, rest, Ok(o.value + d.0, rest, o.st.(next := d.1)))
  {
    SplitReady(tgt, used, order, args, types, n, seen, vs, st);
    DefaultSeqIs(tgt, used, order, args[n..], types[n..], seen + ToSet(IdsSeq(args[..n])), o.st.next);
    LinkedElided(used, order, seen + ToSet(IdsSeq(args[..n])), IdsSeq(args[n..]), vs', o.st,
                 o.st.next + |IdsSeq(args[n..])|);
    assert seen + ToSet(IdsSeq(args)) == seen + ToSet(IdsSeq(args[..n])) + ToSet(IdsSeq(args[n..]));
  }

  lemma GroupReady(tgt: Target, used: set<nat>, order: seq<nat>, a: Arg, t: Type, seen: set<nat>, vs: Vars, st: Tables)
    requires Ready(tgt, used, order, a, t, seen, vs, st) && a.GroupArg?
    ensures a.typ == t && (t.StructT? || t.ArrayT?) && |a.inner| == |MemberTypes(tgt, a)|
    ensures ListReady(tgt, used, order, a.inner, MemberTypes(tgt, a), seen, vs, st)
    ensures MemberTypes(tgt, a) != [] ==> !IsPad(MemberTypes(tgt, a)[0])
    ensures t.ArrayT? ==> !IsPad(t.elem) && (t.fixedLen.Some? ==> |a.inner| == t.fixedLen.value)
  {
    MembersWellFormed(tgt, a, t, seen);
  }

  /** Padding is default, so a last member that is not default is not padding. */
  lemma {:induction false} LastIsShown(tgt: Target, used: set<nat>, args: seq<Arg>, types: seq<Type>, seen: set<nat>)
    requires |args| == |types| && args != []
    requires !IsDefault(tgt, used, args[|args| - 1]) || !IsPad(types[|args| - 1])
    requires forall i :: 0 <= i < |types| ==> WellFormedType(tgt, types[i])
    requires ValidateSeq(tgt, args, types, seen).Some? && CanonicalSeq(tgt, args, types)
    ensures EndsShown(args)
  {
    if |args| == 1 {
      if IsPad(types[0]) {
        PadIsConst(tgt, args[0], types[0], seen);
      }
    } else {
      LastIsShown(tgt, used, args[1..], types[1..], ValidateArg(tgt, args[0], types[0], seen).value);
    }
  }

  lemma BracketText(open: char, close: char, s: string, rest: string)
    requires (s == "" || GoodText(s)) && open != ' ' && close != ' ' && close != '\t'
    ensures Expect([open] + s + [close] + rest, open) == Some(s + ([close] + rest))
  {
    var body := s + ([close] + rest);
    assert SkipWs(body) == body;
    assert [open] + s + [close] + rest == [open] + body;
    ExpectIs(open, body);
  }

  lemma StructStep(tgt: Target, t: Type, s: string, rest: string, st: Tables, o: Outcome<seq<Arg>>)
    requires t.StructT? && (s == "" || GoodText(s)) && Ended(rest)
    requires o == ParseFields(tgt, false, Desc(tgt, t.key).fields, '}', s + (['}'] + rest), st) && o.Ok?
      && o.rest == ['}'] + rest
    ensures var d := DefaultArgs(tgt, Desc(tgt, t.key).fields[|o.value|..], o.st.next);
            ParseArg(tgt, false, t, "{" + s + "}" + rest, st) ==
              Ok(GroupArg(t, o.value + d.0), rest, o.st.(next := d.1))
  {
    hide ParseFields, DefaultArgs;
    EndedIs(rest);
    BracketText('{', '}', s, rest);
    ExpectIs('}', rest);
    Dispatch(tgt, t, "{" + s + "}" + rest, st);
  }

  lemma ArrayStep(tgt: Target, t: Type, s: string, rest: string, st: Tables, o: Outcome<seq<Arg>>)
    requires t.ArrayT? && (s == "" || GoodText(s)) && Ended(rest)
    requires o == ParseElems(tgt, false, t.elem, s + ("]" + rest), st) && o.Ok? && o.rest == "]" + rest
    requires t.fixedLen.Some? ==> |o.value| <= t.fixedLen.value
    ensures var d := DefaultArgs(tgt, Repeat(t.elem, if t.fixedLen.Some? then t.fixedLen.value - |o.value| else 0),
                                 o.st.next);
            ParseArg(tgt, false, t, "[" + s + "]" + rest, st) ==
              Ok(GroupArg(t, o.value + d.0), rest, o.st.(next := d.1))
  {
    hide ParseElems;
    EndedIs(rest);
    BracketText('[', ']', s, rest);
    ExpectIs(']', rest);
    Dispatch(tgt, t, "[" + s + "]" + rest, st);
    if t.fixedLen.None? || |o.value| == t.fixedLen.value {
      assert Repeat(t.elem, 0) == [];
      assert o.value[..|o.value|] == o.value && o.value + [] == o.value;
    }
  }

  lemma InnerIsRest(tgt: Target, used: set<nat>, args: seq<Arg>, types: seq<Type>, seen: set<nat>, vs: Vars)
    requires WellFormed(tgt) && |args| == |types| && (args == [] || (EndsShown(args) && !IsPad(types[0])))
    requires forall i :: 0 <= i < |types| ==> WellFormedType(tgt, types[i])
    requires ValidateSeq(tgt, args, types, seen).Some?
    ensures PrintInner(tgt, used, args, vs) == PrintRest(tgt, used, args, vs)
    ensures args == [] ==> PrintRest(tgt, used, args, vs).0 == ""
    ensures args != [] ==> GoodText(PrintRest(tgt, used, args, vs).0)
  {
    if args != [] {
      assert args[0].typ == types[0] || IsAnyPtr(args[0].typ);
      RestStarts(tgt, used, args, types, seen, vs);
    }
  }

  lemma {:induction false} ReadGroup(tgt: Target, used: set<nat>, order: seq<nat>, a: Arg, t: Type, seen: set<nat>,
                                     vs: Vars, st: Tables, rest: string)
    requires Ready(tgt, used, order, a, t, seen, vs, st) && Ended(rest) && a.GroupArg?
    ensures var (s, vs') := PrintArg(tgt, used, a, vs);
            Reads(used, order, a, seen, vs', st, rest, ParseArg(tgt, false, t, s + rest, st))
    decreases a, 4
  {
    GroupReady(tgt, used, order, a, t, seen, vs, st);
    var n := ShownIs(tgt, used, a);
    if t.StructT? {
      ReadStruct(tgt, used, order, a, t, n, seen, vs, st, rest);
    } else {
      ReadArray(tgt, used, order, a, t, n, seen, vs, st, rest);
    }
  }

  /** The shown part of a group: ready to be read, and printed as good text. */
  lemma ShownReady(tgt: Target, used: set<nat>, order: seq<nat>, args: seq<Arg>, types: seq<Type>, n: nat,
                   seen: set<nat>, vs: Vars, st: Tables)
    requires ListReady(tgt, used, order, args, types, seen, vs, st) && n <= |args|
    requires n > 0 ==> !IsPad(types[0]) && (!IsDefault(tgt, used, args[n - 1]) || forall i :: 0 <= i < n ==>
                                            !IsPad(types[i]))
    ensures ListReady(tgt, used, order, args[..n], types[..n], seen, vs, st)
    ensures n > 0 ==> EndsShown(args[..n]) && GoodText(PrintRest(tgt, used, args[..n], vs).0)
    ensures n == 0 ==> PrintRest(tgt, used, args[..n], vs).0 == ""
    ensures PrintInner(tgt, used, args[..n], vs) == PrintRest(tgt, used, args[..n], vs)
  {
    SplitReady(tgt, used, order, args, types, n, seen, vs, st);
    if n > 0 {
      assert args[..n][n - 1] == args[n - 1];
      LastIsShown(tgt, used, args[..n], types[..n], seen);
    }
    InnerIsRest(tgt, used, args[..n], types[..n], seen, vs);
  }

  /** A list that has been read, in the brackets of its group. */
  lemma ReadsGroup(used: set<nat>, order: seq<nat>, a: Arg, seen: set<nat>, vs: Vars, st: Tables, end: string,
                   rest: string, o: Outcome<seq<Arg>>)
    requires a.GroupArg? && ListReads(used, order, a.inner, seen, vs, st, end, o)
    ensures Reads(used, order, a, seen, vs, st, rest, Ok(GroupArg(a.typ, o.value), rest, o.st))
  {
  }

  lemma StructText(tgt: Target, used: set<nat>, a: Arg, vs: Vars)
    requires a.GroupArg? && a.typ.StructT?
    ensures var (s, vs') := PrintInner(tgt, used, Shown(tgt, used, a), vs);
      PrintArg(tgt, used, a, vs) == ("{" + s + "}", vs')
  {
  }

  lemma {:induction false} ReadStruct(tgt: Target, used: set<nat>, order: seq<nat>, a: Arg, t: Type, n: nat,
                                      seen: set<nat>, vs: Vars, st: Tables, rest: string)
    requires Ended(rest) && a.GroupArg? && a.typ == t && t.StructT?
    requires var types := Desc(tgt, t.key).fields;
             ListReady(tgt, used, order, a.inner, types, seen, vs, st) && (types != [] ==> !IsPad(types[0]))
    requires n <= |a.inner| && Shown(tgt, used, a) == a.inner[..n] && AllDefault(tgt, used, a.inner[n..])
    requires n > 0 ==> !IsDefault(tgt, used, a.inner[n - 1])
    ensures var (s, vs') := PrintArg(tgt, used, a, vs);
            Reads(used, order, a, seen, vs', st, rest, ParseArg(tgt, false, t, s + rest, st))
    decreases a, 3
  {
    StructText(tgt, used, a, vs);
    hide WellFormed, Linked, Numbered, ParseArg, ParseFields, DefaultArgs, PrintArg, Reads, ListReads, IsDefault,
      AllDefault, PrintRest;
    var types := Desc(tgt, t.key).fields;
    var shown := Shown(tgt, used, a);
    ShownReady(tgt, used, order, a.inner, types, n, seen, vs, st);
    ReadFields(tgt, used, order, shown, types[..n], types[n..], '}', seen, vs, st, rest);
    assert types[..n] + types[n..] == types;
    var (s, vs') := PrintRest(tgt, used, shown, vs);
    var end := ['}'] + rest;
    var o := ParseFields(tgt, false, types, '}', s + end, st);
    StructStep(tgt, t, s, rest, st, o);
    FillDefaults(tgt, used, order, a.inner, types, n, seen, vs, vs', st, end, o);
    var d := DefaultArgs(tgt, types[n..], o.st.next);
    ReadsGroup(used, order, a, seen, vs', st, end, rest, Ok(o.value + d.0, end, o.st.(next := d.1)));
  }

  lemma RepeatSplit(t: Type, k: nat, n: nat)
    requires n <= k
    ensures Repeat(t, k)[..n] == Repeat(t, n) && Repeat(t, k)[n..] == Repeat(t, k - n)
  {
  }

  lemma {:induction false} ReadArray(tgt: Target, used: set<nat>, order: seq<nat>, a: Arg, t: Type, n: nat,
                                     seen: set<nat>, vs: Vars, st: Tables, rest: string)
    requires Ended(rest) && a.GroupArg? && a.typ == t && t.ArrayT? && !IsPad(t.elem)
    requires ListReady(tgt, used, order, a.inner, Repeat(t.elem, |a.inner|), seen, vs, st)
    requires n <= |a.inner| && Shown(tgt, used, a) == a.inner[..n] && AllDefault(tgt, used, a.inner[n..])
    requires if t.fixedLen.Some? then |a.inner| == t.fixedLen.value else n == |a.inner|
    ensures var (s, vs') := PrintArg(tgt, used, a, vs);
            Reads(used, order, a, seen, vs', st, rest, ParseArg(tgt, false, t, s + rest, st))
    decreases a, 3
  {
    hide WellFormed, Linked, Numbered, ParseArg, ParseElems, DefaultArgs;
    var types := Repeat(t.elem, |a.inner|);
    var shown := Shown(tgt, used, a);
    ShownReady(tgt, used, order, a.inner, types, n, seen, vs, st);
    RepeatSplit(t.elem, |a.inner|, n);
    ReadElems(tgt, used, order, shown, t.elem, seen, vs, st, rest);
    var (s, vs') := PrintRest(tgt, used, shown, vs);
    var end := "]" + rest;
    var o := ParseElems(tgt, false, t.elem, s + end, st);
    ArrayStep(tgt, t, s, rest, st, o);
    FillDefaults(tgt, used, order, a.inner, types, n, seen, vs, vs', st, end, o);
    var d := DefaultArgs(tgt, types[n..], o.st.next);
    ReadsGroup(used, order, a, seen, vs', st, end, rest, Ok(o.value + d.0, end, o.st.(next := d.1)));
  }
}
