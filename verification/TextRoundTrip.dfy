/** The round trip of whole programs through their text form. */
module TextRoundTrip {
  import opened ProgTypes
  import opened Numbers
  import opened DataText
  import opened Validation
  import opened CanonicalForm
  import opened Printer
  import opened Parser
  import opened TextLemmas
  import opened ReadTokens
  import opened ReadTrees

  // ---- one call ----

  /** Printing a tree gives numbers only to the results of the tree. */
  lemma {:induction false} PrintKeeps(tgt: Target, used: set<nat>, a: Arg, vs: Vars, id: nat)
    requires id in vs.ids && id !in Ids(a)
    ensures var vs' := PrintArg(tgt, used, a, vs).1; id in vs'.ids && vs'.ids[id] == vs.ids[id]
    decreases a, 1
  {
    match a
    case PointerArg(_, _, _, res) =>
      if res.Some? {
        PrintKeeps(tgt, used, res.value, vs, id);
      }
    case UnionArg(_, option) => PrintKeeps(tgt, used, option, vs, id);
    case GroupArg(_, inner) =>
      var n := ShownIs(tgt, used, a);
      assert inner[..n] + inner[n..] == inner;
      IdsConcat(inner[..n], inner[n..]);
      PrintSeqKeeps(tgt, used, Shown(tgt, used, a), vs, id);
    case _ =>
  }

  lemma {:induction false} PrintSeqKeeps(tgt: Target, used: set<nat>, args: seq<Arg>, vs: Vars, id: nat)
    requires id in vs.ids && id !in IdsSeq(args)
    ensures var vs' := PrintInner(tgt, used, args, vs).1; id in vs'.ids && vs'.ids[id] == vs.ids[id]
    ensures var vs' := PrintTail(tgt, used, args, vs).1; id in vs'.ids && vs'.ids[id] == vs.ids[id]
    decreases args, 0
  {
    if args != [] {
      PrintKeeps(tgt, used, args[0], vs, id);
      PrintSeqKeeps(tgt, used, args[1..], vs, id);
      PrintSeqKeeps(tgt, used, args[1..], PrintArg(tgt, used, args[0], vs).1, id);
    }
  }

  lemma {:induction false} LookupIs(syscalls: seq<Syscall>, meta: nat, i: nat)
    requires i <= meta < |syscalls|
    requires forall i, j :: 0 <= i < j < |syscalls| ==> syscalls[i].name != syscalls[j].name
    ensures Lookup(syscalls, syscalls[meta].name, i) == Some(meta)
    decreases meta - i
  {
    if i < meta {
      LookupIs(syscalls, meta, i + 1);
    }
  }

  ghost predicate CallReady(tgt: Target, used: set<nat>, order: seq<nat>, c: Call, seen: set<nat>, vs: Vars,
                            st: Tables) {
    && WellFormed(tgt)
    && ValidateCall(tgt, c, seen).Some? && CanonicalSeq(tgt, c.args, tgt.syscalls[c.meta].args)
    && RefsSeq(c.args) <= used
    && Numbered(order, IdsCall(c), st.next)
    && Linked(used, order, seen, vs, st)
  }

  /** The tables when the arguments start: the return value has a printed name that is not yet bound. */
  lemma LinkedRet(used: set<nat>, order: seq<nat>, seen: set<nat>, vs: Vars, st: Tables, id: nat)
    requires Linked(used, order, seen, vs, st) && id !in seen
    ensures Linked(used, order, seen, Alloc(vs, id), st.(next := st.next + 1))
    ensures Linked(used, order, seen, vs, st.(next := st.next + 1))
  {
    forall d | d in seen && d in used
      ensures Named(order, Alloc(vs, id), st.(next := st.next + 1), d) && Named(order, vs, st.(next := st.next + 1), d)
    {
      assert Named(order, vs, st, d);
    }
  }

  /** Binding the name of the return value after the arguments. */
  lemma LinkedBindLate(used: set<nat>, order: seq<nat>, seen: set<nat>, vs: Vars, st: Tables, id: nat)
    requires Linked(used, order, seen, vs, st) && id in vs.ids && id !in seen
    ensures Linked(used, order, seen + {id}, vs, st.(vars := st.vars[VarName(vs.ids[id]) := Pos(order, id)]))
  {
    var st' := st.(vars := st.vars[VarName(vs.ids[id]) := Pos(order, id)]);
    forall d | d in seen + {id} && d in used
      ensures Named(order, vs, st', d)
    {
      if d != id {
        assert Named(order, vs, st, d);
        NamesDiffer(vs, d, id);
      }
    }
  }

  lemma NamesDiffer(vs: Vars, d: nat, e: nat)
    requires Injective(vs) && d in vs.ids && e in vs.ids && d != e
    ensures VarName(vs.ids[d]) != VarName(vs.ids[e])
  {
    if VarName(vs.ids[d]) == VarName(vs.ids[e]) {
      assert VarName(vs.ids[d])[1..] == Dec(vs.ids[d]) && VarName(vs.ids[e])[1..] == Dec(vs.ids[e]);
      DecInjective(vs.ids[d], vs.ids[e]);
    }
  }

  /** The printed argument list of a call. */
  lemma ReadArgList(tgt: Target, used: set<nat>, order: seq<nat>, args: seq<Arg>, types: seq<Type>, seen: set<nat>,
                    vs: Vars, st: Tables)
    requires ListReady(tgt, used, order, args, types, seen, vs, st)
    requires forall i :: 0 <= i < |types| ==> !IsPad(types[i])
    ensures var (s, vs') := PrintInner(tgt, used, args, vs);
            && (s == "" || GoodText(s))
            && ListReads(used, order, args, seen, vs', st, ")", ParseFields(tgt, false, types, ')', s + ")", st))
  {
    var n := |args|;
    assert args[..n] == args && types[..n] == types && types + [] == types;
    ShownReady(tgt, used, order, args, types, n, seen, vs, st);
    ReadFields(tgt, used, order, args, types, [], ')', seen, vs, st, "");
    assert [')'] + "" == ")";
  }

  function RetOf(tgt: Target, meta: nat, id: nat): Option<Arg>
    requires meta < |tgt.syscalls|
  {
    var sys := tgt.syscalls[meta];
    if sys.ret.Some? then Some(ResultArg(sys.ret.value, id, None, 0, 0, 0)) else None
  }

  lemma FinishStep(tgt: Target, meta: nat, name: Option<string>, id: nat, o: Outcome<seq<Arg>>)
    requires meta < |tgt.syscalls| && o.Ok? && o.rest == ")" && |o.value| == |tgt.syscalls[meta].args|
    ensures FinishCall(tgt, false, meta, name, id, o)
            == Some((Call(meta, o.value, RetOf(tgt, meta, id)),
                     if name.Some? && tgt.syscalls[meta].ret.Some? then o.st.(vars := o.st.vars[name.value := id])
                       else o.st))
  {
    var sys := tgt.syscalls[meta];
    assert Expect(")", ')') == Some("");
    assert sys.args[|o.value|..] == [];
    assert o.value + [] == o.value;
  }

  lemma CallArgsStep(tgt: Target, meta: nat, name: Option<string>, s: string, st: Tables)
    requires meta < |tgt.syscalls| && (s == "" || GoodText(s))
    ensures var sys := tgt.syscalls[meta];
            ParseCallArgs(tgt, false, meta, name, "(" + s + ")", st)
            == FinishCall(tgt, false, meta, name, st.next,
                          ParseFields(tgt, false, sys.args, ')', s + ")",
                                      if sys.ret.Some? then st.(next := st.next + 1) else st))
  {
    hide ParseFields, FinishCall;
    ParenText(s);
  }

  lemma ParenText(s: string)
    requires s == "" || GoodText(s)
    ensures Expect("(" + s + ")", '(') == Some(s + ")")
  {
    var body := s + ")";
    assert SkipWs(body) == body;
    assert "(" + s + ")" == ['('] + body;
    ExpectIs('(', body);
  }

  /** The head of a line: an optional result name, then the name of the call. */
  lemma HeadText(r: string, name: string, tail: string)
    requires IsIdent(r) && IsIdent(name) && tail != [] && tail[0] == '('
    ensures Ident(r + " = " + name + tail) == Some((r, "= " + name + tail))
    ensures Expect("= " + name + tail, '=') == Some(name + tail)
    ensures Ident(name + tail) == Some((name, tail))
  {
    var x, y := name + tail, "= " + name + tail;
    HeadPieces(r, name, tail);
    BlankSkipped(x);
    BlankSkipped(y);
    hide SkipWs, IdentLen;
    ExpectIs('=', [' '] + x);
    IdentIs(r, [' '] + y);
    IdentIs(name, tail);
  }

  lemma HeadPieces(r: string, name: string, tail: string)
    requires name != []
    ensures "= " + name + tail == ['='] + ([' '] + (name + tail))
    ensures r + " = " + name + tail == r + ([' '] + ("= " + name + tail))
    ensures (name + tail)[0] == name[0] && ("= " + name + tail)[0] == '='
  {
  }

  lemma BlankSkipped(x: string)
    requires x != [] && x[0] != ' ' && x[0] != '\t'
    ensures SkipWs([' '] + x) == x && SkipWs(x) == x
  {
    assert ([' '] + x)[1..] == x;
  }

  lemma CallHeadStep(tgt: Target, meta: nat, n: Option<nat>, s: string, st: Tables)
    requires WellFormed(tgt) && meta < |tgt.syscalls|
    ensures var name := tgt.syscalls[meta].name;
            ParseCall(tgt, false, (if n.Some? then VarName(n.value) + " = " else "") + name + ("(" + s + ")"), st)
            == ParseCallArgs(tgt, false, meta, if n.Some? then Some(VarName(n.value)) else None, "(" + s + ")", st)
  {
    hide ParseCallArgs;
    var name := tgt.syscalls[meta].name;
    assert WellFormedSyscall(tgt, tgt.syscalls[meta]);
    LookupIs(tgt.syscalls, meta, 0);
    var tail := "(" + s + ")";
    if n.Some? {
      HexIsPrintable(n.value);
      HeadText(VarName(n.value), name, tail);
    } else {
      HeadText(name, name, tail);
      assert "" + name + tail == name + tail;
    }
  }

  /** The printed line of a call. */
  lemma CallText(tgt: Target, used: set<nat>, c: Call, vs: Vars)
    requires c.meta < |tgt.syscalls|
    ensures var vs1 := if RetUsed(used, c) then Alloc(vs, c.ret.value.id) else vs;
            var (s, vs2) := PrintInner(tgt, used, c.args, vs1);
            PrintCall(tgt, used, c, vs)
            == ((if RetUsed(used, c) then VarName(vs.next) + " = " else "") + tgt.syscalls[c.meta].name
                + ("(" + s + ")"), vs2)
  {
    var vs1 := if RetUsed(used, c) then Alloc(vs, c.ret.value.id) else vs;
    var s := PrintInner(tgt, used, c.args, vs1).0;
    var head := (if RetUsed(used, c) then VarName(vs.next) + " = " else "") + tgt.syscalls[c.meta].name;
    assert head + "(" + s + ")" == head + ("(" + s + ")");
  }

  /** What validity says about a call. */
  lemma CallFacts(tgt: Target, used: set<nat>, order: seq<nat>, c: Call, seen: set<nat>, vs: Vars, st: Tables)
    requires CallReady(tgt, used, order, c, seen, vs, st)
    ensures WellFormed(tgt) && c.meta < |tgt.syscalls| && |c.args| == |tgt.syscalls[c.meta].args|
    ensures WellFormedSyscall(tgt, tgt.syscalls[c.meta])
    ensures c.ret.Some? == tgt.syscalls[c.meta].ret.Some?
    ensures c.ret.Some? ==> && c.ret.value == ResultArg(tgt.syscalls[c.meta].ret.value, c.ret.value.id, None, 0, 0, 0)
                            && Pos(order, c.ret.value.id) == st.next && c.ret.value.id !in seen
                              && c.ret.value.id !in IdsSeq(c.args)
    ensures Numbered(order, IdsSeq(c.args), if c.ret.Some? then st.next + 1 else st.next)
    ensures ValidateSeq(tgt, c.args, tgt.syscalls[c.meta].args, seen).Some?
  {
    var meta := tgt.syscalls[c.meta];
    assert WellFormedSyscall(tgt, meta);
    ValidateSeqAdds(tgt, c.args, meta.args, seen);
    if c.ret.Some? {
      assert IdsCall(c) == [c.ret.value.id] + IdsSeq(c.args);
      assert IdsCall(c)[0] == c.ret.value.id;
      NodeFacts(tgt, c.ret.value, meta.ret.value, ValidateSeq(tgt, c.args, meta.args, seen).value);
      NumberedConcat(order, [c.ret.value.id], IdsSeq(c.args), st.next);
    } else {
      assert IdsCall(c) == IdsSeq(c.args);
    }
  }

  /** The outcome of a call: the renumbered call and consistent tables. */
  ghost predicate CallReads(used: set<nat>, order: seq<nat>, c: Call, seen: set<nat>, vs: Vars, st: Tables,
                            o: Option<(Call, Tables)>) {
    && o.Some? && o.value.0 == RenameCall(order, c)
    && o.value.1.next == st.next + |IdsCall(c)|
    && Linked(used, order, seen + ToSet(IdsCall(c)), vs, o.value.1)
  }

  /** The arguments of a call are ready once the return value has its number. */
  lemma ArgsReady(tgt: Target, used: set<nat>, order: seq<nat>, c: Call, seen: set<nat>, vs: Vars, st: Tables)
    requires CallReady(tgt, used, order, c, seen, vs, st)
    ensures c.meta < |tgt.syscalls|
    ensures ListReady(tgt, used, order, c.args, tgt.syscalls[c.meta].args, seen,
                      if RetUsed(used, c) then Alloc(vs, c.ret.value.id) else vs,
                      if c.ret.Some? then st.(next := st.next + 1) else st)
  {
    CallFacts(tgt, used, order, c, seen, vs, st);
    if c.ret.Some? {
      LinkedRet(used, order, seen, vs, st, c.ret.value.id);
    }
  }

  /** Parsing a printed call comes down to parsing its argument list. */
  lemma ParsePrintedCall(tgt: Target, used: set<nat>, c: Call, vs: Vars, st: Tables, s: string, o: Outcome<seq<Arg>>)
    requires WellFormed(tgt) && c.meta < |tgt.syscalls| && (s == "" || GoodText(s))
    requires var vs1 := if RetUsed(used, c) then Alloc(vs, c.ret.value.id) else vs;
             s == PrintInner(tgt, used, c.args, vs1).0
    requires c.ret.Some? == tgt.syscalls[c.meta].ret.Some?
    requires o == ParseFields(tgt, false, tgt.syscalls[c.meta].args, ')', s + ")",
                              if c.ret.Some? then st.(next := st.next + 1) else st)
    requires o.Ok? && o.rest == ")" && |o.value| == |tgt.syscalls[c.meta].args|
    ensures ParseCall(tgt, false, PrintCall(tgt, used, c, vs).0, st)
            == Some((Call(c.meta, o.value, RetOf(tgt, c.meta, st.next)),
                     if RetUsed(used, c) then o.st.(vars := o.st.vars[VarName(vs.next) := st.next]) else o.st))
  {
    hide WellFormed, ParseFields, ParseCall, ParseCallArgs, FinishCall, PrintCall, PrintInner;
    var n := if RetUsed(used, c) then Some(vs.next) else None;
    var name := if RetUsed(used, c) then Some(VarName(vs.next)) else None;
    CallText(tgt, used, c, vs);
    CallHeadStep(tgt, c.meta, n, s, st);
    CallArgsStep(tgt, c.meta, name, s, st);
    FinishStep(tgt, c.meta, name, st.next, o);
  }

  lemma {:induction false} ReadCall(tgt: Target, used: set<nat>, order: seq<nat>, c: Call, seen: set<nat>, vs: Vars,
                                    st: Tables)
    requires CallReady(tgt, used, order, c, seen, vs, st)
    ensures var (s, vs') := PrintCall(tgt, used, c, vs);
            CallReads(used, order, c, seen, vs', st, ParseCall(tgt, false, s, st))
  {
    hide CallReady, ListReady, WellFormed, Linked, Numbered, ParseFields, ParseCall, PrintInner;
    CallFacts(tgt, used, order, c, seen, vs, st);
    ArgsReady(tgt, used, order, c, seen, vs, st);
    var types := tgt.syscalls[c.meta].args;
    var vs1 := if RetUsed(used, c) then Alloc(vs, c.ret.value.id) else vs;
    var st1 := if c.ret.Some? then st.(next := st.next + 1) else st;
    ReadArgList(tgt, used, order, c.args, types, seen, vs1, st1);
    var (s, vs2) := PrintInner(tgt, used, c.args, vs1);
    var o := ParseFields(tgt, false, types, ')', s + ")", st1);
    ParsePrintedCall(tgt, used, c, vs, st, s, o);
    if RetUsed(used, c) {
      PrintSeqKeeps(tgt, used, c.args, vs1, c.ret.value.id);
    }
    BindRet(used, order, c, seen, vs2, o.st, st.next, if RetUsed(used, c) then Some(VarName(vs.next)) else None);
  }

  /** The name of the return value, if it is used, is bound after the arguments. */
  lemma BindRet(used: set<nat>, order: seq<nat>, c: Call, seen: set<nat>, vs: Vars, st: Tables, id: nat,
                name: Option<string>)
    requires Linked(used, order, seen + ToSet(IdsSeq(c.args)), vs, st)
    requires c.ret.Some? ==>
      && c.ret.value.ResultArg? && Pos(order, c.ret.value.id) == id && c.ret.value.id !in seen
      && c.ret.value.id !in IdsSeq(c.args)
    requires name.Some? <==> RetUsed(used, c)
    requires name.Some? ==> c.ret.value.id in vs.ids && name.value == VarName(vs.ids[c.ret.value.id])
    ensures Linked(used, order, seen + ToSet(IdsCall(c)), vs,
                   if name.Some? then st.(vars := st.vars[name.value := id]) else st)
  {
    var seen1 := seen + ToSet(IdsSeq(c.args));
    if c.ret.Some? {
      var r := c.ret.value.id;
      assert IdsCall(c) == [r] + IdsSeq(c.args);
      assert seen + ToSet(IdsCall(c)) == seen1 + {r};
      if name.Some? {
        LinkedBindLate(used, order, seen1, vs, st, r);
      } else {
        LinkedElided(used, order, seen1, [r], vs, st, st.next);
        assert ToSet([r]) == {r};
        assert st.(next := st.next) == st;
      }
    } else {
      assert IdsCall(c) == IdsSeq(c.args);
    }
  }

  // ---- all lines ----

  /** A printed line: printable, not empty, and not a comment. */
  ghost predicate GoodLine(line: string) { Printable(line) && line != [] && line[0] != '#' }

  lemma CallLineGood(tgt: Target, used: set<nat>, c: Call, seen: set<nat>, vs: Vars)
    requires WellFormed(tgt) && ValidateCall(tgt, c, seen).Some?
    ensures GoodLine(PrintCall(tgt, used, c, vs).0)
  {
    var meta := tgt.syscalls[c.meta];
    assert WellFormedSyscall(tgt, meta);
    CallText(tgt, used, c, vs);
    var vs1 := if RetUsed(used, c) then Alloc(vs, c.ret.value.id) else vs;
    PrintInnerPrintable(tgt, used, c.args, meta.args, seen, vs1);
    LineIsGood(RetUsed(used, c), vs.next, meta.name, PrintInner(tgt, used, c.args, vs1).0);
  }

  lemma LineIsGood(named: bool, n: nat, name: string, s: string)
    requires IsIdent(name) && Printable(s)
    ensures GoodLine((if named then VarName(n) + " = " else "") + name + ("(" + s + ")"))
  {
    HexIsPrintable(n);
    IdentIsPrintable(name);
    var head := if named then VarName(n) + " = " else "";
    assert Printable(head) && Printable("(" + s + ")");
    var line := head + name + ("(" + s + ")");
    assert line[0] == if named then 'r' else name[0];
  }

  lemma {:induction false} ReadLines(tgt: Target, used: set<nat>, order: seq<nat>, calls: seq<Call>, seen: set<nat>,
                                     vs: Vars, st: Tables)
    requires WellFormed(tgt) && ValidateCalls(tgt, calls, seen).Some? && CanonicalCalls(tgt, calls)
    requires RefsCalls(calls) <= used && Numbered(order, IdsCalls(calls), st.next)
    requires Linked(used, order, seen, vs, st)
    ensures var o := ParseLines(tgt, false, PrintLines(tgt, used, calls, vs), st);
            && o.Some? && o.value.0 == RenameCalls(order, calls)
            && o.value.1.next == st.next + |IdsCalls(calls)|
            && forall u :: u in o.value.1.links ==> u < o.value.1.next
    decreases calls
  {
    if calls != [] {
      NumberedConcat(order, IdsCall(calls[0]), IdsCalls(calls[1..]), st.next);
      ReadCall(tgt, used, order, calls[0], seen, vs, st);
      ValidateCallAdds(tgt, calls[0], seen);
      var (s, vs1) := PrintCall(tgt, used, calls[0], vs);
      CallLineGood(tgt, used, calls[0], seen, vs);
      var c := ParseCall(tgt, false, s, st);
      ReadLines(tgt, used, order, calls[1..], seen + ToSet(IdsCall(calls[0])), vs1, c.value.1);
      LinesStep(tgt, s, PrintLines(tgt, used, calls[1..], vs1), st);
    }
  }

  lemma LinesStep(tgt: Target, line: string, lines: seq<string>, st: Tables)
    requires GoodLine(line) && ParseCall(tgt, false, line, st).Some?
    ensures var c := ParseCall(tgt, false, line, st).value;
            ParseLines(tgt, false, [line] + lines, st) ==
            match ParseLines(tgt, false, lines, c.1)
            case None => None
            case Some(others) => Some(([c.0] + others.0, others.1))
  {
    hide ParseCall;
    assert ([line] + lines)[1..] == lines;
  }

  // ---- scanning ----

  ghost predicate LinesFit(lines: seq<string>) { forall i :: 0 <= i < |lines| ==> |lines[i]| < MAX_LINE }

  /** Text made of good lines splits into exactly these lines, unless one of them is too long. */
  lemma {:induction false} ScanJoined(lines: seq<string>)
    requires forall i :: 0 <= i < |lines| ==> GoodLine(lines[i])
    ensures ScanLines(JoinLines(lines)) == if LinesFit(lines) then Some(lines) else None
    decreases |lines|
  {
    if lines != [] {
      var line, rest := lines[0], JoinLines(lines[1..]);
      var text := JoinLines(lines);
      assert text == line + "\n" + rest;
      LineEndIs(line, rest);
      assert text[..|line|] == line && text[|line| + 1..] == rest;
      assert line[|line| - 1] != '\r';
      ScanJoined(lines[1..]);
      assert LinesFit(lines) <==> |line| < MAX_LINE && LinesFit(lines[1..]) by {
        assert forall i :: 0 < i < |lines| ==> lines[i] == lines[1..][i - 1];
        assert forall i :: 0 <= i < |lines[1..]| ==> lines[1..][i] == lines[i + 1];
      }
      assert [line] + lines[1..] == lines;
    }
  }

  lemma {:induction false} LineEndIs(line: string, rest: string)
    requires Printable(line)
    ensures LineEnd(line + "\n" + rest) == |line|
    decreases |line|
  {
    var text := line + "\n" + rest;
    if line == [] {
      assert text[0] == '\n';
    } else {
      assert text[0] == line[0] && IsPrintable(line[0]);
      assert text[1..] == line[1..] + "\n" + rest;
      LineEndIs(line[1..], rest);
    }
  }

  lemma {:induction false} LinesAreGood(tgt: Target, used: set<nat>, calls: seq<Call>, seen: set<nat>, vs: Vars)
    requires WellFormed(tgt) && ValidateCalls(tgt, calls, seen).Some?
    ensures forall i :: 0 <= i < |PrintLines(tgt, used, calls, vs)| ==> GoodLine(PrintLines(tgt, used, calls, vs)[i])
    decreases calls
  {
    if calls != [] {
      CallLineGood(tgt, used, calls[0], seen, vs);
      LinesAreGood(tgt, used, calls[1..], ValidateCall(tgt, calls[0], seen).value,
                   PrintCall(tgt, used, calls[0], vs).1);
    }
  }

  // ---- the theorems ----

  lemma NumberedAll(order: seq<nat>)
    requires Distinct(order)
    ensures Numbered(order, order, 0)
    ensures forall k :: 0 <= k < |order| ==> k in PosSet(order, ToSet(order))
  {
    forall k | 0 <= k < |order|
      ensures Pos(order, order[k]) == k && k in PosSet(order, ToSet(order))
    {
      assert order[k] in ToSet(order);
    }
  }

  /** Printing then parsing gives back every valid canonical program whose lines are not too long,
      with its results renumbered. */
  lemma RoundTrip(tgt: Target, p: Prog)
    requires WellFormed(tgt) && Valid(tgt, p) && CanonicalCalls(tgt, p.calls) && LinesFit(Lines(tgt, p))
    ensures Deserialize(tgt, Serialize(tgt, p), false) == Some(Renumbered(p))
  {
    var order := IdsCalls(p.calls);
    var used := RefsCalls(p.calls);
    var vs, st := Vars(map[], 0), Tables(map[], 0, map[]);
    ValidateCallsAdds(tgt, p.calls, {});
    NumberedAll(order);
    hide WellFormed, ValidateCalls, IdsCalls, RefsCalls, PrintLines, ParseLines, CanonicalCalls, Distinct, Pos;
    ReadLines(tgt, used, order, p.calls, {}, vs, st);
    LinesAreGood(tgt, used, p.calls, {}, vs);
    ScanJoined(Lines(tgt, p));
    ValidateCallsRenamed(tgt, order, p.calls, {});
    assert PosSet(order, {}) == {};
    assert {} + ToSet(order) == ToSet(order);
  }

  /** A line that is too long makes the text unreadable. */
  lemma LongLineFails(tgt: Target, p: Prog)
    requires WellFormed(tgt) && Valid(tgt, p) && !LinesFit(Lines(tgt, p))
    ensures Deserialize(tgt, Serialize(tgt, p), false) == None
  {
    LinesAreGood(tgt, RefsCalls(p.calls), p.calls, {}, Vars(map[], 0));
    ScanJoined(Lines(tgt, p));
  }
}
