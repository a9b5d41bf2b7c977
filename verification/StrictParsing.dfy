/** Strict parsing only rejects more: whatever it accepts, lenient parsing reads in the same way. */
module StrictParsing {
  import opened ProgTypes
  import opened Numbers
  import opened DataText
  import opened Validation
  import opened Printer
  import opened Parser

  lemma {:induction false} ArgLenient(tgt: Target, t: Type, r: string, st: Tables)
    requires ParseArg(tgt, true, t, r, st).Ok?
    ensures ParseArg(tgt, false, t, r, st) == ParseArg(tgt, true, t, r, st)
    decreases |r|, 2
  {
    hide ParseImpl, Expect, Ident, ExpectWord;
    if r != [] && r[0] == '<' {
      var r1 := Expect(r, '<');
      var id := Ident(r1.value);
      var r2 := ExpectWord(id.value.1, "=>");
      ImplLenient(tgt, t, r2.value, st);
    } else {
      ImplLenient(tgt, t, r, st);
    }
  }

  lemma {:induction false} ImplLenient(tgt: Target, t: Type, r: string, st: Tables)
    requires ParseImpl(tgt, true, t, r, st).Ok?
    ensures ParseImpl(tgt, false, t, r, st) == ParseImpl(tgt, true, t, r, st)
    decreases |r|, 1
  {
    hide ParseInt, ParseRes, ParsePointer, ParseString, ParseStruct, ParseArray, ParseUnion, ExpectWord, Default;
    if r[0] == '0' || r[0] == 'r' || r[0] == '\"' || r[0] == '\'' {
      LeafLenient(tgt, t, r, st);
    } else if r[0] == '&' {
      PointerLenient(tgt, t, r, st);
    } else if r[0] == '{' {
      StructLenient(tgt, t, r, st);
    } else if r[0] == '[' {
      ArrayLenient(tgt, t, r, st);
    } else if r[0] == '@' {
      UnionLenient(tgt, t, r, st);
    }
  }

  lemma LeafLenient(tgt: Target, t: Type, r: string, st: Tables)
    requires r != []
    ensures ParseInt(tgt, true, t, r, st).Ok? ==> ParseInt(tgt, false, t, r, st) == ParseInt(tgt, true, t, r, st)
    ensures ParseRes(tgt, true, t, r, st).Ok? ==> ParseRes(tgt, false, t, r, st) == ParseRes(tgt, true, t, r, st)
    ensures (r[0] == '\"' || r[0] == '\'') && ParseString(tgt, true, t, r, st).Ok? ==>
      ParseString(tgt, false, t, r, st) == ParseString(tgt, true, t, r, st)
  {
    hide Ident, ParseUint, OptionalNumber, ParseData, Default, EatExcessive;
  }

  lemma {:induction false} PointerLenient(tgt: Target, t: Type, r: string, st: Tables)
    requires r != [] && r[0] == '&' && ParsePointer(tgt, true, t, r, st).Ok?
    ensures ParsePointer(tgt, false, t, r, st) == ParsePointer(tgt, true, t, r, st)
    decreases |r|, 0
  {
    hide ParsePointee, MakePointer, ParseAddr, Expect, EatExcessive;
    var addr := ParseAddr(tgt, Expect(r, '&').value);
    var (address, vmaSize, r2) := addr.value;
    if r2[0] != '=' {
      MakeLenient(tgt, t, address, vmaSize, r2, st);
    } else {
      PointeeLenient(tgt, t, address, vmaSize, Expect(r2, '=').value, st);
    }
  }

  lemma MakeLenient(tgt: Target, t: Type, address: u64, vmaSize: u64, r: string, st: Tables)
    requires (t.PtrT? || t.VmaT?) && MakePointer(tgt, true, t, address, vmaSize, r, st).Ok?
    ensures MakePointer(tgt, false, t, address, vmaSize, r, st) == MakePointer(tgt, true, t, address, vmaSize, r, st)
  {
  }

  lemma {:induction false} PointeeLenient(tgt: Target, t: Type, address: u64, vmaSize: u64, r: string, st: Tables)
    requires (t.PtrT? || t.VmaT?) && r != [] && ParsePointee(tgt, true, t, address, vmaSize, r, st).Ok?
    ensures ParsePointee(tgt, false, t, address, vmaSize, r, st) == ParsePointee(tgt, true, t, address, vmaSize, r, st)
    decreases |r|, 3
  {
    hide ParseArg, MakePointer, ExpectWord;
    if r[0] == 'A' {
      ArgLenient(tgt, ANY_ARRAY, ExpectWord(r, "ANY=").value, st);
    } else if t.VmaT? {
      MakeLenient(tgt, t, address, vmaSize, ExpectWord(r, "nil").value, st);
    } else {
      ArgLenient(tgt, t.elem, r, st);
    }
  }

  lemma {:induction false} StructLenient(tgt: Target, t: Type, r: string, st: Tables)
    requires r != [] && ParseStruct(tgt, true, t, r, st).Ok?
    ensures ParseStruct(tgt, false, t, r, st) == ParseStruct(tgt, true, t, r, st)
    decreases |r|, 0
  {
    hide ParseFields, Expect, EatExcessive;
    FieldsLenient(tgt, Desc(tgt, t.key).fields, '}', Expect(r, '{').value, st);
  }

  lemma {:induction false} ArrayLenient(tgt: Target, t: Type, r: string, st: Tables)
    requires r != [] && ParseArray(tgt, true, t, r, st).Ok?
    ensures ParseArray(tgt, false, t, r, st) == ParseArray(tgt, true, t, r, st)
    decreases |r|, 0
  {
    hide ParseElems, Expect, EatExcessive;
    ElemsLenient(tgt, t.elem, Expect(r, '[').value, st);
  }

  lemma {:induction false} UnionLenient(tgt: Target, t: Type, r: string, st: Tables)
    requires r != [] && r[0] == '@' && ParseUnion(tgt, true, t, r, st).Ok?
    ensures ParseUnion(tgt, false, t, r, st) == ParseUnion(tgt, true, t, r, st)
    decreases |r|, 0
  {
    hide ParseArg, Expect, Ident, EatExcessive, FindField;
    var id := Ident(Expect(r, '@').value);
    var opt := FindField(Desc(tgt, t.key).fields, id.value.0);
    if id.value.1[0] == '=' {
      ArgLenient(tgt, opt.value, Expect(id.value.1, '=').value, st);
    }
  }

  lemma {:induction false} FieldsLenient(tgt: Target, types: seq<Type>, close: char, r: string, st: Tables)
    requires ParseFields(tgt, true, types, close, r, st).Ok?
    ensures ParseFields(tgt, false, types, close, r, st) == ParseFields(tgt, true, types, close, r, st)
    decreases |r|, 3, |types|
  {
    hide ParseArg, Expect, EatExcessive;
    if r[0] != close && types != [] {
      if IsPad(types[0]) {
        FieldsLenient(tgt, types[1..], close, r, st);
      } else {
        ArgLenient(tgt, types[0], r, st);
        var a := ParseArg(tgt, true, types[0], r, st);
        var r1 := if a.rest[0] == close then Some(a.rest) else Expect(a.rest, ',');
        FieldsLenient(tgt, types[1..], close, r1.value, a.st);
      }
    }
  }

  lemma {:induction false} ElemsLenient(tgt: Target, t: Type, r: string, st: Tables)
    requires ParseElems(tgt, true, t, r, st).Ok?
    ensures ParseElems(tgt, false, t, r, st) == ParseElems(tgt, true, t, r, st)
    decreases |r|, 3, 0
  {
    hide ParseArg, Expect;
    if r[0] != ']' {
      ArgLenient(tgt, t, r, st);
      var a := ParseArg(tgt, true, t, r, st);
      var r1 := if a.rest[0] == ']' then Some(a.rest) else Expect(a.rest, ',');
      ElemsLenient(tgt, t, r1.value, a.st);
    }
  }

  lemma CallLenient(tgt: Target, line: string, st: Tables)
    requires ParseCall(tgt, true, line, st).Some?
    ensures ParseCall(tgt, false, line, st) == ParseCall(tgt, true, line, st)
  {
    hide Ident, Expect, Lookup, ParseCallArgs;
    var id := Ident(line);
    var named := id.value.1[0] == '=';
    var id2 := if named then Ident(Expect(id.value.1, '=').value) else id;
    var meta := Lookup(tgt.syscalls, id2.value.0, 0);
    CallArgsLenient(tgt, meta.value, if named then Some(id.value.0) else None, id2.value.1, st);
  }

  lemma CallArgsLenient(tgt: Target, meta: nat, name: Option<string>, r: string, st: Tables)
    requires meta < |tgt.syscalls| && ParseCallArgs(tgt, true, meta, name, r, st).Some?
    ensures ParseCallArgs(tgt, false, meta, name, r, st) == ParseCallArgs(tgt, true, meta, name, r, st)
  {
    hide Expect, ParseFields;
    var sys := tgt.syscalls[meta];
    var st1 := if sys.ret.Some? then st.(next := st.next + 1) else st;
    FieldsLenient(tgt, sys.args, ')', Expect(r, '(').value, st1);
  }

  lemma {:induction false} LinesLenient(tgt: Target, lines: seq<string>, st: Tables)
    requires ParseLines(tgt, true, lines, st).Some?
    ensures ParseLines(tgt, false, lines, st) == ParseLines(tgt, true, lines, st)
    decreases lines
  {
    hide ParseCall;
    if lines != [] {
      if lines[0] == [] || lines[0][0] == '#' {
        LinesLenient(tgt, lines[1..], st);
      } else {
        CallLenient(tgt, lines[0], st);
        LinesLenient(tgt, lines[1..], ParseCall(tgt, true, lines[0], st).value.1);
      }
    }
  }

  /** A text that strict parsing accepts is read as the same program by lenient parsing. */
  lemma StrictIsLenient(tgt: Target, text: string)
    requires Deserialize(tgt, text, true).Some?
    ensures Deserialize(tgt, text, false) == Deserialize(tgt, text, true)
  {
    hide ParseLines, ScanLines, ValidateCalls;
    var lines := ScanLines(text);
    LinesLenient(tgt, lines.value, Tables(map[], 0, map[]));
  }
}
