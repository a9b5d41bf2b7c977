/** Facts about printed text: elided defaults are what the parser makes in their place, and every
    printed argument is one line of printable characters. */
module TextLemmas {
  import opened ProgTypes
  import opened Numbers
  import opened DataText
  import opened Validation
  import opened CanonicalForm
  import opened Printer
  import opened Parser

  /** Position k of ids is numbered n + k. */
  ghost predicate Numbered(order: seq<nat>, ids: seq<nat>, n: nat) {
    forall k :: 0 <= k < |ids| ==> Pos(order, ids[k]) == n + k
  }

  lemma NumberedConcat(order: seq<nat>, a: seq<nat>, b: seq<nat>, n: nat)
    requires Numbered(order, a + b, n)
    ensures Numbered(order, a, n) && Numbered(order, b, n + |a|)
  {
    assert forall k :: 0 <= k < |a| ==> (a + b)[k] == a[k];
    assert forall k :: 0 <= k < |b| ==> (a + b)[|a| + k] == b[k];
  }

  /** The parser knows every printed name under the number of the result it stands for. */
  ghost predicate Linked(used: set<nat>, order: seq<nat>, seen: set<nat>, vs: Vars, st: Tables) {
    && Injective(vs)
    && (forall d :: d in seen && d in used ==> Named(order, vs, st, d))
    && (forall u :: u in st.links ==> u < st.next)
  }

  /** Names are below the next number and no two results share one. */
  ghost predicate Injective(vs: Vars) {
    && (forall d :: d in vs.ids ==> vs.ids[d] < vs.next)
    && (forall d, e :: d in vs.ids && e in vs.ids && d != e ==> vs.ids[d] != vs.ids[e])
  }

  ghost predicate Named(order: seq<nat>, vs: Vars, st: Tables, d: nat) {
    d in vs.ids && VarName(vs.ids[d]) in st.vars && st.vars[VarName(vs.ids[d])] == Pos(order, d)
  }

  /** What may follow a printed argument. */
  predicate Ended(r: string) { r != [] && r[0] in {',', ')', '}', ']'} }

  // ---- concatenation ----

  lemma {:induction false} IdsConcat(a: seq<Arg>, b: seq<Arg>)
    ensures IdsSeq(a + b) == IdsSeq(a) + IdsSeq(b)
  {
    if a == [] {
      assert a + b == b;
    } else {
      assert (a + b)[1..] == a[1..] + b;
      IdsConcat(a[1..], b);
    }
  }

  lemma {:induction false} RenameConcat(order: seq<nat>, a: seq<Arg>, b: seq<Arg>)
    ensures RenameSeq(order, a + b) == RenameSeq(order, a) + RenameSeq(order, b)
  {
    if a == [] {
      assert a + b == b;
    } else {
      assert (a + b)[1..] == a[1..] + b;
      RenameConcat(order, a[1..], b);
    }
  }

  lemma {:induction false} ValidateConcat(tgt: Target, a: seq<Arg>, b: seq<Arg>, ta: seq<Type>, tb: seq<Type>,
                                          seen: set<nat>)
    requires |a| == |ta| && |b| == |tb|
    requires ValidateSeq(tgt, a + b, ta + tb, seen).Some?
    ensures ValidateSeq(tgt, a, ta, seen).Some?
    ensures ValidateSeq(tgt, b, tb, ValidateSeq(tgt, a, ta, seen).value) == ValidateSeq(tgt, a + b, ta + tb, seen)
  {
    if a == [] {
      assert a + b == b && ta + tb == tb;
    } else {
      assert (a + b)[1..] == a[1..] + b && (ta + tb)[1..] == ta[1..] + tb;
      ValidateConcat(tgt, a[1..], b, ta[1..], tb, ValidateArg(tgt, a[0], ta[0], seen).value);
    }
  }

  lemma {:induction false} CanonicalConcat(tgt: Target, a: seq<Arg>, b: seq<Arg>, ta: seq<Type>, tb: seq<Type>)
    requires |a| == |ta| && |b| == |tb|
    requires CanonicalSeq(tgt, a + b, ta + tb)
    ensures CanonicalSeq(tgt, a, ta) && CanonicalSeq(tgt, b, tb)
  {
    if a == [] {
      assert a + b == b && ta + tb == tb;
    } else {
      assert (a + b)[1..] == a[1..] + b && (ta + tb)[1..] == ta[1..] + tb;
      CanonicalConcat(tgt, a[1..], b, ta[1..], tb);
    }
  }

  // ---- elided defaults ----

  /** A default argument is what the parser makes in its place, and nothing in it is used. */
  lemma {:induction false} DefaultIs(tgt: Target, used: set<nat>, order: seq<nat>, a: Arg, t: Type, seen: set<nat>,
                                     n: nat)
    requires WellFormed(tgt) && WellFormedType(tgt, t)
    requires ValidateArg(tgt, a, t, seen).Some? && Canonical(tgt, a, t) && IsDefault(tgt, used, a)
    requires Numbered(order, Ids(a), n)
    ensures DefaultArg(tgt, t, n) == (Rename(order, a), n + |Ids(a)|)
    ensures forall id :: id in Ids(a) ==> id !in used
    ensures Refs(a) == {}
    decreases a, 2
  {
    match a
    case ConstArg(_, _) =>
    case ResultArg(_, id, _, _, _, _) =>
      assert Ids(a)[0] == id;
    case DataArg(typ, data, _) =>
      if typ.c.dir != DirOut {
        assert data == Zeros(if typ.c.varlen then 0 else typ.c.size);
      }
    case PointerArg(typ, _, _, res) =>
      if res.Some? {
        DefaultIs(tgt, used, order, res.value, typ.elem, seen, n);
      }
    case UnionArg(_, _) => DefaultUnionIs(tgt, used, order, a, t, seen, n);
    case GroupArg(_, _) => DefaultGroupIs(tgt, used, order, a, t, seen, n);
  }

  lemma {:induction false} DefaultUnionIs(tgt: Target, used: set<nat>, order: seq<nat>, a: Arg, t: Type, seen: set<nat>,
                                          n: nat)
    requires WellFormed(tgt) && WellFormedType(tgt, t) && a.UnionArg?
    requires ValidateArg(tgt, a, t, seen).Some? && Canonical(tgt, a, t) && IsDefault(tgt, used, a)
    requires Numbered(order, Ids(a), n)
    ensures DefaultArg(tgt, t, n) == (Rename(order, a), n + |Ids(a)|)
    ensures forall id :: id in Ids(a) ==> id !in used
    ensures Refs(a) == {}
    decreases a, 1
  {
    var key := t.key;
    var fields := tgt.structs[key].fields;
    assert WellFormedDesc(tgt, tgt.structs[key]) && Bounded(tgt, key, fields[0]);
    assert FindField(fields, FieldName(a.option.typ)) == Some(fields[0]);
    DefaultIs(tgt, used, order, a.option, fields[0], seen, n);
    DefaultFieldsAre(tgt, key, fields[..1], n);
    var first := fields[..1];
    var d := DefaultArg(tgt, fields[0], n);
    assert first[0] == fields[0] && first[1..] == [];
    assert DefaultArgs(tgt, first[1..], d.1) == ([], d.1);
    assert DefaultArgs(tgt, first, n).0[0] == d.0;
  }

  lemma {:induction false} DefaultGroupIs(tgt: Target, used: set<nat>, order: seq<nat>, a: Arg, t: Type, seen: set<nat>,
                                          n: nat)
    requires WellFormed(tgt) && WellFormedType(tgt, t) && a.GroupArg?
    requires ValidateArg(tgt, a, t, seen).Some? && Canonical(tgt, a, t) && IsDefault(tgt, used, a)
    requires Numbered(order, Ids(a), n)
    ensures DefaultArg(tgt, t, n) == (Rename(order, a), n + |Ids(a)|)
    ensures forall id :: id in Ids(a) ==> id !in used
    ensures Refs(a) == {}
    decreases a, 1
  {
    if t.StructT? {
      var fields := tgt.structs[t.key].fields;
      assert WellFormedDesc(tgt, tgt.structs[t.key]);
      DefaultSeqIs(tgt, used, order, a.inner, fields, seen, n);
      DefaultFieldsAre(tgt, t.key, fields, n);
    } else {
      DefaultSeqIs(tgt, used, order, a.inner, Repeat(t.elem, |a.inner|), seen, n);
      DefaultCopiesAre(tgt, t.elem, |a.inner|, n);
    }
  }

  lemma {:induction false} DefaultSeqIs(tgt: Target, used: set<nat>, order: seq<nat>, args: seq<Arg>, types: seq<Type>,
                                        seen: set<nat>, n: nat)
    requires WellFormed(tgt) && |args| == |types|
    requires forall i :: 0 <= i < |types| ==> WellFormedType(tgt, types[i])
    requires ValidateSeq(tgt, args, types, seen).Some? && CanonicalSeq(tgt, args, types) && AllDefault(tgt, used, args)
    requires Numbered(order, IdsSeq(args), n)
    ensures DefaultArgs(tgt, types, n) == (RenameSeq(order, args), n + |IdsSeq(args)|)
    ensures forall id :: id in IdsSeq(args) ==> id !in used
    ensures RefsSeq(args) == {}
    decreases args, 0
  {
    if args != [] {
      NumberedConcat(order, Ids(args[0]), IdsSeq(args[1..]), n);
      DefaultIs(tgt, used, order, args[0], types[0], seen, n);
      DefaultSeqIs(tgt, used, order, args[1..], types[1..], ValidateArg(tgt, args[0], types[0], seen).value,
                   n + |Ids(args[0])|);
    }
  }

  lemma {:induction false} DefaultFieldsAre(tgt: Target, key: StructKey, fields: seq<Type>, n: nat)
    requires forall i :: 0 <= i < |fields| ==> Bounded(tgt, key, fields[i])
    ensures DefaultFields(tgt, key, fields, n) == DefaultArgs(tgt, fields, n)
  {
    if fields != [] {
      DefaultFieldsAre(tgt, key, fields[1..], DefaultArg(tgt, fields[0], n).1);
    }
  }

  lemma {:induction false} DefaultCopiesAre(tgt: Target, elem: Type, k: nat, n: nat)
    ensures DefaultCopies(tgt, elem, k, n) == DefaultArgs(tgt, Repeat(elem, k), n)
    decreases k
  {
    if k > 0 {
      assert Repeat(elem, k)[1..] == Repeat(elem, k - 1);
      DefaultCopiesAre(tgt, elem, k - 1, DefaultArg(tgt, elem, n).1);
    }
  }

  /** The arguments behind the cut are all defaults. */
  lemma {:induction false} CutIs(tgt: Target, used: set<nat>, args: seq<Arg>)
    ensures AllDefault(tgt, used, args[Cut(tgt, used, args)..])
    ensures Cut(tgt, used, args) > 0 ==> !IsDefault(tgt, used, args[Cut(tgt, used, args) - 1])
    decreases |args|
  {
    var n := Cut(tgt, used, args);
    if args != [] && IsDefault(tgt, used, args[|args| - 1]) {
      var front := args[..|args| - 1];
      CutIs(tgt, used, front);
      AllDefaultAppend(tgt, used, front[n..], args[|args| - 1]);
      assert front[n..] + [args[|args| - 1]] == args[n..];
    } else {
      assert args[n..] == [];
    }
  }

  lemma {:induction false} AllDefaultAppend(tgt: Target, used: set<nat>, args: seq<Arg>, a: Arg)
    requires AllDefault(tgt, used, args) && IsDefault(tgt, used, a)
    ensures AllDefault(tgt, used, args + [a])
  {
    if args != [] {
      assert (args + [a])[1..] == args[1..] + [a];
      AllDefaultAppend(tgt, used, args[1..], a);
    } else {
      assert args + [a] == [a];
      assert [a][1..] == [];
    }
  }

  // ---- printed text ----

  ghost predicate Printable(s: string) { forall i :: 0 <= i < |s| ==> IsPrintable(s[i]) }

  predicate Opener(c: char) { c in {'0', '&', '\"', '\'', '{', '[', '@', '<', 'r'} }

  lemma IdentIsPrintable(s: string)
    requires IsIdent(s)
    ensures Printable(s)
  {
  }

  lemma HexIsPrintable(v: nat)
    ensures Printable(Hex(v)) && Hex(v)[0] == '0' && IsIdent(Hex(v))
    ensures Printable(Dec(v)) && IsIdent(Dec(v)) && IsIdent(VarName(v)) && Printable(VarName(v))
  {
    ValueOfDigits(v, 16);
    ValueOfDigits(v, 10);
  }

  lemma PrintDataPrintable(a: Arg)
    requires a.DataArg? && ValidData(a)
    ensures Printable(PrintData(a)) && PrintData(a) != [] && Opener(PrintData(a)[0])
  {
    HexIsPrintable(DataSize(a));
    HexIsPrintable(|a.data|);
    var d := PrintedData(a.data, a.typ.c.varlen);
    StripIs(a.data);
    DataLiteralPrintable(d, IsReadableType(a.typ));
  }

  lemma {:induction false} StripIs(data: seq<char>)
    ensures StripZeros(data) == data[..|StripZeros(data)|]
    ensures forall i :: |StripZeros(data)| <= i < |data| ==> data[i] == ZERO_BYTE
    decreases |data|
  {
    if |data| >= 2 && data[|data| - 1] == ZERO_BYTE && data[|data| - 2] == ZERO_BYTE {
      StripIs(data[..|data| - 1]);
      assert data[..|data| - 1][..|StripZeros(data)|] == data[..|StripZeros(data)|];
    }
  }

  lemma PrintResultPrintable(a: Arg, vs: Vars)
    requires a.ResultArg?
    ensures Printable(PrintResult(a, vs)) && PrintResult(a, vs) != [] && Opener(PrintResult(a, vs)[0])
  {
    HexIsPrintable(a.val);
    HexIsPrintable(a.opDiv);
    HexIsPrintable(a.opAdd);
    HexIsPrintable(if a.ref.Some? && a.ref.value in vs.ids then vs.ids[a.ref.value] else 0);
  }

  ghost predicate GoodText(s: string) { Printable(s) && s != [] && Opener(s[0]) }

  lemma GoodTextAppend(s: string, t: string)
    requires GoodText(s) && Printable(t)
    ensures GoodText(s + t)
  {
  }

  /** The text of an argument is one line of printable characters that opens no ambiguity. */
  lemma {:induction false} PrintArgPrintable(tgt: Target, used: set<nat>, a: Arg, t: Type, seen: set<nat>, vs: Vars)
    requires WellFormed(tgt) && WellFormedType(tgt, t)
    requires ValidateArg(tgt, a, t, seen).Some?
    ensures GoodText(PrintArg(tgt, used, a, vs).0)
    decreases a, 2
  {
    match a
    case ConstArg(_, val) => HexIsPrintable(val);
    case DataArg(_, _, _) => PrintDataPrintable(a);
    case ResultArg(_, _, _, _, _, _) =>
      HexIsPrintable(vs.next);
      PrintResultPrintable(a, if a.id in used then Alloc(vs, a.id) else vs);
    case PointerArg(_, _, _, _) => PrintPointerPrintable(tgt, used, a, t, seen, vs);
    case UnionArg(_, _) => PrintUnionPrintable(tgt, used, a, t, seen, vs);
    case GroupArg(_, _) => PrintGroupPrintable(tgt, used, a, t, seen, vs);
  }

  lemma {:induction false} PrintPointerPrintable(tgt: Target, used: set<nat>, a: Arg, t: Type, seen: set<nat>, vs: Vars)
    requires WellFormed(tgt) && WellFormedType(tgt, t) && a.PointerArg?
    requires ValidateArg(tgt, a, t, seen).Some?
    ensures GoodText(PrintArg(tgt, used, a, vs).0)
    decreases a, 1
  {
    HexIsPrintable(a.address);
    PrintAddrPrintable(a);
    var head := "&" + PrintAddr(a) + "=" + (if IsAnyPtr(a.typ) then "ANY=" else "");
    assert GoodText(head) && GoodText("&" + PrintAddr(a)) && GoodText(head + "nil");
    if a.res.Some? {
      PointeeWellFormed(tgt, a, t, seen);
      PrintArgPrintable(tgt, used, a.res.value, a.typ.elem, seen, vs);
      GoodTextAppend(head, PrintArg(tgt, used, a.res.value, vs).0);
    }
  }

  lemma {:induction false} PrintUnionPrintable(tgt: Target, used: set<nat>, a: Arg, t: Type, seen: set<nat>, vs: Vars)
    requires WellFormed(tgt) && WellFormedType(tgt, t) && a.UnionArg?
    requires ValidateArg(tgt, a, t, seen).Some?
    ensures GoodText(PrintArg(tgt, used, a, vs).0)
    decreases a, 1
  {
    var opt := OptionWellFormed(tgt, a, t, seen);
    hide WellFormed, WellFormedType, ValidateArg, GoodText, IsDefault;
    var name := FieldName(a.option.typ);
    NameText(name);
    PrintArgPrintable(tgt, used, a.option, opt, seen, vs);
    GoodTextAppend("@" + name + "=", PrintArg(tgt, used, a.option, vs).0);
  }

  lemma {:induction false} PrintGroupPrintable(tgt: Target, used: set<nat>, a: Arg, t: Type, seen: set<nat>, vs: Vars)
    requires WellFormed(tgt) && WellFormedType(tgt, t) && a.GroupArg?
    requires ValidateArg(tgt, a, t, seen).Some?
    ensures GoodText(PrintArg(tgt, used, a, vs).0)
    decreases a, 1
  {
    MembersWellFormed(tgt, a, t, seen);
    var n := ShownIs(tgt, used, a);
    SplitSeq(tgt, a.inner, MemberTypes(tgt, a), n, seen);
    PrintInnerPrintable(tgt, used, Shown(tgt, used, a), MemberTypes(tgt, a)[..n], seen, vs);
  }

  lemma NameText(name: string)
    requires IsIdent(name)
    ensures GoodText("@" + name) && GoodText("@" + name + "=")
  {
    IdentIsPrintable(name);
  }

  lemma OptionWellFormed(tgt: Target, a: Arg, t: Type, seen: set<nat>) returns (opt: Type)
    requires WellFormed(tgt) && WellFormedType(tgt, t) && a.UnionArg?
    requires ValidateArg(tgt, a, t, seen).Some?
    ensures a.typ == t && t.UnionT? && t.key in tgt.structs
    ensures FindField(tgt.structs[t.key].fields, FieldName(a.option.typ)) == Some(opt)
    ensures WellFormedType(tgt, opt) && !IsPad(opt) && IsIdent(FieldName(a.option.typ))
      && FieldName(opt) == FieldName(a.option.typ)
    ensures ValidateArg(tgt, a.option, opt, seen) == ValidateArg(tgt, a, t, seen)
  {
    opt := FindField(Desc(tgt, a.typ.key).fields, FieldName(a.option.typ)).value;
    assert WellFormedDesc(tgt, tgt.structs[a.typ.key]);
  }

  lemma PrintAddrPrintable(a: Arg)
    requires a.PointerArg?
    ensures Printable(PrintAddr(a))
  {
    HexIsPrintable(a.vmaSize);
    HexIsPrintable(Wrap64(ADDR_BASE + a.address));
  }

  lemma PointeeWellFormed(tgt: Target, a: Arg, t: Type, seen: set<nat>)
    requires WellFormed(tgt) && WellFormedType(tgt, t) && a.PointerArg? && a.res.Some?
    requires ValidateArg(tgt, a, t, seen).Some?
    ensures a.typ.PtrT? && WellFormedType(tgt, a.typ.elem) && !IsPad(a.typ.elem)
  {
    if IsAnyPtr(a.typ) {
      assert WellFormedType(tgt, ANY_ARRAY);
    }
  }

  /** Declared types of the members of a group. */
  function MemberTypes(tgt: Target, a: Arg): (types: seq<Type>)
    requires a.GroupArg? && (a.typ.StructT? || a.typ.ArrayT?)
  {
    if a.typ.StructT? then Desc(tgt, a.typ.key).fields else Repeat(a.typ.elem, |a.inner|)
  }

  lemma MembersWellFormed(tgt: Target, a: Arg, t: Type, seen: set<nat>)
    requires WellFormed(tgt) && WellFormedType(tgt, t) && a.GroupArg?
    requires ValidateArg(tgt, a, t, seen).Some?
    ensures a.typ == t && (t.StructT? || t.ArrayT?) && |a.inner| == |MemberTypes(tgt, a)|
    ensures ValidateSeq(tgt, a.inner, MemberTypes(tgt, a), seen) == ValidateArg(tgt, a, t, seen)
    ensures forall i :: 0 <= i < |MemberTypes(tgt, a)| ==> WellFormedType(tgt, MemberTypes(tgt, a)[i])
    ensures MemberTypes(tgt, a) != [] ==> !IsPad(MemberTypes(tgt, a)[0])
    ensures t.ArrayT? ==> forall i :: 0 <= i < |MemberTypes(tgt, a)| ==> !IsPad(MemberTypes(tgt, a)[i])
  {
    if a.typ.StructT? {
      assert WellFormedDesc(tgt, tgt.structs[a.typ.key]);
    }
  }

  /** The shown members are a prefix; what follows it is default. */
  lemma ShownIs(tgt: Target, used: set<nat>, a: Arg) returns (n: nat)
    requires a.GroupArg?
    ensures n <= |a.inner| && Shown(tgt, used, a) == a.inner[..n]
    ensures AllDefault(tgt, used, a.inner[n..])
    ensures n > 0 && FixedInner(a.typ) ==> !IsDefault(tgt, used, a.inner[n - 1])
    ensures !FixedInner(a.typ) ==> n == |a.inner|
  {
    CutIs(tgt, used, a.inner);
    n := if FixedInner(a.typ) then Cut(tgt, used, a.inner) else |a.inner|;
    assert a.inner[..|a.inner|] == a.inner && a.inner[|a.inner|..] == [];
  }

  lemma SplitSeq(tgt: Target, args: seq<Arg>, types: seq<Type>, n: nat, seen: set<nat>)
    requires |args| == |types| && n <= |args| && ValidateSeq(tgt, args, types, seen).Some?
    ensures ValidateSeq(tgt, args[..n], types[..n], seen).Some?
    ensures ValidateSeq(tgt, args[n..], types[n..], ValidateSeq(tgt, args[..n], types[..n], seen).value)
            == ValidateSeq(tgt, args, types, seen)
  {
    assert args[..n] + args[n..] == args && types[..n] + types[n..] == types;
    ValidateConcat(tgt, args[..n], args[n..], types[..n], types[n..], seen);
  }

  lemma {:induction false} PrintInnerPrintable(tgt: Target, used: set<nat>, args: seq<Arg>, types: seq<Type>,
                                               seen: set<nat>, vs: Vars)
    requires WellFormed(tgt) && |args| == |types|
    requires forall i :: 0 <= i < |types| ==> WellFormedType(tgt, types[i])
    requires ValidateSeq(tgt, args, types, seen).Some?
    ensures Printable(PrintInner(tgt, used, args, vs).0) && Printable(PrintTail(tgt, used, args, vs).0)
    decreases args, 0
  {
    if args != [] {
      var s := ValidateArg(tgt, args[0], types[0], seen).value;
      PrintArgPrintable(tgt, used, args[0], types[0], seen, vs);
      PrintInnerPrintable(tgt, used, args[1..], types[1..], s, vs);
      PrintInnerPrintable(tgt, used, args[1..], types[1..], s, PrintArg(tgt, used, args[0], vs).1);
    }
  }
}
