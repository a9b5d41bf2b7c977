/** From programs to bytes and back: a valid program whose references point to earlier calls compiles,
    and the decoder recovers exactly the compiled calls, if and only if the last result that the
    program uses is used by an argument that is really passed. */
module ExecDecode {
  import opened ProgTypes
  import opened Validation
  import opened ExecFormat
  import opened ExecRoundTrip
  import opened ExecCompile
  import opened ExecIndices
  import opened CanonicalForm

  // ---- valid programs compile ----

  /** In-direction data does not carry the size of an output buffer. */
  predicate NoStraySize(a: Arg)
    decreases a, 0
  {
    match a
    case DataArg(typ, data, outSize) => typ.BufferT? && typ.c.dir != DirOut && data == [] ==> outSize == 0
    case GroupArg(_, inner) => NoStraySizes(inner)
    case UnionArg(_, option) => NoStraySize(option)
    case PointerArg(_, _, _, res) => res.Some? ==> NoStraySize(res.value)
    case _ => true
  }

  predicate NoStraySizes(args: seq<Arg>)
    decreases args
  {
    args == [] || (NoStraySize(args[0]) && NoStraySizes(args[1..]))
  }

  /** An argument that is passed in a register. */
  predicate Scalar(a: Arg) {
    if a.UnionArg? then Scalar(a.option) else a.ConstArg? || a.ResultArg? || a.PointerArg?
  }

  /** References point to results of earlier calls. */
  predicate EarlierRefs(calls: seq<Call>, before: set<nat>) {
    calls == [] || (
      && RefsSeq(calls[0].args) <= before
      && EarlierRefs(calls[1..], before + (set id | id in IdsCall(calls[0]))))
  }

  ghost predicate Passable(p: Prog) {
    && EarlierRefs(p.calls, {}) && |IdsCalls(p.calls)| < NO_COPYOUT
    && forall i :: 0 <= i < |p.calls| ==> NoStraySizes(p.calls[i].args) && forall j :: 0 <= j < |p.calls[i].args| ==>
      Scalar(p.calls[i].args[j])
  }

  function ResultIds(vs: seq<Visit>): seq<nat> {
    if vs == [] then [] else (if vs[0].arg.ResultArg? then [vs[0].arg.id] else []) + ResultIds(vs[1..])
  }

  lemma {:induction false} ResultIdsSplit(a: seq<Visit>, b: seq<Visit>)
    ensures ResultIds(a + b) == ResultIds(a) + ResultIds(b) && VisitRefs(a + b) == VisitRefs(a) + VisitRefs(b)
  {
    if a == [] {
      assert a + b == b && ResultIds(a) == [];
    } else {
      ResultIdsSplit(a[1..], b);
      assert (a + b)[0] == a[0] && (a + b)[1..] == a[1..] + b;
      var head := if a[0].arg.ResultArg? then [a[0].arg.id] else [];
      IdsAssoc(head, ResultIds(a[1..]), ResultIds(b));
    }
    assert VisitRefs(a + b) == VisitRefs(a) + VisitRefs(b);
  }

  lemma IdsAssoc(a: seq<nat>, b: seq<nat>, c: seq<nat>)
    ensures a + (b + c) == a + b + c
  {
  }

  /** The visit meets the results of a tree in their order, and all its references. */
  lemma {:induction false} VisitsMeet(tgt: Target, a: Arg, base: Option<u64>, off: nat)
    ensures ResultIds(Visits(tgt, a, base, off)) == Ids(a) && VisitRefs(Visits(tgt, a, base, off)) == Refs(a)
    decreases a, 0
  {
    hide Size, PhysicalAddr, Place;
    var head := [Visit(a, Place(base, off))];
    assert ResultIds(head) == if a.ResultArg? then [a.id] else [];
    assert VisitRefs(head) == if a.ResultArg? && a.ref.Some? then {a.ref.value} else {} by {
      assert head[0].arg == a;
    }
    match a
    case GroupArg(_, inner) =>
      VisitsSeqMeet(tgt, inner, base, off);
      ResultIdsSplit(head, VisitsSeq(tgt, inner, base, off));
    case UnionArg(_, option) =>
      VisitsMeet(tgt, option, base, off);
      ResultIdsSplit(head, Visits(tgt, option, base, off));
    case PointerArg(_, _, _, res) =>
      if res.Some? {
        VisitsMeet(tgt, res.value, Some(PhysicalAddr(tgt, a)), 0);
        ResultIdsSplit(head, Visits(tgt, res.value, Some(PhysicalAddr(tgt, a)), 0));
      } else {
        assert Visits(tgt, a, base, off) == head;
      }
    case _ => assert Visits(tgt, a, base, off) == head;
  }

  lemma {:induction false} VisitsSeqMeet(tgt: Target, args: seq<Arg>, base: Option<u64>, off: nat)
    ensures ResultIds(VisitsSeq(tgt, args, base, off)) == IdsSeq(args)
      && VisitRefs(VisitsSeq(tgt, args, base, off)) == RefsSeq(args)
    decreases args
  {
    if args != [] {
      var off1 := Advance(tgt, args[0], off);
      VisitsMeet(tgt, args[0], base, off);
      VisitsSeqMeet(tgt, args[1..], base, off1);
      ResultIdsSplit(Visits(tgt, args[0], base, off), VisitsSeq(tgt, args[1..], base, off1));
    }
  }

  lemma CallMeets(tgt: Target, c: Call)
    requires c.ret.Some? ==> c.ret.value.ResultArg? && Refs(c.ret.value) == {}
    ensures ResultIds(CallVisits(tgt, c)) == IdsCall(c) && VisitRefs(CallVisits(tgt, c)) == RefsSeq(c.args)
  {
    VisitsSeqMeet(tgt, c.args, None, 0);
    if c.ret.Some? {
      VisitsMeet(tgt, c.ret.value, None, 0);
      ResultIdsSplit(Visits(tgt, c.ret.value, None, 0), VisitsSeq(tgt, c.args, None, 0));
    } else {
      ResultIdsSplit([], VisitsSeq(tgt, c.args, None, 0));
    }
  }

  lemma {:induction false} DefinersAre(used: set<nat>, vs: seq<Visit>)
    ensures |Definers(used, vs)| <= |ResultIds(vs)|
    ensures forall id :: id in Definers(used, vs) <==> id in ResultIds(vs) && id in used
    ensures Distinct(ResultIds(vs)) ==> Distinct(Definers(used, vs))
  {
    if vs != [] {
      DefinersAre(used, vs[1..]);
      var head := if vs[0].arg.ResultArg? then [vs[0].arg.id] else [];
      if Distinct(ResultIds(vs)) {
        DistinctSplit(head, ResultIds(vs[1..]));
        var kept := if Used(used, vs[0].arg) then head else [];
        assert forall x :: x in Definers(used, vs[1..]) ==> x in ToSet(ResultIds(vs[1..]));
        assert forall x :: x in kept ==> x in ToSet(head);
        DistinctConcat(kept, Definers(used, vs[1..]));
      }
    }
  }

  lemma {:induction false} ValidWritable(tgt: Target, a: Arg, t: Type, seen: set<nat>, base: Option<u64>, off: nat)
    requires ValidateArg(tgt, a, t, seen).Some? && NoStraySize(a)
    ensures WritableVisits(tgt, Visits(tgt, a, base, off))
    decreases a, 1
  {
    var vs := Visits(tgt, a, base, off);
    match a
    case GroupArg(typ, inner) =>
      ValidWritableSeq(tgt, inner, if typ.StructT? then Desc(tgt, typ.key).fields else Repeat(typ.elem, |inner|), seen,
                       base, off);
      WritableSplit(tgt, vs[..1], VisitsSeq(tgt, inner, base, off));
      assert vs == vs[..1] + VisitsSeq(tgt, inner, base, off);
    case UnionArg(typ, option) =>
      ValidWritable(tgt, option, FindField(Desc(tgt, typ.key).fields, FieldName(option.typ)).value, seen, base, off);
      WritableSplit(tgt, vs[..1], Visits(tgt, option, base, off));
      assert vs == vs[..1] + Visits(tgt, option, base, off);
    case PointerArg(typ, _, _, res) =>
      if res.Some? {
        ValidWritable(tgt, res.value, typ.elem, seen, Some(PhysicalAddr(tgt, a)), 0);
        WritableSplit(tgt, vs[..1], Visits(tgt, res.value, Some(PhysicalAddr(tgt, a)), 0));
        assert vs == vs[..1] + Visits(tgt, res.value, Some(PhysicalAddr(tgt, a)), 0);
      }
    case _ =>
  }

  lemma WritableSplit(tgt: Target, a: seq<Visit>, b: seq<Visit>)
    requires WritableVisits(tgt, a) && WritableVisits(tgt, b)
    ensures WritableVisits(tgt, a + b)
  {
  }

  lemma {:induction false} ValidWritableSeq(tgt: Target, args: seq<Arg>, types: seq<Type>, seen: set<nat>,
                                            base: Option<u64>, off: nat)
    requires |args| == |types| && ValidateSeq(tgt, args, types, seen).Some? && NoStraySizes(args)
    ensures WritableVisits(tgt, VisitsSeq(tgt, args, base, off))
    decreases args, 0
  {
    if args != [] {
      ValidWritable(tgt, args[0], types[0], seen, base, off);
      var off1 := Advance(tgt, args[0], off);
      ValidWritableSeq(tgt, args[1..], types[1..], ValidateArg(tgt, args[0], types[0], seen).value, base, off1);
      WritableSplit(tgt, Visits(tgt, args[0], base, off), VisitsSeq(tgt, args[1..], base, off1));
    }
  }

  lemma {:induction false} ScalarWritable(tgt: Target, a: Arg, t: Type, seen: set<nat>)
    requires ValidateArg(tgt, a, t, seen).Some? && Scalar(a)
    ensures Writable(a)
    decreases a
  {
    if a.UnionArg? {
      ScalarWritable(tgt, a.option, FindField(Desc(tgt, a.typ.key).fields, FieldName(a.option.typ)).value, seen);
    }
  }

  lemma {:induction false} ScalarsWritable(tgt: Target, args: seq<Arg>, types: seq<Type>, seen: set<nat>)
    requires |args| == |types| && ValidateSeq(tgt, args, types, seen).Some? && forall i :: 0 <= i < |args| ==>
      Scalar(args[i])
    ensures forall i :: 0 <= i < |args| ==> Writable(args[i])
    decreases args
  {
    if args != [] {
      ScalarWritable(tgt, args[0], types[0], seen);
      ScalarsWritable(tgt, args[1..], types[1..], ValidateArg(tgt, args[0], types[0], seen).value);
    }
  }

  lemma ValidCallWritable(tgt: Target, c: Call, seen: set<nat>)
    requires ValidateCall(tgt, c, seen).Some? && NoStraySizes(c.args) && forall i :: 0 <= i < |c.args| ==>
      Scalar(c.args[i])
    ensures WritableCall(tgt, c)
  {
    var types := tgt.syscalls[c.meta].args;
    ValidWritableSeq(tgt, c.args, types, seen, None, 0);
    ScalarsWritable(tgt, c.args, types, seen);
    if c.ret.Some? {
      WritableSplit(tgt, Visits(tgt, c.ret.value, None, 0), VisitsSeq(tgt, c.args, None, 0));
    } else {
      WritableSplit(tgt, [], VisitsSeq(tgt, c.args, None, 0));
    }
  }

  lemma {:induction false} ValidRefersBack(tgt: Target, used: set<nat>, calls: seq<Call>, seen: set<nat>)
    requires ValidateCalls(tgt, calls, seen).Some? && EarlierRefs(calls, seen) && RefsCalls(calls) <= used
    requires forall i :: 0 <= i < |calls| ==> NoStraySizes(calls[i].args) && forall j :: 0 <= j < |calls[i].args| ==>
      Scalar(calls[i].args[j])
    ensures RefersBack(tgt, used, calls, seen * used)
    ensures Distinct(AllDefiners(tgt, used, calls)) && |AllDefiners(tgt, used, calls)| <= |IdsCalls(calls)|
    ensures forall id :: id in AllDefiners(tgt, used, calls) ==> id in IdsCalls(calls)
    decreases calls
  {
    if calls != [] {
      var c, ids := calls[0], IdsCall(calls[0]);
      ValidateCallAdds(tgt, c, seen);
      ValidateCallsAdds(tgt, calls, seen);
      var s := ValidateCall(tgt, c, seen).value;
      ValidCallWritable(tgt, c, seen);
      CallMeets(tgt, c);
      DefinersAre(used, CallVisits(tgt, c));
      assert s == seen + set id | id in ids;
      ValidRefersBack(tgt, used, calls[1..], s);
      var ds := Definers(used, CallVisits(tgt, c));
      assert s * used == seen * used + ToSet(ds);
      DistinctSplit(ids, IdsCalls(calls[1..]));
      assert forall x :: x in ds ==> x in ToSet(ids);
      assert forall x :: x in AllDefiners(tgt, used, calls[1..]) ==> x in ToSet(IdsCalls(calls[1..]));
      DistinctConcat(ds, AllDefiners(tgt, used, calls[1..]));
    }
  }

  /** Valid programs with references to earlier calls compile, with every reference resolved. */
  lemma ValidCompiles(tgt: Target, p: Prog)
    requires Valid(tgt, p) && Passable(p)
    ensures Compilable(tgt, RefsCalls(p.calls), p.calls)
  {
    ValidRefersBack(tgt, RefsCalls(p.calls), p.calls, {});
    assert {} * RefsCalls(p.calls) == {};
  }

  // ---- the decoder's count of variables ----

  /** The indices that the arguments of a call refer to. */
  ghost function ArgIndices(args: seq<ExecArg>): set<u64> {
    set a | a in args && a.Result? :: a.index
  }

  ghost function CopyinIndices(cs: seq<Copyin>): set<u64> {
    set c | c in cs && c.arg.Result? :: c.arg.index
  }

  ghost function Referenced(cs: seq<ExecCall>): set<u64> {
    if cs == [] then {} else CopyinIndices(cs[0].copyin) + ArgIndices(cs[0].args) + Referenced(cs[1..])
  }

  /** n is one more than the largest element of s. */
  ghost predicate Top(n: nat, s: set<u64>) {
    (forall i :: i in s ==> i < n) && (n == 0 || n - 1 in s)
  }

  lemma TopArg(vars: seq<u64>, a: ExecArg, s: set<u64>)
    requires Top(|vars|, s)
    ensures Top(|ArgVars(vars, a)|, s + if a.Result? then {a.index} else {})
  {
  }

  lemma {:induction false} TopArgs(vars: seq<u64>, args: seq<ExecArg>, s: set<u64>)
    requires Top(|vars|, s)
    ensures Top(|ArgsVars(vars, args)|, s + ArgIndices(args))
    decreases args
  {
    hide ArgVars, Top;
    if args == [] {
      assert s + ArgIndices(args) == s;
    } else {
      var a := args[0];
      var s1 := s + if a.Result? then {a.index} else {};
      TopArg(vars, a, s);
      TopArgs(ArgVars(vars, a), args[1..], s1);
      assert ArgIndices(args) == (if a.Result? then {a.index} else {}) + ArgIndices(args[1..]);
      assert s1 + ArgIndices(args[1..]) == s + ArgIndices(args);
    }
  }

  lemma {:induction false} TopCopyins(vars: seq<u64>, cs: seq<Copyin>, s: set<u64>)
    requires Top(|vars|, s)
    ensures Top(|CopyinVars(vars, cs)|, s + CopyinIndices(cs))
    decreases cs
  {
    hide ArgVars, Top;
    if cs == [] {
      assert s + CopyinIndices(cs) == s;
    } else {
      var a := cs[0].arg;
      var s1 := s + if a.Result? then {a.index} else {};
      TopArg(vars, a, s);
      TopCopyins(ArgVars(vars, a), cs[1..], s1);
      assert CopyinIndices(cs) == (if a.Result? then {a.index} else {}) + CopyinIndices(cs[1..]);
      assert s1 + CopyinIndices(cs[1..]) == s + CopyinIndices(cs);
    }
  }

  /** The decoder makes as many variables as the largest referenced index needs. */
  lemma {:induction false} TopVars(vars: seq<u64>, cs: seq<ExecCall>, s: set<u64>)
    requires Top(|vars|, s)
    ensures Top(|ProgVars(vars, cs)|, s + Referenced(cs))
    decreases cs
  {
    hide Top, CopyinIndices, ArgIndices, CopyinVars, ArgsVars;
    if cs == [] {
      assert s + Referenced(cs) == s;
    } else {
      var c := cs[0];
      TopCopyins(vars, c.copyin, s);
      TopArgs(CopyinVars(vars, c.copyin), c.args, s + CopyinIndices(c.copyin));
      var s1 := s + CopyinIndices(c.copyin) + ArgIndices(c.args);
      TopVars(CallArgVars(vars, c), cs[1..], s1);
      assert s1 + Referenced(cs[1..]) == s + Referenced(cs);
    }
  }

  ghost function Set(s: seq<u64>): set<u64> { set x | x in s }

  lemma {:induction false} TopCopyouts(n: u64, cs: seq<Copyout>, s: set<u64>)
    requires Top(n, s) && forall x :: x in Set(CopyoutIndices(cs)) ==> x < NO_COPYOUT
    ensures Top(CopyoutVars(n, cs), s + Set(CopyoutIndices(cs)))
    decreases cs
  {
    if cs == [] {
      assert s + Set(CopyoutIndices(cs)) == s;
    } else {
      var i: nat := cs[0].index;
      assert CopyoutIndices(cs) == [i] + CopyoutIndices(cs[1..]);
      assert Set(CopyoutIndices(cs)) == {i} + Set(CopyoutIndices(cs[1..]));
      var s1 := s + {i};
      assert Top(Max(n, Wrap64(i + 1)), s1);
      TopCopyouts(Max(n, Wrap64(i + 1)), cs[1..], s1);
      assert s1 + Set(CopyoutIndices(cs[1..])) == s + Set(CopyoutIndices(cs));
    }
  }

  /** The decoder counts as many variables as the largest assigned index needs. */
  lemma {:induction false} TopAssigned(n: u64, cs: seq<ExecCall>, s: set<u64>)
    requires Top(n, s) && forall x :: x in Set(Assigned(cs)) ==> x < NO_COPYOUT
    ensures Top(ProgNumVars(n, cs), s + Set(Assigned(cs)))
    decreases cs
  {
    hide CopyoutVars, CopyoutIndices;
    if cs == [] {
      assert s + Set(Assigned(cs)) == s;
    } else {
      var c := cs[0];
      var own := if c.index != NO_COPYOUT then [c.index] else [];
      var outs, rest := CopyoutIndices(c.copyout), Assigned(cs[1..]);
      assert Assigned(cs) == own + outs + rest;
      assert Set(own + outs + rest) == Set(own) + Set(outs) + Set(rest);
      var n1 := if c.index != NO_COPYOUT then Max(n, c.index + 1) else n;
      assert Top(n1, s + Set(own)) by {
        assert c.index != NO_COPYOUT ==> own[0] == c.index;
      }
      TopCopyouts(n1, c.copyout, s + Set(own));
      TopAssigned(CallVars(n, c), cs[1..], s + Set(own) + Set(outs));
      assert s + Set(own) + Set(outs) + Set(rest) == s + Set(Assigned(cs));
    }
  }

  // ---- which results are passed ----

  /** The results that written arguments of a call refer to. */
  ghost function PassedRefs(tgt: Target, c: Call): set<nat> {
    (set v | v in CallVisits(tgt, c) && EmitsCopyin(tgt, v) && RefOf(v.arg).Some? :: RefOf(v.arg).value)
    + (set a | a in c.args && RefOf(a).Some? :: RefOf(a).value)
  }

  ghost function AllPassed(tgt: Target, cs: seq<Call>): set<nat> {
    if cs == [] then {} else PassedRefs(tgt, cs[0]) + AllPassed(tgt, cs[1..])
  }

  ghost function NumbersOf(ix: Numbering, refs: set<nat>): set<u64> {
    set r | r in refs :: NumberOf(ix, Some(r))
  }

  lemma {:induction false} ArgIsReference(tgt: Target, i: u64, a: Arg)
    requires Writable(a)
    ensures var e := ArgOf(tgt, i, a); e.Result? <==> RefOf(a).Some?
    ensures var e := ArgOf(tgt, i, a); e.Result? ==> e.index == i
  {
    if a.UnionArg? {
      ArgIsReference(tgt, i, a.option);
    }
  }

  ghost function CopiedRefs(tgt: Target, vs: seq<Visit>): set<nat> {
    set v | v in vs && EmitsCopyin(tgt, v) && RefOf(v.arg).Some? :: RefOf(v.arg).value
  }

  lemma {:induction false} MeantCopyinIndices(tgt: Target, ix: Numbering, vs: seq<Visit>)
    requires WritableVisits(tgt, vs)
    ensures CopyinIndices(MeantCopyins(tgt, ix, vs)) == NumbersOf(ix, CopiedRefs(tgt, vs))
    decreases vs
  {
    hide ArgOf, RefOf, EmitsCopyin, NumberOf;
    if vs != [] {
      var v := vs[0];
      MeantCopyinIndices(tgt, ix, vs[1..]);
      assert CopiedRefs(tgt, vs) == CopiedRefs(tgt, vs[1..]) + if EmitsCopyin(tgt, v) && RefOf(v.arg).Some?
        then {RefOf(v.arg).value} else {};
      EmitsMeans(tgt, v);
      if EmitsCopyin(tgt, v) {
        var n := NumberOf(ix, RefOf(v.arg));
        ArgIsReference(tgt, n, v.arg);
        var first := Copyin(v.addr.value, ArgOf(tgt, n, v.arg));
        CopyinIndicesSplit(first, MeantCopyins(tgt, ix, vs[1..]));
      } else {
        assert MeantCopyins(tgt, ix, vs) == MeantCopyins(tgt, ix, vs[1..]);
      }
    }
  }

  lemma EmitsMeans(tgt: Target, v: Visit)
    ensures EmitsCopyin(tgt, v) ==> v.addr.Some?
  {
  }

  lemma CopyinIndicesSplit(c: Copyin, cs: seq<Copyin>)
    ensures CopyinIndices([c] + cs) == CopyinIndices(cs) + if c.arg.Result? then {c.arg.index} else {}
  {
    assert ([c] + cs)[0] == c;
  }

  lemma MeantCallIndices(tgt: Target, used: set<nat>, ix: Numbering, c: Call, csums: seq<Copyin>)
    requires WritableCall(tgt, c) && forall j :: 0 <= j < |csums| ==> csums[j].arg.Csum?
    ensures var m := MeantCall(tgt, used, ix, c, csums);
      CopyinIndices(m.copyin) + ArgIndices(m.args) == NumbersOf(ix, PassedRefs(tgt, c))
  {
    hide ArgOf, RefOf, NumberOf, MeantCopyins, MeantCopyouts, CallVisits, EmitsCopyin;
    var m, vs := MeantCall(tgt, used, ix, c, csums), CallVisits(tgt, c);
    MeantCopyinIndices(tgt, ix, vs);
    assert CopyinIndices(m.copyin) == CopyinIndices(MeantCopyins(tgt, ix, vs));
    var passed := set a | a in c.args && RefOf(a).Some? :: RefOf(a).value;
    assert PassedRefs(tgt, c) == CopiedRefs(tgt, vs) + passed;
    forall i | 0 <= i < |c.args|
      ensures m.args[i].Result? <==> RefOf(c.args[i]).Some?
      ensures m.args[i].Result? ==> m.args[i].index == NumberOf(ix, RefOf(c.args[i]))
    {
      ArgIsReference(tgt, NumberOf(ix, RefOf(c.args[i])), c.args[i]);
    }
    ArgIndicesAre(ix, c.args, m.args, passed);
  }

  lemma ArgIndicesAre(ix: Numbering, args: seq<Arg>, es: seq<ExecArg>, passed: set<nat>)
    requires |args| == |es| && passed == set a | a in args && RefOf(a).Some? :: RefOf(a).value
    requires forall i :: 0 <= i < |args| ==> (es[i].Result? <==> RefOf(args[i]).Some?)
    requires forall i :: 0 <= i < |args| && es[i].Result? ==> es[i].index == NumberOf(ix, RefOf(args[i]))
    ensures ArgIndices(es) == NumbersOf(ix, passed)
  {
    hide RefOf, NumberOf;
    forall x | x in ArgIndices(es)
      ensures x in NumbersOf(ix, passed)
    {
      var i :| 0 <= i < |es| && es[i].Result? && es[i].index == x;
      assert RefOf(args[i]).value in passed;
    }
    forall x | x in NumbersOf(ix, passed)
      ensures x in ArgIndices(es)
    {
      var r :| r in passed && NumberOf(ix, Some(r)) == x;
      var i :| 0 <= i < |args| && RefOf(args[i]).Some? && RefOf(args[i]).value == r;
      assert es[i].Result? && es[i].index == x;
    }
  }

  lemma {:induction false} MeantReferenced(tgt: Target, used: set<nat>, ix: Numbering, cs: seq<Call>,
                                           csums: seq<seq<Copyin>>)
    requires |csums| == |cs| && forall i :: 0 <= i < |cs| ==> WritableCall(tgt, cs[i])
    requires forall i, j :: 0 <= i < |cs| && 0 <= j < |csums[i]| ==> csums[i][j].arg.Csum?
    ensures Referenced(MeantCalls(tgt, used, ix, cs, csums)) == NumbersOf(ix, AllPassed(tgt, cs))
    decreases cs
  {
    hide WritableCall, MeantCall, PassedRefs, CopyinIndices, ArgIndices;
    if cs != [] {
      MeantCallIndices(tgt, used, ix, cs[0], csums[0]);
      MeantReferenced(tgt, used, ix, cs[1..], csums[1..]);
    }
  }

  lemma {:induction false} PassedAreDefined(tgt: Target, used: set<nat>, cs: seq<Call>, done: set<nat>)
    requires RefersBack(tgt, used, cs, done)
    ensures AllPassed(tgt, cs) <= done + ToSet(AllDefiners(tgt, used, cs))
    decreases cs
  {
    hide CallVisits;
    if cs != [] {
      var ds := Definers(used, CallVisits(tgt, cs[0]));
      PassedAreDefined(tgt, used, cs[1..], done + ToSet(ds));
      assert ToSet(AllDefiners(tgt, used, cs)) == ToSet(ds) + ToSet(AllDefiners(tgt, used, cs[1..]));
      PassedVisited(tgt, cs[0]);
    }
  }

  lemma PassedVisited(tgt: Target, c: Call)
    requires WritableCall(tgt, c)
    ensures PassedRefs(tgt, c) <= VisitRefs(CallVisits(tgt, c))
  {
    hide CallVisits;
    RefsOfArgs(tgt, c);
    forall a | a in c.args && RefOf(a).Some?
      ensures RefOf(a).value in VisitRefs(CallVisits(tgt, c))
    {
      var i :| 0 <= i < |c.args| && c.args[i] == a;
      ArgRefVisited(tgt, c.args, None, 0, i);
    }
    forall v | v in CallVisits(tgt, c) && EmitsCopyin(tgt, v) && RefOf(v.arg).Some?
      ensures RefOf(v.arg).value in VisitRefs(CallVisits(tgt, c))
    {
    }
  }

  // ---- the result ----

  /** Is the last used result referred to by an argument that is passed? */
  ghost predicate LastPassed(tgt: Target, used: set<nat>, cs: seq<Call>) {
    var ds := AllDefiners(tgt, used, cs);
    ds == [] || ds[|ds| - 1] in AllPassed(tgt, cs)
  }

  lemma VarsAgree(tgt: Target, used: set<nat>, cs: seq<Call>, csums: seq<seq<Copyin>>)
    requires |csums| == |cs| && Compilable(tgt, used, cs)
    requires forall i, j :: 0 <= i < |cs| && 0 <= j < |csums[i]| ==> csums[i][j].arg.Csum?
    ensures forall i :: 0 <= i < |cs| ==> WritableCall(tgt, cs[i])
    ensures var calls := Compiled(tgt, used, cs, csums);
      |ProgVars([], calls)| == ProgNumVars(0, calls) <==> LastPassed(tgt, used, cs)
  {
    var ds := AllDefiners(tgt, used, cs);
    IndicesDense(tgt, used, cs, csums);
    CompiledMeant(tgt, used, cs, csums);
    PassedAreDefined(tgt, used, cs, {});
    MeantReferenced(tgt, used, Positions(ds), cs, csums);
    hide Compiled, MeantCalls, AllDefiners, AllPassed, RefersBack, ProgVars, ProgNumVars, Referenced, Assigned,
      WritableCall, Positions, Top;
    CountsAgree(Compiled(tgt, used, cs, csums), AllPassed(tgt, cs), ds);
  }

  lemma CountsAgree(calls: seq<ExecCall>, refs: set<nat>, ds: seq<nat>)
    requires |ds| < NO_COPYOUT && Distinct(ds) && refs <= {} + ToSet(ds)
      && Referenced(calls) == NumbersOf(Positions(ds), refs)
    requires |Assigned(calls)| == |ds| && forall j :: 0 <= j < |ds| ==> Assigned(calls)[j] == j
    ensures |ProgVars([], calls)| == ProgNumVars(0, calls) <==> ds == [] || ds[|ds| - 1] in refs
  {
    hide ProgVars, ProgNumVars, Referenced, Assigned, Positions, PositionsFrom;
    TopVars([], calls, {});
    TopAssigned(0, calls, {});
    DenseTop(ProgNumVars(0, calls), Assigned(calls), |ds|);
    assert {} + Referenced(calls) == NumbersOf(Positions(ds), refs);
    PositionsLast(ds);
    LastTop(|ProgVars([], calls)|, Positions(ds), refs, ds);
  }

  lemma PositionsLast(ds: seq<nat>)
    requires |ds| < NO_COPYOUT && Distinct(ds)
    ensures forall r :: r in ToSet(ds) ==>
      NumberOf(Positions(ds), Some(r)) < |ds| && (NumberOf(Positions(ds), Some(r)) == |ds| - 1 <==> r == ds[|ds| - 1])
  {
    PositionsNumber(ds, 0);
    hide PositionsFrom;
    forall r | r in ToSet(ds)
      ensures NumberOf(Positions(ds), Some(r)) < |ds|
        && (NumberOf(Positions(ds), Some(r)) == |ds| - 1 <==> r == ds[|ds| - 1])
    {
      var j :| 0 <= j < |ds| && ds[j] == r;
    }
  }

  lemma DenseTop(m: nat, s: seq<u64>, n: nat)
    requires |s| == n && (forall j :: 0 <= j < n ==> s[j] == j) && Top(m, {} + Set(s))
    ensures m == n
  {
    if n > 0 {
      assert s[n - 1] in Set(s);
    }
  }

  lemma LastTop(m: nat, ix: Numbering, refs: set<nat>, ds: seq<nat>)
    requires Top(m, NumbersOf(ix, refs))
    requires forall r :: r in refs ==>
      |ds| > 0 && NumberOf(ix, Some(r)) < |ds| && (NumberOf(ix, Some(r)) == |ds| - 1 <==> r == ds[|ds| - 1])
    ensures m == |ds| <==> (ds == [] || ds[|ds| - 1] in refs)
  {
    if ds != [] && ds[|ds| - 1] in refs {
      assert NumberOf(ix, Some(ds[|ds| - 1])) in NumbersOf(ix, refs);
    }
  }

  /** Decoding the serialised form of a program returns exactly its compiled calls if and only if
      the last used result is passed; otherwise the decoder reports an error. */
  lemma ExecDecodes(tgt: Target, used: set<nat>, cs: seq<Call>, csums: seq<seq<Copyin>>, data: seq<byte>)
    requires |csums| == |cs| && Compilable(tgt, used, cs)
    requires forall i, j :: 0 <= i < |cs| && 0 <= j < |csums[i]| ==> csums[i][j].arg.Csum?
    requires forall i :: 0 <= i < |cs| ==> WritableCall(tgt, cs[i])
    requires var calls := Compiled(tgt, used, cs, csums);
      FitsCalls(calls, |tgt.syscalls|) && Matches(data, EncProg(calls, |tgt.syscalls|))
    ensures var calls := Compiled(tgt, used, cs, csums);
      DeserializeExec(data, |tgt.syscalls|) ==
        if LastPassed(tgt, used, cs) then Some((calls, ProgVars([], calls))) else None
  {
    hide Compiled, LastPassed, Matches, FitsCalls, WritableCall, ProgVars, ProgNumVars, DeserializeExec;
    VarsAgree(tgt, used, cs, csums);
    ExecRoundTrips(data, |tgt.syscalls|, Compiled(tgt, used, cs, csums));
  }
}
