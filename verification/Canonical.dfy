/** Programs whose text form loses nothing, and renaming of result identities. */
module CanonicalForm {
  import opened ProgTypes
  import opened DataText
  import opened Validation

  /** The fields that printing drops hold what parsing puts back. `t` is the declared type. */
  predicate Canonical(tgt: Target, a: Arg, t: Type)
    decreases a, 1
  {
    match a
    case ConstArg(typ, val) => IsPad(typ) ==> val == 0
    case DataArg(typ, _, outSize) =>
      && (CommonOf(tgt, typ).dir != DirOut ==> outSize == 0)
      && (CommonOf(tgt, typ).varlen ==> DataSize(a) <= MaxMem(tgt))
    case PointerArg(typ, address, vmaSize, res) =>
      if res.None? then
        && typ == t
        && (IsSpecial(a) || (typ.VmaT? && PageAligned(tgt, address, vmaSize)))
      else
        && (IsAnyPtr(typ) ==>
            (t.PtrT? || t.VmaT?) && typ == MakeAnyPtrType(tgt, CommonOf(tgt, t).size, FieldName(t)))
        && typ.PtrT?
        && Canonical(tgt, res.value, typ.elem)
    case GroupArg(typ, inner) =>
      if typ.StructT? then CanonicalSeq(tgt, inner, Desc(tgt, typ.key).fields)
      else typ.ArrayT? && CanonicalSeq(tgt, inner, Repeat(typ.elem, |inner|))
    case UnionArg(typ, option) =>
      && typ.UnionT?
      && var opt := FindField(Desc(tgt, typ.key).fields, FieldName(option.typ));
         opt.Some? && Canonical(tgt, option, opt.value)
    case ResultArg(_, id, ref, opDiv, opAdd, val) =>
      if ref.Some? then val == 0 && ref.value != id else opDiv == 0 && opAdd == 0
  }

  /** Whole pages inside memory. */
  predicate PageAligned(tgt: Target, address: u64, vmaSize: u64) {
    && address % tgt.pageSize == 0 && vmaSize % tgt.pageSize == 0
    && (vmaSize != 0 ==> address + vmaSize <= MaxMem(tgt))
  }

  predicate CanonicalSeq(tgt: Target, args: seq<Arg>, types: seq<Type>)
    decreases args, 0
  {
    if args == [] then types == []
    else types != [] && Canonical(tgt, args[0], types[0]) && CanonicalSeq(tgt, args[1..], types[1..])
  }

  predicate CanonicalCalls(tgt: Target, calls: seq<Call>)
  {
    calls == [] ||
    (&& calls[0].meta < |tgt.syscalls|
     && CanonicalSeq(tgt, calls[0].args, tgt.syscalls[calls[0].meta].args)
     && CanonicalCalls(tgt, calls[1..]))
  }

  // ---- renaming ----

  /** Position of an identity in the order of identities, its length if it is not there. */
  function Pos(order: seq<nat>, id: nat): (k: nat)
    ensures k <= |order|
    ensures k < |order| ==> order[k] == id
    ensures k == |order| <==> id !in order
    ensures forall j :: 0 <= j < k ==> order[j] != id
  {
    if order == [] then 0
    else if order[0] == id then 0
    else 1 + Pos(order[1..], id)
  }

  function Rename(order: seq<nat>, a: Arg): Arg
    decreases a, 1
  {
    match a
    case ResultArg(_, id, ref, _, _, _) =>
      a.(id := Pos(order, id), ref := if ref.Some? then Some(Pos(order, ref.value)) else None)
    case PointerArg(_, _, _, res) =>
      if res.Some? then a.(res := Some(Rename(order, res.value))) else a
    case GroupArg(_, inner) => a.(inner := RenameSeq(order, inner))
    case UnionArg(_, option) => a.(option := Rename(order, option))
    case _ => a
  }

  function RenameSeq(order: seq<nat>, args: seq<Arg>): (r: seq<Arg>)
    ensures |r| == |args|
    decreases args, 0
  {
    if args == [] then [] else [Rename(order, args[0])] + RenameSeq(order, args[1..])
  }

  function RenameCall(order: seq<nat>, c: Call): Call {
    Call(c.meta, RenameSeq(order, c.args), if c.ret.Some? then Some(Rename(order, c.ret.value)) else None)
  }

  function RenameCalls(order: seq<nat>, calls: seq<Call>): (r: seq<Call>)
    ensures |r| == |calls|
  {
    if calls == [] then [] else [RenameCall(order, calls[0])] + RenameCalls(order, calls[1..])
  }

  /** The program with its results numbered 0, 1, ... in the order in which a parser makes them. */
  function Renumbered(p: Prog): Prog {
    Prog(RenameCalls(IdsCalls(p.calls), p.calls))
  }

  // ---- what renaming keeps ----

  lemma {:induction false} RenameKeepsSize(tgt: Target, order: seq<nat>, a: Arg)
    ensures Size(tgt, Rename(order, a)) == Size(tgt, a)
    ensures Rename(order, a).typ == a.typ
    decreases a, 1
  {
    match a
    case GroupArg(_, inner) => RenameSeqKeepsSize(tgt, order, inner);
    case UnionArg(_, option) => RenameKeepsSize(tgt, order, option);
    case _ =>
  }

  lemma {:induction false} RenameSeqKeepsSize(tgt: Target, order: seq<nat>, args: seq<Arg>)
    ensures SizeSum(tgt, RenameSeq(order, args)) == SizeSum(tgt, args)
    decreases args, 0
  {
    if args != [] {
      var r := RenameSeq(order, args);
      assert r[0] == Rename(order, args[0]) && r[1..] == RenameSeq(order, args[1..]);
      RenameKeepsSize(tgt, order, args[0]);
      RenameSeqKeepsSize(tgt, order, args[1..]);
    }
  }

  /** Canonical form does not depend on identities, as long as distinct ones stay distinct. */
  lemma {:induction false} RenameKeepsCanonical(tgt: Target, order: seq<nat>, a: Arg, t: Type)
    requires forall id :: id in Ids(a) || id in Refs(a) ==> id in order
    ensures Canonical(tgt, Rename(order, a), t) == Canonical(tgt, a, t)
    decreases a, 1
  {
    RenameKeepsSize(tgt, order, a);
    match a
    case PointerArg(typ, _, _, res) =>
      if res.Some? && typ.PtrT? {
        RenameKeepsCanonical(tgt, order, res.value, typ.elem);
      }
    case GroupArg(typ, inner) =>
      if typ.StructT? {
        RenameSeqKeepsCanonical(tgt, order, inner, Desc(tgt, typ.key).fields);
      } else if typ.ArrayT? {
        RenameSeqKeepsCanonical(tgt, order, inner, Repeat(typ.elem, |inner|));
      }
    case UnionArg(typ, option) =>
      RenameKeepsSize(tgt, order, option);
      if typ.UnionT? {
        var opt := FindField(Desc(tgt, typ.key).fields, FieldName(option.typ));
        if opt.Some? {
          RenameKeepsCanonical(tgt, order, option, opt.value);
        }
      }
    case _ =>
  }

  lemma {:induction false} RenameSeqKeepsCanonical(tgt: Target, order: seq<nat>, args: seq<Arg>, types: seq<Type>)
    requires forall id :: id in IdsSeq(args) || id in RefsSeq(args) ==> id in order
    ensures CanonicalSeq(tgt, RenameSeq(order, args), types) == CanonicalSeq(tgt, args, types)
    decreases args, 0
  {
    if args != [] && types != [] {
      var r := RenameSeq(order, args);
      assert r[0] == Rename(order, args[0]) && r[1..] == RenameSeq(order, args[1..]);
      RenameKeepsCanonical(tgt, order, args[0], types[0]);
      RenameSeqKeepsCanonical(tgt, order, args[1..], types[1..]);
    }
  }

  lemma {:induction false} RenameCallsKeepsCanonical(tgt: Target, order: seq<nat>, calls: seq<Call>)
    requires forall id :: id in IdsCalls(calls) || id in RefsCalls(calls) ==> id in order
    ensures CanonicalCalls(tgt, RenameCalls(order, calls)) == CanonicalCalls(tgt, calls)
  {
    if calls != [] {
      var r := RenameCalls(order, calls);
      assert r[0] == RenameCall(order, calls[0]) && r[1..] == RenameCalls(order, calls[1..]);
      if calls[0].meta < |tgt.syscalls| {
        RenameSeqKeepsCanonical(tgt, order, calls[0].args, tgt.syscalls[calls[0].meta].args);
      }
      RenameCallsKeepsCanonical(tgt, order, calls[1..]);
    }
  }

  // ---- validation and identities ----

  ghost function ToSet(s: seq<nat>): set<nat> { set x | x in s }

  ghost predicate Distinct(s: seq<nat>) {
    forall i, j :: 0 <= i < j < |s| ==> s[i] != s[j]
  }

  lemma DistinctConcat(a: seq<nat>, b: seq<nat>)
    requires Distinct(a) && Distinct(b) && forall x :: x in b ==> x !in a
    ensures Distinct(a + b) && ToSet(a + b) == ToSet(a) + ToSet(b)
  {
    forall i, j | 0 <= i < j < |a + b|
      ensures (a + b)[i] != (a + b)[j]
    {
      if i < |a| <= j {
        assert b[j - |a|] in b && a[i] in a;
      }
    }
  }

  /** Validation adds exactly the identities of the tree, each of which is new and different. */
  lemma {:induction false} ValidateAdds(tgt: Target, a: Arg, t: Type, seen: set<nat>)
    requires ValidateArg(tgt, a, t, seen).Some?
    ensures ValidateArg(tgt, a, t, seen).value == seen + ToSet(Ids(a))
    ensures Distinct(Ids(a))
    ensures forall id :: id in Ids(a) ==> id !in seen
    ensures Refs(a) <= seen + ToSet(Ids(a))
    decreases a, 1
  {
    match a
    case PointerArg(typ, _, _, res) =>
      if res.Some? {
        ValidateAdds(tgt, res.value, typ.elem, seen);
      }
    case GroupArg(typ, inner) =>
      if typ.StructT? {
        ValidateSeqAdds(tgt, inner, Desc(tgt, typ.key).fields, seen);
      } else {
        ValidateSeqAdds(tgt, inner, Repeat(typ.elem, |inner|), seen);
      }
    case UnionArg(typ, option) =>
      ValidateAdds(tgt, option, FindField(Desc(tgt, typ.key).fields, FieldName(option.typ)).value, seen);
    case _ =>
  }

  lemma {:induction false} ValidateSeqAdds(tgt: Target, args: seq<Arg>, types: seq<Type>, seen: set<nat>)
    requires |args| == |types| && ValidateSeq(tgt, args, types, seen).Some?
    ensures ValidateSeq(tgt, args, types, seen).value == seen + ToSet(IdsSeq(args))
    ensures Distinct(IdsSeq(args))
    ensures forall id :: id in IdsSeq(args) ==> id !in seen
    ensures RefsSeq(args) <= seen + ToSet(IdsSeq(args))
    decreases args, 0
  {
    if args != [] {
      ValidateAdds(tgt, args[0], types[0], seen);
      var s := ValidateArg(tgt, args[0], types[0], seen).value;
      ValidateSeqAdds(tgt, args[1..], types[1..], s);
      DistinctConcat(Ids(args[0]), IdsSeq(args[1..]));
    }
  }

  lemma ValidateCallAdds(tgt: Target, c: Call, seen: set<nat>)
    requires ValidateCall(tgt, c, seen).Some?
    ensures ValidateCall(tgt, c, seen).value == seen + ToSet(IdsCall(c))
    ensures Distinct(IdsCall(c))
    ensures forall id :: id in IdsCall(c) ==> id !in seen
    ensures RefsSeq(c.args) <= seen + ToSet(IdsCall(c))
    ensures c.ret.Some? ==> c.ret.value.ResultArg? && Refs(c.ret.value) == {}
  {
    var meta := tgt.syscalls[c.meta];
    ValidateSeqAdds(tgt, c.args, meta.args, seen);
    if c.ret.Some? {
      ValidateAdds(tgt, c.ret.value, meta.ret.value, ValidateSeq(tgt, c.args, meta.args, seen).value);
      DistinctConcat(Ids(c.ret.value), IdsSeq(c.args));
    } else {
      DistinctConcat([], IdsSeq(c.args));
    }
  }

  lemma {:induction false} ValidateCallsAdds(tgt: Target, calls: seq<Call>, seen: set<nat>)
    requires ValidateCalls(tgt, calls, seen).Some?
    ensures ValidateCalls(tgt, calls, seen).value == seen + ToSet(IdsCalls(calls))
    ensures Distinct(IdsCalls(calls))
    ensures forall id :: id in IdsCalls(calls) ==> id !in seen
    ensures RefsCalls(calls) <= seen + ToSet(IdsCalls(calls))
  {
    if calls != [] {
      ValidateCallAdds(tgt, calls[0], seen);
      ValidateCallsAdds(tgt, calls[1..], ValidateCall(tgt, calls[0], seen).value);
      DistinctConcat(IdsCall(calls[0]), IdsCalls(calls[1..]));
    }
  }

  /** Every result refers to itself or to one met before it. */
  ghost predicate Backward(a: Arg, seen: set<nat>)
    decreases a, 1
  {
    match a
    case ResultArg(_, id, ref, _, _, _) => ref.Some? ==> ref.value in seen || ref.value == id
    case PointerArg(_, _, _, res) => res.Some? ==> Backward(res.value, seen)
    case GroupArg(_, inner) => BackwardSeq(inner, seen)
    case UnionArg(_, option) => Backward(option, seen)
    case _ => true
  }

  ghost predicate BackwardSeq(args: seq<Arg>, seen: set<nat>)
    decreases args, 0
  {
    args == [] || (Backward(args[0], seen) && BackwardSeq(args[1..], seen + ToSet(Ids(args[0]))))
  }

  ghost predicate BackwardCalls(calls: seq<Call>, seen: set<nat>) {
    || calls == []
    || (BackwardSeq(calls[0].args, seen) && BackwardCalls(calls[1..], seen + ToSet(IdsCall(calls[0]))))
  }

  lemma {:induction false} ValidateBackward(tgt: Target, a: Arg, t: Type, seen: set<nat>)
    requires ValidateArg(tgt, a, t, seen).Some?
    ensures Backward(a, seen)
    decreases a, 1
  {
    match a
    case PointerArg(typ, _, _, res) =>
      if res.Some? {
        ValidateBackward(tgt, res.value, typ.elem, seen);
      }
    case GroupArg(typ, inner) =>
      ValidateSeqBackward(tgt, inner, if typ.StructT? then Desc(tgt, typ.key).fields else Repeat(typ.elem, |inner|),
                          seen);
    case UnionArg(typ, option) =>
      ValidateBackward(tgt, option, FindField(Desc(tgt, typ.key).fields, FieldName(option.typ)).value, seen);
    case _ =>
  }

  lemma {:induction false} ValidateSeqBackward(tgt: Target, args: seq<Arg>, types: seq<Type>, seen: set<nat>)
    requires |args| == |types| && ValidateSeq(tgt, args, types, seen).Some?
    ensures BackwardSeq(args, seen)
    decreases args, 0
  {
    hide Backward, Ids, ValidateArg;
    if args != [] {
      ValidateBackward(tgt, args[0], types[0], seen);
      ValidateAdds(tgt, args[0], types[0], seen);
      ValidateSeqBackward(tgt, args[1..], types[1..], ValidateArg(tgt, args[0], types[0], seen).value);
    }
  }

  /** In an accepted program every result refers to itself or to one met before it. */
  lemma {:induction false} ValidateCallsBackward(tgt: Target, calls: seq<Call>, seen: set<nat>)
    requires ValidateCalls(tgt, calls, seen).Some?
    ensures BackwardCalls(calls, seen)
  {
    hide BackwardSeq, IdsCall;
    if calls != [] {
      var c := calls[0];
      ValidateSeqBackward(tgt, c.args, tgt.syscalls[c.meta].args, seen);
      ValidateCallAdds(tgt, c, seen);
      ValidateCallsBackward(tgt, calls[1..], ValidateCall(tgt, c, seen).value);
    }
  }

  /** The image of a set of identities under renaming. */
  ghost function PosSet(order: seq<nat>, s: set<nat>): set<nat> {
    set x | x in s :: Pos(order, x)
  }

  lemma PosSetAdd(order: seq<nat>, s: set<nat>, id: nat)
    requires id in order && forall x :: x in s ==> x in order
    ensures PosSet(order, s + {id}) == PosSet(order, s) + {Pos(order, id)}
    ensures Pos(order, id) in PosSet(order, s) <==> id in s
  {
    assert forall x :: x in s && Pos(order, x) == Pos(order, id) ==> x == id;
  }

  /** A renamed tree validates exactly when the tree does, and sees the renamed identities. */
  lemma {:induction false} ValidateRenamed(tgt: Target, order: seq<nat>, a: Arg, t: Type, seen: set<nat>)
    requires ValidateArg(tgt, a, t, seen).Some?
    requires forall id :: id in seen || id in Ids(a) ==> id in order
    ensures ValidateArg(tgt, Rename(order, a), t, PosSet(order, seen))
            == Some(PosSet(order, ValidateArg(tgt, a, t, seen).value))
    decreases a, 1
  {
    RenameKeepsSize(tgt, order, a);
    match a
    case ResultArg(_, id, ref, _, _, _) =>
      PosSetAdd(order, seen, id);
      if ref.Some? {
        PosSetAdd(order, seen + {id}, ref.value);
      }
    case PointerArg(typ, _, _, res) =>
      if res.Some? {
        RenameKeepsSize(tgt, order, res.value);
        ValidateRenamed(tgt, order, res.value, typ.elem, seen);
      }
    case GroupArg(typ, inner) =>
      if typ.StructT? {
        ValidateSeqRenamed(tgt, order, inner, Desc(tgt, typ.key).fields, seen);
      } else {
        ValidateSeqRenamed(tgt, order, inner, Repeat(typ.elem, |inner|), seen);
      }
    case UnionArg(typ, option) =>
      RenameKeepsSize(tgt, order, option);
      ValidateRenamed(tgt, order, option, FindField(Desc(tgt, typ.key).fields, FieldName(option.typ)).value, seen);
    case _ =>
  }

  lemma {:induction false} ValidateSeqRenamed(tgt: Target, order: seq<nat>, args: seq<Arg>, types: seq<Type>,
                                              seen: set<nat>)
    requires |args| == |types| && ValidateSeq(tgt, args, types, seen).Some?
    requires forall id :: id in seen || id in IdsSeq(args) ==> id in order
    ensures ValidateSeq(tgt, RenameSeq(order, args), types, PosSet(order, seen))
            == Some(PosSet(order, ValidateSeq(tgt, args, types, seen).value))
    decreases args, 0
  {
    if args != [] {
      var r := RenameSeq(order, args);
      assert r[0] == Rename(order, args[0]) && r[1..] == RenameSeq(order, args[1..]);
      ValidateAdds(tgt, args[0], types[0], seen);
      ValidateRenamed(tgt, order, args[0], types[0], seen);
      ValidateSeqRenamed(tgt, order, args[1..], types[1..], ValidateArg(tgt, args[0], types[0], seen).value);
    }
  }

  lemma ValidateCallRenamed(tgt: Target, order: seq<nat>, c: Call, seen: set<nat>)
    requires ValidateCall(tgt, c, seen).Some?
    requires forall id :: id in seen || id in IdsCall(c) ==> id in order
    ensures ValidateCall(tgt, RenameCall(order, c), PosSet(order, seen))
            == Some(PosSet(order, ValidateCall(tgt, c, seen).value))
  {
    var meta := tgt.syscalls[c.meta];
    ValidateSeqRenamed(tgt, order, c.args, meta.args, seen);
    ValidateSeqAdds(tgt, c.args, meta.args, seen);
    if c.ret.Some? {
      ValidateRenamed(tgt, order, c.ret.value, meta.ret.value, ValidateSeq(tgt, c.args, meta.args, seen).value);
    }
  }

  lemma {:induction false} ValidateCallsRenamed(tgt: Target, order: seq<nat>, calls: seq<Call>, seen: set<nat>)
    requires ValidateCalls(tgt, calls, seen).Some?
    requires forall id :: id in seen || id in IdsCalls(calls) ==> id in order
    ensures ValidateCalls(tgt, RenameCalls(order, calls), PosSet(order, seen))
            == Some(PosSet(order, ValidateCalls(tgt, calls, seen).value))
  {
    if calls != [] {
      var r := RenameCalls(order, calls);
      assert r[0] == RenameCall(order, calls[0]) && r[1..] == RenameCalls(order, calls[1..]);
      ValidateCallAdds(tgt, calls[0], seen);
      ValidateCallRenamed(tgt, order, calls[0], seen);
      ValidateCallsRenamed(tgt, order, calls[1..], ValidateCall(tgt, calls[0], seen).value);
    }
  }
}
