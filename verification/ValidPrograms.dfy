/** What validation accepts, without running it: every argument at every place is in order by itself and has the
    type declared for its place, results are all different, and references point back. */
module ValidPrograms {
  import opened ProgTypes
  import opened ArgPaths
  import opened Validation
  import opened CanonicalForm

  /** The value that a constant has by default. */
  function DefaultValue(kind: IntKind): u64 {
    match kind
    case KConst(val, _) => val
    case KProc(_, _) => PROC_DEFAULT
    case _ => 0
  }

  /** What is required of an argument by itself. */
  ghost predicate InOrder(tgt: Target, a: Arg) {
    match a
    case ConstArg(typ, val) =>
      && typ.IntT?
      && (typ.kind.KProc? && val >= typ.kind.valuesPerProc ==> val == PROC_DEFAULT) && (typ.kind.KCsum? ==> val == 0)
      && (typ.c.dir == DirOut ==> typ.kind.KLen? || val == DefaultValue(typ.kind))
    case ResultArg(typ, _, _, _, _, val) => typ.ResourceT? && (typ.c.dir == DirOut ==> val == 0 || val == typ.default)
    case DataArg(typ, data, outSize) =>
      && typ.BufferT? && (forall i :: 0 <= i < |data| ==> data[i] as int < 256) && (typ.c.dir == DirOut ==> data == [])
      && (!typ.c.varlen || (typ.bkind == BufferString && typ.c.size != 0) ==>
          (if data == [] then outSize else |data|) == typ.c.size)
    case GroupArg(typ, inner) =>
      || (typ.StructT? && |inner| == |Desc(tgt, typ.key).fields|)
      || (typ.ArrayT? && (typ.fixedLen.Some? ==> |inner| == typ.fixedLen.value))
    case UnionArg(typ, option) =>
      typ.UnionT? && exists f :: f in Desc(tgt, typ.key).fields && FieldName(f) == FieldName(option.typ)
    case PointerArg(typ, address, vmaSize, res) =>
      && (if typ.VmaT? then res.None? else typ.PtrT? && vmaSize == 0 && typ.c.dir != DirOut)
      && if vmaSize == 0 && res.None? && (address == 0 || address > TWO64 - 16)
         then (if address == 0 then 0 else TWO64 - address) < |tgt.specialPointers|
         else
           && address < MaxMem(tgt)
           && (address + (if res.Some? && vmaSize == 0 then Size(tgt, res.value) else vmaSize)) % TWO64 <= MaxMem(tgt)
  }

  /** The type declared for a member, an option or a pointee. */
  function PartType(tgt: Target, a: Arg, i: nat): Option<Type> {
    match a
    case GroupArg(typ, _) =>
      if typ.StructT? then
        if i < |Desc(tgt, typ.key).fields| then Some(Desc(tgt, typ.key).fields[i]) else None
      else if typ.ArrayT? then Some(typ.elem)
      else None
    case UnionArg(typ, option) => if typ.UnionT? then FindField(Desc(tgt, typ.key).fields, FieldName(option.typ))
      else None
    case PointerArg(typ, _, _, _) => if typ.PtrT? then Some(typ.elem) else None
    case _ => None
  }

  /** The type declared for a place of a tree of type t. */
  function TypeAt(tgt: Target, a: Arg, t: Type, p: Path): Option<Type>
    requires Reach(a, p).Some?
    decreases p
  {
    if p == [] then Some(t)
    else
      var u := PartType(tgt, a, p[0]);
      var b := if a.GroupArg? then a.inner[p[0]] else if a.UnionArg? then a.option else a.res.value;
      if u.None? then None else TypeAt(tgt, b, u.value, p[1..])
  }

  /** Types of untyped pointers fit everywhere. */
  ghost predicate Fits(a: Arg, t: Option<Type>) { IsAnyPtr(a.typ) || t == Some(a.typ) }

  /** Every argument of the tree is in order and of the declared type. */
  ghost predicate Sound(tgt: Target, a: Arg, t: Type) {
    forall p :: Reach(a, p).Some? ==> InOrder(tgt, Reach(a, p).value) && Fits(Reach(a, p).value, TypeAt(tgt, a, t, p))
  }

  // ---- the same by recursion ----

  ghost predicate Checked(tgt: Target, a: Arg, t: Type)
    decreases a, 1
  {
    && InOrder(tgt, a) && Fits(a, Some(t))
    && match a
       case GroupArg(typ, inner) =>
         CheckedSeq(tgt, inner, if typ.StructT? then Desc(tgt, typ.key).fields else Repeat(typ.elem, |inner|))
       case UnionArg(typ, option) =>
         var u := FindField(Desc(tgt, typ.key).fields, FieldName(option.typ)); u.Some? && Checked(tgt, option, u.value)
       case PointerArg(typ, _, _, res) => res.Some? ==> typ.PtrT? && Checked(tgt, res.value, typ.elem)
       case _ => true
  }

  ghost predicate CheckedSeq(tgt: Target, args: seq<Arg>, types: seq<Type>)
    decreases args
  {
    && |args| == |types|
    && (args == [] || (Checked(tgt, args[0], types[0]) && CheckedSeq(tgt, args[1..], types[1..])))
  }

  lemma {:induction false} CheckedAll(tgt: Target, args: seq<Arg>, types: seq<Type>)
    ensures CheckedSeq(tgt, args, types) <==>
      |args| == |types| && forall i :: 0 <= i < |args| ==> Checked(tgt, args[i], types[i])
    decreases args
  {
    hide Checked;
    if |args| == |types| && args != [] {
      CheckedAll(tgt, args[1..], types[1..]);
      assert forall i :: 0 <= i < |args| - 1 ==> args[1..][i] == args[i + 1] && types[1..][i] == types[i + 1];
      if Checked(tgt, args[0], types[0]) && forall i :: 0 <= i < |args| - 1 ==>
        Checked(tgt, args[1..][i], types[1..][i]) {
        forall i | 0 <= i < |args|
          ensures Checked(tgt, args[i], types[i])
        {
          if i > 0 {
            assert Checked(tgt, args[1..][i - 1], types[1..][i - 1]);
          }
        }
      }
    }
  }

  lemma {:induction false} CheckedIsSound(tgt: Target, a: Arg, t: Type, p: Path)
    requires Checked(tgt, a, t) && Reach(a, p).Some?
    ensures InOrder(tgt, Reach(a, p).value) && Fits(Reach(a, p).value, TypeAt(tgt, a, t, p))
    decreases p
  {
    hide InOrder, Fits;
    if p != [] {
      match a
      case GroupArg(typ, inner) =>
        GroupType(tgt, a);
        var types := if typ.StructT? then Desc(tgt, typ.key).fields else Repeat(typ.elem, |inner|);
        CheckedAll(tgt, inner, types);
        CheckedIsSound(tgt, inner[p[0]], types[p[0]], p[1..]);
      case UnionArg(typ, option) =>
        UnionType(tgt, a);
        CheckedIsSound(tgt, option, FindField(Desc(tgt, typ.key).fields, FieldName(option.typ)).value, p[1..]);
      case PointerArg(typ, _, _, res) => CheckedIsSound(tgt, res.value, typ.elem, p[1..]);
    }
  }

  lemma GroupType(tgt: Target, a: Arg)
    requires a.GroupArg? && InOrder(tgt, a)
    ensures a.typ.StructT? || a.typ.ArrayT?
    ensures forall i :: 0 <= i < |a.inner| ==>
      PartType(tgt, a, i) == Some(if a.typ.StructT? then Desc(tgt, a.typ.key).fields[i] else a.typ.elem)
  {
  }

  lemma UnionType(tgt: Target, a: Arg)
    requires a.UnionArg? && InOrder(tgt, a)
    ensures a.typ.UnionT? && FindField(Desc(tgt, a.typ.key).fields, FieldName(a.option.typ)).Some?
  {
  }

  /** Parts of a sound tree are sound. */
  lemma PartSound(tgt: Target, a: Arg, t: Type, i: nat, b: Arg, u: Type)
    requires Sound(tgt, a, t) && Reach(a, [i]) == Some(b) && PartType(tgt, a, i) == Some(u)
    ensures Sound(tgt, b, u)
  {
    hide InOrder, Fits;
    forall p | Reach(b, p).Some?
      ensures InOrder(tgt, Reach(b, p).value) && Fits(Reach(b, p).value, TypeAt(tgt, b, u, p))
    {
      var q := [i] + p;
      assert q[0] == i && q[1..] == p && [i][1..] == [];
      assert Reach(a, q) == Reach(b, p);
      assert TypeAt(tgt, a, t, q) == TypeAt(tgt, b, u, p);
    }
  }

  lemma {:induction false} SoundIsChecked(tgt: Target, a: Arg, t: Type)
    requires Sound(tgt, a, t)
    ensures Checked(tgt, a, t)
    decreases a
  {
    assert Reach(a, []) == Some(a) && TypeAt(tgt, a, t, []) == Some(t);
    assert InOrder(tgt, a) && Fits(a, Some(t));
    hide Sound, Fits;
    match a
    case GroupArg(typ, inner) =>
      GroupType(tgt, a);
      hide InOrder;
      var types := if typ.StructT? then Desc(tgt, typ.key).fields else Repeat(typ.elem, |inner|);
      MemberCount(tgt, a);
      forall i | 0 <= i < |inner|
        ensures Checked(tgt, inner[i], types[i])
      {
        assert [i][1..] == [] && Reach(a, [i]) == Some(inner[i]);
        PartSound(tgt, a, t, i, inner[i], types[i]);
        SoundIsChecked(tgt, inner[i], types[i]);
      }
      CheckedAll(tgt, inner, types);
    case UnionArg(typ, option) =>
      UnionType(tgt, a);
      hide InOrder;
      var u := FindField(Desc(tgt, typ.key).fields, FieldName(option.typ)).value;
      assert [0][1..] == [] && Reach(a, [0]) == Some(option);
      PartSound(tgt, a, t, 0, option, u);
      SoundIsChecked(tgt, option, u);
    case PointerArg(typ, _, _, res) =>
      if res.Some? {
        hide InOrder;
        assert typ.PtrT? by { PointsSomewhere(tgt, a); }
        assert [0][1..] == [] && Reach(a, [0]) == Some(res.value);
        PartSound(tgt, a, t, 0, res.value, typ.elem);
        SoundIsChecked(tgt, res.value, typ.elem);
      }
    case _ =>
  }

  lemma MemberCount(tgt: Target, a: Arg)
    requires a.GroupArg? && InOrder(tgt, a)
    ensures a.typ.StructT? ==> |a.inner| == |Desc(tgt, a.typ.key).fields|
  {
  }

  lemma PointsSomewhere(tgt: Target, a: Arg)
    requires a.PointerArg? && a.res.Some? && InOrder(tgt, a)
    ensures a.typ.PtrT?
  {
  }

  lemma SoundIff(tgt: Target, a: Arg, t: Type)
    ensures Sound(tgt, a, t) <==> Checked(tgt, a, t)
  {
    hide InOrder, Fits, Checked;
    if Checked(tgt, a, t) {
      forall p | Reach(a, p).Some?
        ensures InOrder(tgt, Reach(a, p).value) && Fits(Reach(a, p).value, TypeAt(tgt, a, t, p))
      {
        CheckedIsSound(tgt, a, t, p);
      }
    }
    if Sound(tgt, a, t) {
      SoundIsChecked(tgt, a, t);
    }
  }

  // ---- validation ----

  ghost predicate Fresh(ids: seq<nat>, seen: set<nat>) { Distinct(ids) && forall id :: id in ids ==> id !in seen }

  lemma FreshSplit(a: seq<nat>, b: seq<nat>, seen: set<nat>)
    ensures Fresh(a + b, seen) <==> Fresh(a, seen) && Fresh(b, seen + ToSet(a))
  {
    if Fresh(a + b, seen) {
      assert forall i :: 0 <= i < |a| ==> (a + b)[i] == a[i];
      assert forall j :: 0 <= j < |b| ==> (a + b)[|a| + j] == b[j];
      forall id | id in b
        ensures id !in seen + ToSet(a)
      {
        var j :| 0 <= j < |b| && b[j] == id;
        assert (a + b)[|a| + j] == id && id in a + b;
      }
      forall id | id in a
        ensures id !in seen
      {
        assert id in a + b;
      }
    }
    if Fresh(a, seen) && Fresh(b, seen + ToSet(a)) {
      DistinctConcat(a, b);
    }
  }

  predicate KindOk(a: Arg)
    requires a.PointerArg?
  {
    if a.typ.VmaT? then a.res.None? else a.typ.PtrT? && a.vmaSize == 0 && a.typ.c.dir != DirOut
  }

  /** Leaves and the conditions on a node itself. */
  lemma NodeValid(tgt: Target, a: Arg, t: Type)
    ensures a.ConstArg? && a.typ.IntT? ==> (ValidConst(a.typ, a.val) <==> InOrder(tgt, a))
    ensures a.DataArg? && a.typ.BufferT? ==> (ValidData(a) <==> InOrder(tgt, a))
    ensures a.PointerArg? ==> (InOrder(tgt, a) <==> ValidAddress(tgt, a) && KindOk(a))
  {
    hide Size;
  }

  lemma {:induction false} ArgValidIff(tgt: Target, a: Arg, t: Type, seen: set<nat>)
    ensures ValidateArg(tgt, a, t, seen).Some? <==> Checked(tgt, a, t) && Fresh(Ids(a), seen) && Backward(a, seen)
    decreases a, 1
  {
    NodeValid(tgt, a, t);
    match a
    case ConstArg(_, _) => hide InOrder, ValidConst;
    case ResultArg(_, _, _, _, _, _) =>
    case DataArg(_, _, _) => hide ValidData;
    case GroupArg(typ, inner) =>
      GroupValidIff(tgt, a, t, seen);
    case UnionArg(typ, option) =>
      if typ.UnionT? {
        var u := FindField(Desc(tgt, typ.key).fields, FieldName(option.typ));
        if u.Some? {
          ArgValidIff(tgt, option, u.value, seen);
          assert u.value in Desc(tgt, typ.key).fields;
        }
      }
    case PointerArg(typ, _, _, res) =>
      hide InOrder, ValidAddress;
      if res.Some? && typ.PtrT? {
        ArgValidIff(tgt, res.value, typ.elem, seen);
      }
  }

  lemma {:induction false} GroupValidIff(tgt: Target, a: Arg, t: Type, seen: set<nat>)
    requires a.GroupArg?
    ensures ValidateArg(tgt, a, t, seen).Some? <==> Checked(tgt, a, t) && Fresh(Ids(a), seen) && Backward(a, seen)
    decreases a, 0
  {
    hide Fresh;
    var typ, inner := a.typ, a.inner;
    if typ.StructT? {
      if |inner| == |Desc(tgt, typ.key).fields| {
        SeqValidIff(tgt, inner, Desc(tgt, typ.key).fields, seen);
      }
    } else if typ.ArrayT? {
      SeqValidIff(tgt, inner, Repeat(typ.elem, |inner|), seen);
    }
  }

  lemma {:induction false} SeqValidIff(tgt: Target, args: seq<Arg>, types: seq<Type>, seen: set<nat>)
    requires |args| == |types|
    ensures ValidateSeq(tgt, args, types, seen).Some? <==>
      CheckedSeq(tgt, args, types) && Fresh(IdsSeq(args), seen) && BackwardSeq(args, seen)
    decreases args
  {
    hide Fresh, Checked, Backward, ValidateArg, Ids;
    if args == [] {
      NoneFresh(seen);
    } else {
      ArgValidIff(tgt, args[0], types[0], seen);
      FreshSplit(Ids(args[0]), IdsSeq(args[1..]), seen);
      if ValidateArg(tgt, args[0], types[0], seen).Some? {
        ValidateAdds(tgt, args[0], types[0], seen);
        SeqValidIff(tgt, args[1..], types[1..], seen + ToSet(Ids(args[0])));
      }
    }
  }

  lemma NoneFresh(seen: set<nat>)
    ensures Fresh([], seen)
  {
  }

  // ---- calls and programs ----

  /** A call by itself: the declared number of arguments, sound ones, and an empty output value to return. */
  ghost predicate SoundCall(tgt: Target, c: Call) {
    && c.meta < |tgt.syscalls|
    && var meta := tgt.syscalls[c.meta];
    && |c.args| == |meta.args| && (forall i :: 0 <= i < |c.args| ==> Sound(tgt, c.args[i], meta.args[i]))
    && (c.ret.Some? <==> meta.ret.Some?)
    && (c.ret.Some? ==> SoundRet(c.ret.value, meta.ret.value))
  }

  ghost predicate SoundRet(r: Arg, t: Type) {
    r.ResultArg? && t.ResourceT? && t.c.dir == DirOut && r == ResultArg(t, r.id, None, 0, 0, 0)
  }

  lemma SoundAll(tgt: Target, args: seq<Arg>, types: seq<Type>)
    requires |args| == |types|
    ensures CheckedSeq(tgt, args, types) <==> forall i :: 0 <= i < |args| ==> Sound(tgt, args[i], types[i])
  {
    hide Checked, Sound;
    CheckedAll(tgt, args, types);
    forall i | 0 <= i < |args|
      ensures Sound(tgt, args[i], types[i]) <==> Checked(tgt, args[i], types[i])
    {
      SoundIff(tgt, args[i], types[i]);
    }
  }

  lemma FreshSwap(a: seq<nat>, b: seq<nat>, seen: set<nat>)
    ensures Fresh(a + b, seen) <==> Fresh(b + a, seen)
  {
    FreshSplit(a, b, seen);
    FreshSplit(b, a, seen);
  }

  lemma CallValidIff(tgt: Target, c: Call, seen: set<nat>)
    ensures ValidateCall(tgt, c, seen).Some? <==>
      SoundCall(tgt, c) && Fresh(IdsCall(c), seen) && BackwardSeq(c.args, seen)
  {
    if c.meta < |tgt.syscalls| && |c.args| == |tgt.syscalls[c.meta].args| {
      var meta := tgt.syscalls[c.meta];
      SeqValidIff(tgt, c.args, meta.args, seen);
      SoundAll(tgt, c.args, meta.args);
      hide Sound, Checked, ValidateSeq, CheckedSeq, BackwardSeq;
      if c.ret.None? {
        assert IdsCall(c) == IdsSeq(c.args);
      } else {
        var r := c.ret.value;
        FreshSwap(Ids(r), IdsSeq(c.args), seen);
        FreshSplit(IdsSeq(c.args), Ids(r), seen);
        if ValidateSeq(tgt, c.args, meta.args, seen).Some? {
          ValidateSeqAdds(tgt, c.args, meta.args, seen);
          if meta.ret.Some? && r.ResultArg? {
            RetValidIff(tgt, r, meta.ret.value, seen + ToSet(IdsSeq(c.args)));
          }
        }
      }
    }
  }

  lemma RetValidIff(tgt: Target, r: Arg, t: Type, seen: set<nat>)
    requires r.ResultArg?
    ensures SoundRet(r, t) && Fresh(Ids(r), seen) <==>
            (CommonOf(tgt, r.typ).dir == DirOut && r.ref.None? && r.val == 0 && r.opDiv == 0 && r.opAdd == 0
             && ValidateArg(tgt, r, t, seen).Some?)
  {
  }

  lemma {:induction false} CallsValidIff(tgt: Target, calls: seq<Call>, seen: set<nat>)
    ensures ValidateCalls(tgt, calls, seen).Some? <==>
      (forall i :: 0 <= i < |calls| ==> SoundCall(tgt, calls[i])) && Fresh(IdsCalls(calls), seen)
      && BackwardCalls(calls, seen)
    decreases calls
  {
    hide Fresh, SoundCall, ValidateCall, IdsCall, BackwardSeq;
    if calls == [] {
      NoneFresh(seen);
    } else {
      CallValidIff(tgt, calls[0], seen);
      FreshSplit(IdsCall(calls[0]), IdsCalls(calls[1..]), seen);
      assert (forall i :: 0 <= i < |calls| ==> SoundCall(tgt, calls[i])) <==>
        SoundCall(tgt, calls[0]) && forall i :: 0 <= i < |calls| - 1 ==> SoundCall(tgt, calls[1..][i]) by {
        assert forall i :: 0 <= i < |calls| - 1 ==> calls[1..][i] == calls[i + 1];
        assert forall i :: 0 < i < |calls| ==> calls[i] == calls[1..][i - 1];
      }
      if ValidateCall(tgt, calls[0], seen).Some? {
        ValidateCallAdds(tgt, calls[0], seen);
        CallsValidIff(tgt, calls[1..], seen + ToSet(IdsCall(calls[0])));
      }
    }
  }

  /** Validation accepts a program if and only if every argument at every place is in order and of the type declared
      there, calls have their arguments and return values, results are all different, and every reference points to
      the result itself or to one before it. */
  lemma ValidIff(tgt: Target, p: Prog)
    ensures Valid(tgt, p) <==>
      (forall i :: 0 <= i < |p.calls| ==> SoundCall(tgt, p.calls[i])) && Distinct(IdsCalls(p.calls))
      && BackwardCalls(p.calls, {})
  {
    hide SoundCall, BackwardCalls, ValidateCalls;
    CallsValidIff(tgt, p.calls, {});
  }
}
