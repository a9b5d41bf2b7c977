/** Where compiled instructions point. The address of an instruction is stated in terms of the pointer
    in front of a place and of the sizes of the members in front of it, and the
    instruction argument in terms of the argument at the place. */
module ExecPlaces {
  import opened ProgTypes
  import opened ArgPaths
  import opened Validation
  import opened ExecFormat
  import opened ExecCompile
  import opened ExecIndices
  import opened ExecMeaning
  import Numbers

  ghost predicate IsPointer(o: Option<Arg>) { o.Some? && o.value.PointerArg? && o.value.res.Some? }

  /** The place lies in memory: behind the pointer at `at`, at path `within` of what that points to. */
  ghost predicate Home(args: seq<Arg>, p: Path, at: Path, within: Path) {
    && p == at + [0] + within && IsPointer(ReachArgs(args, at))
    && Part(ReachArgs(args, at).value.res.value, within).Some?
  }

  /** The address of that place. */
  ghost function Address(tgt: Target, args: seq<Arg>, at: Path, within: Path): u64
    requires IsPointer(ReachArgs(args, at)) && Part(ReachArgs(args, at).value.res.value, within).Some?
  {
    var pointer := ReachArgs(args, at).value;
    (tgt.dataOffset + pointer.address + Offset(tgt, pointer.res.value, within)) % TWO64
  }

  ghost predicate InMemory(args: seq<Arg>, p: Path) { exists at, within :: Home(args, p, at, within) }

  /** The order in which places are met: an argument before its parts, and those from left to right. */
  predicate Before(p: Path, q: Path)
    decreases p
  {
    if p == [] || q == [] then p == [] && q != []
    else p[0] < q[0] || (p[0] == q[0] && Before(p[1..], q[1..]))
  }

  ghost predicate Ascending(ps: seq<Path>) { forall i, j :: 0 <= i < j < |ps| ==> Before(ps[i], ps[j]) }

  // ---- what an instruction argument says ----

  /** What a constant is for a process. */
  function Passed(e: ExecArg, pid: nat): u64
    requires e.Const?
  {
    (e.value + e.pidStride * pid) % TWO64
  }

  /** The value of a constant for a process: a per-process value counts from the start of the range of that
      process, and a checksum is left zero. */
  function ValueFor(kind: IntKind, val: u64, pid: nat): u64 {
    if kind.KCsum? || (kind.KProc? && val == PROC_DEFAULT) then 0
    else if kind.KProc? then (kind.valuesStart + kind.valuesPerProc * pid + val) % TWO64
    else val
  }

  /** The address of a pointer that points nowhere and is not a range: if it is minus k for a small k, it is
      special number k. */
  function SpecialAddress(k: nat): nat
    requires k < 16
  {
    if k == 0 then 0 else TWO64 - k
  }

  /** The instruction argument says what the argument is; a special pointer is one of the fixed addresses. */
  ghost predicate Carries(tgt: Target, a: Arg, e: ExecArg)
    decreases a
  {
    match a
    case ConstArg(typ, val) =>
      && typ.IntT? && e.Const? && e.size == typ.c.size && e.format == FormatCode(typ.bits.format)
      && e.bfOff == typ.bits.off % TWO64 && e.bfLen == typ.bits.len % TWO64
      && forall pid: nat :: Passed(e, pid) == ValueFor(typ.kind, val, pid)
    case ResultArg(typ, _, ref, opDiv, opAdd, val) =>
      && typ.ResourceT?
      && if ref.None? then e == Const(typ.c.size, FormatCode(typ.format), val, 0, 0, 0)
         else
           && e.Result? && e.size == typ.c.size && e.format == FormatCode(typ.format)
           && e.divOp == opDiv && e.addOp == opAdd && e.default == typ.default
    case PointerArg(typ, address, vmaSize, res) =>
      && (typ.VmaT? || typ.PtrT?) && e.Const? && e == Const(typ.c.size, FormatCode(FormatNative), e.value, 0, 0, 0)
      && (vmaSize != 0 || res.Some? || 0 < address <= TWO64 - 16 ==> e.value == (tgt.dataOffset + address) % TWO64)
      && (vmaSize == 0 && res.None? ==>
          forall k | 0 <= k < 16 && k < |tgt.specialPointers| && address == SpecialAddress(k) ::
            e.value == tgt.specialPointers[k])
    case DataArg(typ, data, _) =>
      && e.Data? && |e.data| == |data| && (forall i :: 0 <= i < |data| ==> e.data[i] == data[i] as int % 256)
      && (e.readable <==> typ.BufferT? && (typ.bkind == BufferString || typ.bkind == BufferFilename))
    case UnionArg(_, option) => Carries(tgt, option, e)
    case GroupArg(_, _) => false
  }

  lemma {:induction false} ArgCarries(tgt: Target, i: u64, a: Arg)
    requires Writable(a)
    ensures Carries(tgt, a, ArgOf(tgt, i, a))
    decreases a
  {
    match a
    case ConstArg(typ, val) => ConstCarries(tgt, i, a);
    case PointerArg(_, address, _, _) => PointerCarries(tgt, i, a);
    case UnionArg(_, option) => ArgCarries(tgt, i, option);
    case _ =>
  }

  lemma ConstCarries(tgt: Target, i: u64, a: Arg)
    requires a.ConstArg? && Writable(a)
    ensures Carries(tgt, a, ArgOf(tgt, i, a))
  {
    hide ConstValue;
    var e := ArgOf(tgt, i, a);
    forall pid: nat
      ensures Passed(e, pid) == ValueFor(a.typ.kind, a.val, pid)
    {
      ValueIs(a, pid);
    }
  }

  lemma ValueIs(a: Arg, pid: nat)
    requires a.ConstArg? && a.typ.IntT?
    ensures (ConstValue(a).0 + ConstValue(a).1 * pid) % TWO64 == ValueFor(a.typ.kind, a.val, pid)
  {
    if a.typ.kind.KProc? {
      WrapSum(a.typ.kind.valuesStart + a.val, a.typ.kind.valuesPerProc * pid);
    }
  }

  lemma WrapSum(v: nat, w: nat)
    ensures (v % TWO64 + w) % TWO64 == (v + w) % TWO64
  {
  }

  lemma PointerCarries(tgt: Target, i: u64, a: Arg)
    requires a.PointerArg? && Writable(a)
    ensures Carries(tgt, a, ArgOf(tgt, i, a))
  {
  }

  // ---- the visits of a call, place by place ----

  /** Paths behind a first step. */
  function Under(i: nat, ps: seq<Path>): (r: seq<Path>)
    ensures |r| == |ps| && forall k :: 0 <= k < |ps| ==> r[k] == [i] + ps[k]
  {
    seq(|ps|, k requires 0 <= k < |ps| => [i] + ps[k])
  }

  /** The places of a tree in the order of its visits. */
  function Places(a: Arg): seq<Path>
    decreases a, 0
  {
    [[]] +
    match a
    case GroupArg(_, inner) => PlacesFrom(inner, 0)
    case UnionArg(_, option) => Under(0, Places(option))
    case PointerArg(_, _, _, res) => if res.None? then [] else Under(0, Places(res.value))
    case _ => []
  }

  /** The places of the members from i on. */
  function PlacesFrom(args: seq<Arg>, i: nat): seq<Path>
    decreases args, |args| - i
  {
    if i >= |args| then [] else Under(i, Places(args[i])) + PlacesFrom(args, i + 1)
  }

  /** The address at a path of a tree that lies off bytes into the memory at base. */
  function AddrAt(tgt: Target, a: Arg, base: Option<u64>, off: nat, p: Path): Option<u64>
    requires Reach(a, p).Some?
    decreases p
  {
    if p == [] then Place(base, off)
    else
      match a
      case GroupArg(_, inner) => AddrAt(tgt, inner[p[0]], base, off + SizeSum(tgt, inner[..p[0]]), p[1..])
      case UnionArg(_, option) => AddrAt(tgt, option, base, off, p[1..])
      case PointerArg(_, _, _, res) => AddrAt(tgt, res.value, Some(PhysicalAddr(tgt, a)), 0, p[1..])
  }

  /** Visit v is the argument at path p of the tree. */
  ghost predicate VisitAt(tgt: Target, a: Arg, base: Option<u64>, off: nat, p: Path, v: Visit) {
    Reach(a, p) == Some(v.arg) && v.addr == AddrAt(tgt, a, base, off, p)
  }

  ghost predicate VisitAtArgs(tgt: Target, args: seq<Arg>, base: Option<u64>, off: nat, p: Path, v: Visit) {
    && p != [] && p[0] < |args|
    && VisitAt(tgt, args[p[0]], base, off + SizeSum(tgt, args[..p[0]]), p[1..], v)
  }

  ghost predicate AllAt(tgt: Target, a: Arg, base: Option<u64>, off: nat, ps: seq<Path>, vs: seq<Visit>) {
    |ps| == |vs| && forall k :: 0 <= k < |ps| ==> VisitAt(tgt, a, base, off, ps[k], vs[k])
  }

  ghost predicate AllAtArgs(tgt: Target, args: seq<Arg>, base: Option<u64>, off: nat, ps: seq<Path>, vs: seq<Visit>) {
    |ps| == |vs| && forall k :: 0 <= k < |ps| ==> VisitAtArgs(tgt, args, base, off, ps[k], vs[k])
  }

  lemma {:induction false} SumNext(tgt: Target, args: seq<Arg>, i: nat)
    requires i < |args|
    ensures SizeSum(tgt, args[..i + 1]) == SizeSum(tgt, args[..i]) + if BitfieldMiddle(args[i].typ) then 0
      else Size(tgt, args[i])
    decreases i
  {
    hide Size;
    if i > 0 {
      SumNext(tgt, args[1..], i - 1);
      assert args[..i + 1][1..] == args[1..][..i] && args[..i][1..] == args[1..][..i - 1];
    } else {
      assert args[..1][1..] == [] && args[..0] == [];
    }
  }

  /** Visits of a member are visits of its group. */
  lemma MemberAt(tgt: Target, args: seq<Arg>, base: Option<u64>, off: nat, i: nat, ps: seq<Path>, vs: seq<Visit>)
    requires i < |args| && AllAt(tgt, args[i], base, off + SizeSum(tgt, args[..i]), ps, vs)
    ensures AllAtArgs(tgt, args, base, off, Under(i, ps), vs)
  {
    hide VisitAt, SizeSum;
    forall k | 0 <= k < |ps|
      ensures VisitAtArgs(tgt, args, base, off, Under(i, ps)[k], vs[k])
    {
      assert Under(i, ps)[k][1..] == ps[k];
    }
  }

  lemma {:induction false} VisitsFromPlaced(tgt: Target, args: seq<Arg>, base: Option<u64>, off: nat, i: nat)
    requires i <= |args|
    ensures AllAtArgs(tgt, args, base, off, PlacesFrom(args, i),
                      VisitsSeq(tgt, args[i..], base, off + SizeSum(tgt, args[..i])))
    decreases args, |args| - i
  {
    hide VisitAtArgs, AllAtArgs, AllAt, SizeSum, Visits, Size;
    if i < |args| {
      var off1 := off + SizeSum(tgt, args[..i]);
      var ps, vs := Places(args[i]), Visits(tgt, args[i], base, off1);
      VisitsPlaced(tgt, args[i], base, off1);
      MemberAt(tgt, args, base, off, i, ps, vs);
      SumNext(tgt, args, i);
      VisitsFromPlaced(tgt, args, base, off, i + 1);
      var ps1, vs1 := PlacesFrom(args, i + 1), VisitsSeq(tgt, args[i + 1..], base, off + SizeSum(tgt, args[..i + 1]));
      BothAt(tgt, args, base, off, Under(i, ps), vs, ps1, vs1);
      assert args[i..][0] == args[i] && args[i..][1..] == args[i + 1..];
    } else {
      NothingAt(tgt, args, base, off);
    }
  }

  lemma NothingAt(tgt: Target, args: seq<Arg>, base: Option<u64>, off: nat)
    ensures AllAtArgs(tgt, args, base, off, [], [])
  {
  }

  lemma BothAt(tgt: Target, args: seq<Arg>, base: Option<u64>, off: nat, ps: seq<Path>, vs: seq<Visit>, qs: seq<Path>,
               ws: seq<Visit>)
    requires AllAtArgs(tgt, args, base, off, ps, vs) && AllAtArgs(tgt, args, base, off, qs, ws)
    ensures AllAtArgs(tgt, args, base, off, ps + qs, vs + ws)
  {
    hide VisitAtArgs;
  }

  /** A tree is visited at its places. */
  lemma {:induction false} VisitsPlaced(tgt: Target, a: Arg, base: Option<u64>, off: nat)
    ensures AllAt(tgt, a, base, off, Places(a), Visits(tgt, a, base, off))
    decreases a, 0
  {
    hide VisitAt, VisitAtArgs, AllAt, AllAtArgs, PhysicalAddr, Place;
    match a
    case GroupArg(_, inner) =>
      VisitsFromPlaced(tgt, inner, base, off, 0);
      assert inner[0..] == inner && SizeSum(tgt, inner[..0]) == 0;
      var ps, vs := PlacesFrom(inner, 0), VisitsSeq(tgt, inner, base, off);
      InGroup(tgt, a, base, off, ps, vs);
      AtFirst(tgt, a, base, off, ps, vs);
    case UnionArg(_, option) =>
      VisitsPlaced(tgt, option, base, off);
      var ps, vs := Places(option), Visits(tgt, option, base, off);
      InOnly(tgt, a, option, base, off, base, off, ps, vs);
      AtFirst(tgt, a, base, off, Under(0, ps), vs);
    case PointerArg(_, _, _, res) =>
      if res.Some? {
        var at := Some(PhysicalAddr(tgt, a));
        VisitsPlaced(tgt, res.value, at, 0);
        var ps, vs := Places(res.value), Visits(tgt, res.value, at, 0);
        InOnly(tgt, a, res.value, base, off, at, 0, ps, vs);
        AtFirst(tgt, a, base, off, Under(0, ps), vs);
      } else {
        AtFirst(tgt, a, base, off, [], []);
      }
    case _ => AtFirst(tgt, a, base, off, [], []);
  }

  lemma AtFirst(tgt: Target, a: Arg, base: Option<u64>, off: nat, ps: seq<Path>, vs: seq<Visit>)
    requires (ps == [] && vs == []) || AllAt(tgt, a, base, off, ps, vs)
    ensures AllAt(tgt, a, base, off, [[]] + ps, [Visit(a, Place(base, off))] + vs)
  {
    assert VisitAt(tgt, a, base, off, [], Visit(a, Place(base, off)));
    hide VisitAt;
  }

  lemma InGroup(tgt: Target, a: Arg, base: Option<u64>, off: nat, ps: seq<Path>, vs: seq<Visit>)
    requires a.GroupArg? && AllAtArgs(tgt, a.inner, base, off, ps, vs)
    ensures AllAt(tgt, a, base, off, ps, vs)
  {
    hide SizeSum;
    forall k | 0 <= k < |ps|
      ensures VisitAt(tgt, a, base, off, ps[k], vs[k])
    {
      assert VisitAtArgs(tgt, a.inner, base, off, ps[k], vs[k]);
    }
  }

  /** The option of a union, or what a pointer points to. */
  lemma InOnly(tgt: Target, a: Arg, b: Arg, base: Option<u64>, off: nat, base1: Option<u64>, off1: nat, ps: seq<Path>,
               vs: seq<Visit>)
    requires (a.UnionArg? && b == a.option && base1 == base && off1 == off)
      || (a.PointerArg? && a.res == Some(b) && base1 == Some(PhysicalAddr(tgt, a)) && off1 == 0)
    requires AllAt(tgt, b, base1, off1, ps, vs)
    ensures AllAt(tgt, a, base, off, Under(0, ps), vs)
  {
    hide PhysicalAddr;
    forall k | 0 <= k < |ps|
      ensures VisitAt(tgt, a, base, off, Under(0, ps)[k], vs[k])
    {
      assert VisitAt(tgt, b, base1, off1, ps[k], vs[k]);
      assert Under(0, ps)[k][1..] == ps[k];
    }
  }

  // ---- addresses ----

  lemma {:induction false} PartReached(tgt: Target, a: Arg, base: Option<u64>, off: nat, p: Path)
    requires Part(a, p).Some?
    ensures Reach(a, p) == Part(a, p) && AddrAt(tgt, a, base, off, p) == Place(base, off + Offset(tgt, a, p))
    decreases p
  {
    if p != [] {
      if a.GroupArg? {
        PartReached(tgt, a.inner[p[0]], base, off + SizeSum(tgt, a.inner[..p[0]]), p[1..]);
      } else {
        PartReached(tgt, a.option, base, off, p[1..]);
      }
    }
  }

  /** The address behind a pointer does not depend on where the pointer lies. */
  lemma {:induction false} PointeeReached(tgt: Target, a: Arg, base: Option<u64>, off: nat, at: Path, within: Path)
    requires IsPointer(Reach(a, at)) && Part(Reach(a, at).value.res.value, within).Some?
    ensures var pointer, p := Reach(a, at).value, at + [0] + within;
      && Reach(a, p) == Part(pointer.res.value, within)
      && AddrAt(tgt, a, base, off, p) ==
         Some((tgt.dataOffset + pointer.address + Offset(tgt, pointer.res.value, within)) % TWO64)
    decreases at
  {
    var p := at + [0] + within;
    if at == [] {
      assert p[0] == 0 && p[1..] == within;
      PartReached(tgt, a.res.value, Some(PhysicalAddr(tgt, a)), 0, within);
      WrapSum(tgt.dataOffset + a.address, Offset(tgt, a.res.value, within));
    } else {
      assert p[0] == at[0] && p[1..] == at[1..] + [0] + within;
      if a.GroupArg? {
        PointeeReached(tgt, a.inner[p[0]], base, off + SizeSum(tgt, a.inner[..p[0]]), at[1..], within);
      } else if a.UnionArg? {
        PointeeReached(tgt, a.option, base, off, at[1..], within);
      } else {
        PointeeReached(tgt, a.res.value, Some(PhysicalAddr(tgt, a)), 0, at[1..], within);
      }
    }
  }

  /** A path stays in the object or leads through a last pointer. */
  lemma {:induction false} LastPointer(a: Arg, p: Path) returns (at: Path, within: Path)
    requires Reach(a, p).Some? && Part(a, p).None?
    ensures p == at + [0] + within && IsPointer(Reach(a, at)) && Part(Reach(a, at).value.res.value, within).Some?
    decreases p
  {
    var next := if a.GroupArg? then a.inner[p[0]] else if a.UnionArg? then a.option else a.res.value;
    if a.PointerArg? && Part(next, p[1..]).Some? {
      at, within := [], p[1..];
    } else {
      var at1;
      at1, within := LastPointer(next, p[1..]);
      at := [p[0]] + at1;
      assert at[1..] == at1;
    }
    assert p == [p[0]] + p[1..];
  }

  /** What the place of a visited argument says about its address. */
  ghost predicate Placed(tgt: Target, args: seq<Arg>, p: Path, v: Visit) {
    && ReachArgs(args, p) == Some(v.arg) && (v.addr.Some? <==> InMemory(args, p))
    && forall at, within :: Home(args, p, at, within) ==> v.addr == Some(Address(tgt, args, at, within))
  }

  lemma HomeAddress(tgt: Target, args: seq<Arg>, p: Path, v: Visit, at: Path, within: Path)
    requires VisitAtArgs(tgt, args, None, 0, p, v) && Home(args, p, at, within)
    ensures v.addr == Some(Address(tgt, args, at, within))
  {
    hide Part, Offset, Reach, AddrAt, SizeSum;
    assert at != [];
    assert p[1..] == at[1..] + [0] + within && p[0] == at[0];
    PointeeReached(tgt, args[p[0]], None, SizeSum(tgt, args[..p[0]]), at[1..], within);
  }

  lemma VisitIsPlaced(tgt: Target, args: seq<Arg>, p: Path, v: Visit)
    requires VisitAtArgs(tgt, args, None, 0, p, v)
    ensures Placed(tgt, args, p, v)
  {
    hide Offset, Part, AddrAt;
    forall at, within | Home(args, p, at, within)
      ensures v.addr == Some(Address(tgt, args, at, within))
    {
      HomeAddress(tgt, args, p, v, at, within);
    }
    if v.addr.Some? {
      InMemoryIf(tgt, args, p, v);
    }
  }

  lemma InMemoryIf(tgt: Target, args: seq<Arg>, p: Path, v: Visit)
    requires VisitAtArgs(tgt, args, None, 0, p, v) && v.addr.Some?
    ensures InMemory(args, p)
  {
    hide Part, Offset, Reach, AddrAt, SizeSum;
    var a := args[p[0]];
    if Part(a, p[1..]).Some? {
      PartReached(tgt, a, None, SizeSum(tgt, args[..p[0]]), p[1..]);
    } else {
      var at1, within := LastPointer(a, p[1..]);
      var at := [p[0]] + at1;
      assert at[1..] == at1 && p == [p[0]] + p[1..] == at + [0] + within;
      assert Home(args, p, at, within);
    }
  }

  // ---- all places, in order ----

  lemma {:induction false} EveryPlace(a: Arg, p: Path)
    requires Reach(a, p).Some?
    ensures p in Places(a)
    decreases p
  {
    if p == [] {
      assert Places(a)[0] == [];
    } else {
      assert p == [p[0]] + p[1..];
      if a.GroupArg? {
        EveryPlace(a.inner[p[0]], p[1..]);
        MemberPlace(a.inner, 0, p);
      } else if a.UnionArg? {
        EveryPlace(a.option, p[1..]);
        UnderHas(0, Places(a.option), p[1..]);
      } else {
        EveryPlace(a.res.value, p[1..]);
        UnderHas(0, Places(a.res.value), p[1..]);
      }
    }
  }

  lemma UnderHas(i: nat, ps: seq<Path>, p: Path)
    requires p in ps
    ensures [i] + p in Under(i, ps)
  {
    var k :| 0 <= k < |ps| && ps[k] == p;
    assert Under(i, ps)[k] == [i] + p;
  }

  lemma {:induction false} MemberPlace(args: seq<Arg>, i: nat, p: Path)
    requires i <= |args| && p != [] && i <= p[0] < |args| && p[1..] in Places(args[p[0]])
    ensures p in PlacesFrom(args, i)
    decreases |args| - i
  {
    if p[0] == i {
      UnderHas(i, Places(args[i]), p[1..]);
      assert p == [i] + p[1..];
    } else {
      MemberPlace(args, i + 1, p);
    }
  }

  lemma UnderAscending(i: nat, ps: seq<Path>)
    requires Ascending(ps)
    ensures Ascending(Under(i, ps))
  {
    forall k, l | 0 <= k < l < |ps|
      ensures Before(Under(i, ps)[k], Under(i, ps)[l])
    {
      assert Under(i, ps)[k][1..] == ps[k] && Under(i, ps)[l][1..] == ps[l];
    }
  }

  lemma RootFirst(ps: seq<Path>)
    requires Ascending(ps) && forall k :: 0 <= k < |ps| ==> ps[k] != []
    ensures Ascending([[]] + ps)
  {
  }

  lemma {:induction false} PlacesAscend(a: Arg)
    ensures Ascending(Places(a))
    decreases a, 0
  {
    hide Before, Ascending;
    match a
    case GroupArg(_, inner) =>
      FromAscend(inner, 0);
      RootFirst(PlacesFrom(inner, 0));
    case UnionArg(_, option) =>
      PlacesAscend(option);
      UnderAscending(0, Places(option));
      RootFirst(Under(0, Places(option)));
    case PointerArg(_, _, _, res) =>
      if res.Some? {
        PlacesAscend(res.value);
        UnderAscending(0, Places(res.value));
        RootFirst(Under(0, Places(res.value)));
      } else {
        RootOnly();
      }
    case _ => RootOnly();
  }

  lemma RootOnly()
    ensures Ascending([[]] + [])
  {
  }

  lemma {:induction false} FromAscend(args: seq<Arg>, i: nat)
    ensures Ascending(PlacesFrom(args, i))
    ensures forall k :: 0 <= k < |PlacesFrom(args, i)| ==>
      PlacesFrom(args, i)[k] != [] && PlacesFrom(args, i)[k][0] >= i
    decreases args, |args| - i
  {
    hide Before, Ascending;
    if i < |args| {
      PlacesAscend(args[i]);
      UnderAscending(i, Places(args[i]));
      FromAscend(args, i + 1);
      Joined(i, Under(i, Places(args[i])), PlacesFrom(args, i + 1));
    } else {
      NoneAscend();
    }
  }

  lemma NoneAscend()
    ensures Ascending([])
  {
  }

  lemma Joined(i: nat, ps: seq<Path>, qs: seq<Path>)
    requires Ascending(ps) && Ascending(qs)
    requires forall k :: 0 <= k < |ps| ==> ps[k] != [] && ps[k][0] == i
    requires forall k :: 0 <= k < |qs| ==> qs[k] != [] && qs[k][0] > i
    ensures Ascending(ps + qs)
  {
  }

  // ---- instructions of a call ----

  /** The visits that are kept, by index from k on. */
  function Chosen(keep: seq<bool>, k: nat): seq<nat>
    decreases keep
  {
    if keep == [] then [] else (if keep[0] then [k] else []) + Chosen(keep[1..], k + 1)
  }

  /** ks are the indices of the kept visits, in order. */
  ghost predicate Indexes(keep: seq<bool>, k: nat, ks: seq<nat>) {
    && (forall j :: 0 <= j < |ks| ==> k <= ks[j] < k + |keep| && keep[ks[j] - k])
    && (forall i, j :: 0 <= i < j < |ks| ==> ks[i] < ks[j])
    && (forall i :: 0 <= i < |keep| && keep[i] ==> k + i in ks)
  }

  lemma IndexesNext(keep: seq<bool>, k: nat, rest: seq<nat>)
    requires keep != [] && Indexes(keep[1..], k + 1, rest)
    ensures Indexes(keep, k, (if keep[0] then [k] else []) + rest)
  {
    var ks := (if keep[0] then [k] else []) + rest;
    forall i | 0 <= i < |keep| && keep[i]
      ensures k + i in ks
    {
      if i > 0 {
        assert keep[1..][i - 1];
        assert k + 1 + (i - 1) in rest;
      }
    }
    forall j | 0 <= j < |ks|
      ensures k <= ks[j] < k + |keep| && keep[ks[j] - k]
    {
      var j' := if keep[0] then j - 1 else j;
      if j' >= 0 {
        assert ks[j] == rest[j'] && keep[1..][rest[j'] - (k + 1)];
      }
    }
  }

  lemma {:induction false} ChosenAre(keep: seq<bool>, k: nat)
    ensures Indexes(keep, k, Chosen(keep, k))
    decreases keep
  {
    if keep != [] {
      hide Indexes;
      ChosenAre(keep[1..], k + 1);
      IndexesNext(keep, k, Chosen(keep[1..], k + 1));
    }
  }

  /** Which visits are copied in, and which hold a used result. */
  function Emits(tgt: Target, vs: seq<Visit>): (r: seq<bool>)
    ensures |r| == |vs|
  {
    seq(|vs|, k requires 0 <= k < |vs| => EmitsCopyin(tgt, vs[k]))
  }

  function Defines(used: set<nat>, vs: seq<Visit>): (r: seq<bool>)
    ensures |r| == |vs|
  {
    seq(|vs|, k requires 0 <= k < |vs| => Used(used, vs[k].arg))
  }

  lemma {:induction false} CopyinsChosen(tgt: Target, ix: Numbering, vs: seq<Visit>, k: nat)
    requires WritableVisits(tgt, vs)
    ensures var ks, cins := Chosen(Emits(tgt, vs), k), MeantCopyins(tgt, ix, vs);
      |ks| == |cins| && forall j :: 0 <= j < |ks| ==>
        && k <= ks[j] < k + |vs| && EmitsCopyin(tgt, vs[ks[j] - k])
        && cins[j] == CopyinOf(tgt, ix, vs[ks[j] - k])
    decreases vs
  {
    hide ArgOf, CopiedIn, Writable;
    if vs != [] {
      CopyinsChosen(tgt, ix, vs[1..], k + 1);
      assert Emits(tgt, vs)[1..] == Emits(tgt, vs[1..]);
    }
  }

  function CopyinOf(tgt: Target, ix: Numbering, v: Visit): Copyin
    requires EmitsCopyin(tgt, v) && Writable(v.arg)
  {
    Copyin(v.addr.value, ArgOf(tgt, NumberOf(ix, RefOf(v.arg)), v.arg))
  }

  lemma {:induction false} CopyoutsChosen(tgt: Target, used: set<nat>, ix: Numbering, vs: seq<Visit>, k: nat)
    ensures var ks, couts := Chosen(Defines(used, vs), k), MeantCopyouts(tgt, used, ix, vs);
      |ks| == |couts| && forall j :: 0 <= j < |ks| ==>
        && k <= ks[j] < k + |vs| && Used(used, vs[ks[j] - k].arg)
        && couts[j] == CopyoutOf(tgt, ix, vs[ks[j] - k])
    decreases vs
  {
    hide Size;
    if vs != [] {
      CopyoutsChosen(tgt, used, ix, vs[1..], k + 1);
      assert Defines(used, vs)[1..] == Defines(used, vs[1..]);
    }
  }

  function CopyoutOf(tgt: Target, ix: Numbering, v: Visit): Copyout
    requires v.arg.ResultArg?
  {
    Copyout(NumberOf(ix, Some(v.arg.id)), if v.addr.Some? then v.addr.value else 0, Wrap64(Size(tgt, v.arg)))
  }

  function Select(ps: seq<Path>, ks: seq<nat>): (r: seq<Path>)
    requires forall j :: 0 <= j < |ks| ==> ks[j] < |ps|
    ensures |r| == |ks| && forall j :: 0 <= j < |ks| ==> r[j] == ps[ks[j]]
  {
    seq(|ks|, j requires 0 <= j < |ks| => ps[ks[j]])
  }

  /** The visits of the arguments of a call and their places. */
  lemma ArgsPlaced(tgt: Target, args: seq<Arg>)
    ensures var ps, vs := PlacesFrom(args, 0), VisitsSeq(tgt, args, None, 0);
      && |ps| == |vs| && Ascending(ps) && (forall k :: 0 <= k < |ps| ==> Placed(tgt, args, ps[k], vs[k]))
      && forall p :: ReachArgs(args, p).Some? ==> p in ps
  {
    hide Visits, VisitsSeq, Places, PlacesFrom, Placed, VisitAtArgs, Reach;
    var ps, vs := PlacesFrom(args, 0), VisitsSeq(tgt, args, None, 0);
    VisitsFromPlaced(tgt, args, None, 0, 0);
    assert args[0..] == args && SizeSum(tgt, args[..0]) == 0;
    FromAscend(args, 0);
    forall k | 0 <= k < |ps|
      ensures Placed(tgt, args, ps[k], vs[k])
    {
      assert VisitAtArgs(tgt, args, None, 0, ps[k], vs[k]);
      VisitIsPlaced(tgt, args, ps[k], vs[k]);
    }
    forall p | ReachArgs(args, p).Some?
      ensures p in ps
    {
      EveryPlace(args[p[0]], p[1..]);
      MemberPlace(args, 0, p);
    }
  }

  /** The argument is input that takes space: not a group, a union or padding, and not only output. */
  predicate IsInput(tgt: Target, a: Arg) {
    && !a.GroupArg? && !a.UnionArg? && !IsPad(a.typ)
    && CommonOf(tgt, a.typ).dir in {DirIn, DirInOut} && Size(tgt, a) > 0
  }

  /** The copyin stores the argument at place p, at the address of that place. */
  ghost predicate CopiesIn(tgt: Target, args: seq<Arg>, p: Path, cin: Copyin) {
    && InMemory(args, p) && ReachArgs(args, p).Some? && IsInput(tgt, ReachArgs(args, p).value)
    && Carries(tgt, ReachArgs(args, p).value, cin.arg)
    && forall at, within :: Home(args, p, at, within) ==> cin.addr == Address(tgt, args, at, within)
  }

  lemma CopiedAt(tgt: Target, args: seq<Arg>, ix: Numbering, p: Path, v: Visit)
    requires Placed(tgt, args, p, v) && EmitsCopyin(tgt, v) && Writable(v.arg)
    ensures CopiesIn(tgt, args, p, CopyinOf(tgt, ix, v))
  {
    hide Address, InMemory, Carries, ArgOf, Reach, Part;
    ArgCarries(tgt, NumberOf(ix, RefOf(v.arg)), v.arg);
  }

  /** The copyins of a call: one for every input argument that lies in memory, in order. */
  lemma CallCopyins(tgt: Target, ix: Numbering, args: seq<Arg>) returns (places: seq<Path>)
    requires WritableVisits(tgt, VisitsSeq(tgt, args, None, 0))
    ensures var cins := MeantCopyins(tgt, ix, VisitsSeq(tgt, args, None, 0));
      |places| == |cins| && forall j :: 0 <= j < |places| ==> CopiesIn(tgt, args, places[j], cins[j])
    ensures Ascending(places)
    ensures forall p :: InMemory(args, p) && IsInput(tgt, ReachedAt(args, p)) ==> p in places
  {
    hide Visits, VisitsSeq, Places, PlacesFrom, CopiesIn, InMemory, ReachArgs, Chosen;
    var ps, vs := PlacesFrom(args, 0), VisitsSeq(tgt, args, None, 0);
    ArgsPlaced(tgt, args);
    var keep := Emits(tgt, vs);
    var ks := Chosen(keep, 0);
    ChosenAre(keep, 0);
    CopyinsChosen(tgt, ix, vs, 0);
    places := Select(ps, ks);
    forall j | 0 <= j < |places|
      ensures CopiesIn(tgt, args, places[j], MeantCopyins(tgt, ix, vs)[j])
    {
      CopiedAt(tgt, args, ix, ps[ks[j]], vs[ks[j]]);
    }
    forall p | InMemory(args, p) && IsInput(tgt, ReachedAt(args, p))
      ensures p in places
    {
      HomeReached(args, p);
      var k :| 0 <= k < |ps| && ps[k] == p;
      assert Placed(tgt, args, p, vs[k]) && keep[k];
      var j :| 0 <= j < |ks| && ks[j] == 0 + k;
      assert places[j] == p;
    }
  }

  /** The argument at a place in memory. */
  ghost function ReachedAt(args: seq<Arg>, p: Path): Arg
    requires InMemory(args, p)
  {
    HomeReached(args, p);
    ReachArgs(args, p).value
  }

  lemma HomeReached(args: seq<Arg>, p: Path)
    requires InMemory(args, p)
    ensures ReachArgs(args, p).Some?
  {
    hide Part, Reach, Offset;
    var at, within :| Home(args, p, at, within);
    assert p[0] == at[0] && p[1..] == at[1..] + [0] + within;
    PointeeFound(args[p[0]], at[1..], within);
  }

  lemma {:induction false} PointeeFound(a: Arg, at: Path, within: Path)
    requires IsPointer(Reach(a, at)) && Part(Reach(a, at).value.res.value, within).Some?
    ensures Reach(a, at + [0] + within).Some?
    decreases at
  {
    var p := at + [0] + within;
    if at == [] {
      assert p[0] == 0 && p[1..] == within;
      PartFound(a.res.value, within);
    } else {
      assert p[0] == at[0] && p[1..] == at[1..] + [0] + within;
      PointeeFound(if a.GroupArg? then a.inner[p[0]] else if a.UnionArg? then a.option else a.res.value, at[1..],
                   within);
    }
  }

  lemma {:induction false} PartFound(a: Arg, p: Path)
    requires Part(a, p).Some?
    ensures Reach(a, p) == Part(a, p)
    decreases p
  {
    if p != [] {
      PartFound(if a.GroupArg? then a.inner[p[0]] else a.option, p[1..]);
    }
  }

  /** The copyout reads the result at place p: at its address, or nowhere if it does not lie in memory. */
  ghost predicate CopiesOut(tgt: Target, used: set<nat>, args: seq<Arg>, p: Path, cout: Copyout) {
    && ReachArgs(args, p).Some? && Used(used, ReachArgs(args, p).value)
    && cout.size == CommonOf(tgt, ReachArgs(args, p).value.typ).size
    && (forall at, within :: Home(args, p, at, within) ==> cout.addr == Address(tgt, args, at, within))
    && (!InMemory(args, p) ==> cout.addr == 0)
  }

  lemma CallCopyouts(tgt: Target, used: set<nat>, ix: Numbering, args: seq<Arg>) returns (places: seq<Path>)
    ensures var couts := MeantCopyouts(tgt, used, ix, VisitsSeq(tgt, args, None, 0));
      |places| == |couts| && forall j :: 0 <= j < |places| ==> CopiesOut(tgt, used, args, places[j], couts[j])
    ensures Ascending(places)
    ensures forall p :: ReachArgs(args, p).Some? && Used(used, ReachArgs(args, p).value) ==> p in places
  {
    hide Visits, VisitsSeq, Places, PlacesFrom, CopiesOut, InMemory, ReachArgs, Chosen;
    var ps, vs := PlacesFrom(args, 0), VisitsSeq(tgt, args, None, 0);
    ArgsPlaced(tgt, args);
    var keep := Defines(used, vs);
    var ks := Chosen(keep, 0);
    ChosenAre(keep, 0);
    CopyoutsChosen(tgt, used, ix, vs, 0);
    places := Select(ps, ks);
    forall j | 0 <= j < |places|
      ensures CopiesOut(tgt, used, args, places[j], MeantCopyouts(tgt, used, ix, vs)[j])
    {
      ReadAt(tgt, used, args, ix, ps[ks[j]], vs[ks[j]]);
    }
    forall p | ReachArgs(args, p).Some? && Used(used, ReachArgs(args, p).value)
      ensures p in places
    {
      var k :| 0 <= k < |ps| && ps[k] == p;
      assert Placed(tgt, args, p, vs[k]) && keep[k];
      var j :| 0 <= j < |ks| && ks[j] == 0 + k;
      assert places[j] == p;
    }
  }

  lemma ReadAt(tgt: Target, used: set<nat>, args: seq<Arg>, ix: Numbering, p: Path, v: Visit)
    requires Placed(tgt, args, p, v) && Used(used, v.arg)
    ensures CopiesOut(tgt, used, args, p, CopyoutOf(tgt, ix, v))
  {
    hide Address, InMemory, Reach, Part;
  }

  // ---- compiled programs ----

  /** The compiled calls are the meant ones. */
  lemma CompiledAt(tgt: Target, used: set<nat>, cs: seq<Call>, csums: seq<seq<Copyin>>, n: nat)
    requires |csums| == |cs| && Compilable(tgt, used, cs) && n < |cs|
    ensures forall i :: 0 <= i < |cs| ==> WritableCall(tgt, cs[i])
    ensures var ix, calls := Positions(AllDefiners(tgt, used, cs)), Compiled(tgt, used, cs, csums);
      |calls| == |cs| && calls[n] == MeantCall(tgt, used, ix, cs[n], csums[n])
  {
    hide WritableCall, MeantCall, Positions, Compiled;
    CompiledMeant(tgt, used, cs, csums);
    MeantAt(tgt, used, Positions(AllDefiners(tgt, used, cs)), cs, csums, n);
  }

  lemma {:induction false} CopyinsSplit(tgt: Target, ix: Numbering, vs: seq<Visit>, ws: seq<Visit>)
    requires WritableVisits(tgt, vs + ws)
    ensures WritableVisits(tgt, ws) && ((forall k :: 0 <= k < |vs| ==> vs[k].addr.None?) ==>
      MeantCopyins(tgt, ix, vs + ws) == MeantCopyins(tgt, ix, ws))
    decreases vs
  {
    hide ArgOf, CopiedIn, Writable;
    if vs == [] {
      assert vs + ws == ws;
    } else {
      assert (vs + ws)[0] == vs[0] && (vs + ws)[1..] == vs[1..] + ws;
      CopyinsSplit(tgt, ix, vs[1..], ws);
    }
  }

  lemma CallCopyinsOnly(tgt: Target, ix: Numbering, c: Call)
    requires WritableCall(tgt, c)
    ensures WritableVisits(tgt, ArgVisits(tgt, c))
    ensures MeantCopyins(tgt, ix, CallVisits(tgt, c)) == MeantCopyins(tgt, ix, ArgVisits(tgt, c))
  {
    hide ArgOf, CopiedIn, VisitsSeq;
    var ret := if c.ret.Some? then Visits(tgt, c.ret.value, None, 0) else [];
    CopyinsSplit(tgt, ix, ret, ArgVisits(tgt, c));
  }

  /** The copyins of a compiled call, before the checksums: there is exactly one for every input argument behind a
      pointer, in the order of the arguments. It says what the argument is, and its address is that of memory plus
      that of the pointer plus the bytes in front of the argument, modulo 2^64. */
  lemma CopyinAddresses(tgt: Target, used: set<nat>, cs: seq<Call>, csums: seq<seq<Copyin>>, n: nat)
    returns (places: seq<Path>)
    requires |csums| == |cs| && Compilable(tgt, used, cs) && n < |cs|
    ensures forall i :: 0 <= i < |cs| ==> WritableCall(tgt, cs[i])
    ensures |Compiled(tgt, used, cs, csums)| == |cs|
    ensures var cins := Compiled(tgt, used, cs, csums)[n].copyin;
      && |cins| == |places| + |csums[n]| && cins[|places|..] == csums[n]
      && forall j :: 0 <= j < |places| ==> CopiesIn(tgt, cs[n].args, places[j], cins[j])
    ensures Ascending(places)
    ensures forall p :: InMemory(cs[n].args, p) && IsInput(tgt, ReachedAt(cs[n].args, p)) ==> p in places
  {
    hide CopiesIn, InMemory, IsInput, VisitsSeq, CallVisits, MeantCopyouts, MeantCopyins, Compiled, Positions, ArgOf,
      RefersBack;
    CompiledAt(tgt, used, cs, csums, n);
    var ix := Positions(AllDefiners(tgt, used, cs));
    CallCopyinsOnly(tgt, ix, cs[n]);
    places := CallCopyins(tgt, ix, cs[n].args);
  }

  /** The copyouts of a compiled call: exactly one for every argument whose result is used, in order. One that does
      not lie in memory is read from address 0. */
  lemma CopyoutAddresses(tgt: Target, used: set<nat>, cs: seq<Call>, csums: seq<seq<Copyin>>, n: nat)
    returns (places: seq<Path>)
    requires |csums| == |cs| && Compilable(tgt, used, cs) && n < |cs|
    ensures forall i :: 0 <= i < |cs| ==> WritableCall(tgt, cs[i])
    ensures |Compiled(tgt, used, cs, csums)| == |cs|
    ensures var couts := Compiled(tgt, used, cs, csums)[n].copyout;
      |couts| == |places| && forall j :: 0 <= j < |places| ==> CopiesOut(tgt, used, cs[n].args, places[j], couts[j])
    ensures Ascending(places)
    ensures forall p :: ReachArgs(cs[n].args, p).Some? && Used(used, ReachArgs(cs[n].args, p).value) ==> p in places
  {
    hide CopiesOut, ReachArgs, VisitsSeq, CallVisits, MeantCopyouts, MeantCopyins, Compiled, Positions, ArgOf,
      RefersBack;
    CompiledAt(tgt, used, cs, csums, n);
    places := CallCopyouts(tgt, used, Positions(AllDefiners(tgt, used, cs)), cs[n].args);
  }

  /** The arguments of a compiled call say what the arguments of the call are. */
  lemma ArgsCarried(tgt: Target, used: set<nat>, cs: seq<Call>, csums: seq<seq<Copyin>>, n: nat)
    requires |csums| == |cs| && Compilable(tgt, used, cs) && n < |cs|
    ensures forall i :: 0 <= i < |cs| ==> WritableCall(tgt, cs[i])
    ensures |Compiled(tgt, used, cs, csums)| == |cs|
    ensures var e := Compiled(tgt, used, cs, csums)[n];
      && e.meta == Some(cs[n].meta) && |e.args| == |cs[n].args|
      && forall i :: 0 <= i < |cs[n].args| ==> Carries(tgt, cs[n].args[i], e.args[i])
  {
    hide Carries, VisitsSeq, CallVisits, MeantCopyouts, MeantCopyins, Compiled, Positions, ArgOf, RefersBack;
    CompiledAt(tgt, used, cs, csums, n);
    var ix := Positions(AllDefiners(tgt, used, cs));
    var e, args := MeantCall(tgt, used, ix, cs[n], csums[n]), cs[n].args;
    forall i | 0 <= i < |args|
      ensures Carries(tgt, args[i], e.args[i])
    {
      ArgCarries(tgt, NumberOf(ix, RefOf(args[i])), args[i]);
    }
  }

  // ---- objects lie in memory ----

  /** Every member ends inside its group or union: what the declared sizes promise. */
  ghost predicate Contains(tgt: Target, a: Arg)
    decreases a
  {
    match a
    case GroupArg(_, inner) =>
      forall i :: 0 <= i < |inner| ==>
        Contains(tgt, inner[i]) && SizeSum(tgt, inner[..i]) + Size(tgt, inner[i]) <= Size(tgt, a)
    case UnionArg(_, option) => Contains(tgt, option) && Size(tgt, option) <= Size(tgt, a)
    case _ => true
  }

  lemma {:induction false} PartInside(tgt: Target, a: Arg, p: Path)
    requires Contains(tgt, a) && Part(a, p).Some?
    ensures Offset(tgt, a, p) + Size(tgt, Part(a, p).value) <= Size(tgt, a)
    decreases p
  {
    hide Size, SizeSum;
    if p != [] {
      PartInside(tgt, if a.GroupArg? then a.inner[p[0]] else a.option, p[1..]);
    }
  }

  lemma {:induction false} ValidPointer(tgt: Target, a: Arg, t: Type, seen: set<nat>, at: Path)
    requires ValidateArg(tgt, a, t, seen).Some? && Reach(a, at).Some? && Reach(a, at).value.PointerArg?
    ensures ValidAddress(tgt, Reach(a, at).value) && (Reach(a, at).value.res.Some? ==> Reach(a, at).value.vmaSize == 0)
    decreases at, 0
  {
    hide Size, ValidAddress, ValidConst, ValidData;
    if at != [] {
      match a
      case GroupArg(typ, args) =>
        ValidMember(tgt, args, if typ.StructT? then Desc(tgt, typ.key).fields else Repeat(typ.elem, |args|), seen, at);
      case UnionArg(typ, option) =>
        ValidPointer(tgt, option, FindField(Desc(tgt, typ.key).fields, FieldName(option.typ)).value, seen, at[1..]);
      case PointerArg(typ, _, _, res) => ValidPointer(tgt, res.value, typ.elem, seen, at[1..]);
    }
  }

  lemma {:induction false} ValidMember(tgt: Target, args: seq<Arg>, types: seq<Type>, seen: set<nat>, at: Path)
    requires |args| == |types| && ValidateSeq(tgt, args, types, seen).Some?
    requires ReachArgs(args, at).Some? && ReachArgs(args, at).value.PointerArg?
    ensures var a := ReachArgs(args, at).value; ValidAddress(tgt, a) && (a.res.Some? ==> a.vmaSize == 0)
    decreases at[1..], |args|
  {
    hide ValidAddress, ValidateArg;
    if at[0] == 0 {
      ValidPointer(tgt, args[0], types[0], seen, at[1..]);
    } else {
      var next := [at[0] - 1] + at[1..];
      assert next[1..] == at[1..] && args[1..][next[0]] == args[at[0]];
      ValidMember(tgt, args[1..], types[1..], ValidateArg(tgt, args[0], types[0], seen).value, next);
    }
  }

  lemma {:induction false} ValidCallAt(tgt: Target, cs: seq<Call>, seen: set<nat>, n: nat) returns (seen1: set<nat>)
    requires ValidateCalls(tgt, cs, seen).Some? && n < |cs|
    ensures ValidateCall(tgt, cs[n], seen1).Some?
    decreases n
  {
    hide ValidateCall;
    if n == 0 {
      seen1 := seen;
    } else {
      seen1 := ValidCallAt(tgt, cs[1..], ValidateCall(tgt, cs[0], seen).value, n - 1);
    }
  }

  /** In a valid program an object behind a pointer lies in memory exactly if it is not larger than memory, and a
      special pointer has a fixed address. */
  lemma ObjectInMemory(tgt: Target, p: Prog, n: nat, at: Path)
    requires Valid(tgt, p) && n < |p.calls| && 2 * MaxMem(tgt) < TWO64
    requires ReachArgs(p.calls[n].args, at).Some? && ReachArgs(p.calls[n].args, at).value.PointerArg?
    ensures var a := ReachArgs(p.calls[n].args, at).value;
      && (a.res.Some? ==> (a.address + Size(tgt, a.res.value) <= MaxMem(tgt) <==>
            Size(tgt, a.res.value) <= MaxMem(tgt)))
      && (IsSpecial(a) ==> exists k: nat :: k < 16 && k < |tgt.specialPointers| && a.address == SpecialAddress(k))
  {
    hide ValidateArg, Size, MaxMem, Reach;
    var seen := ValidCallAt(tgt, p.calls, {}, n);
    var c := p.calls[n];
    ValidMember(tgt, c.args, tgt.syscalls[c.meta].args, seen, at);
    var a := ReachArgs(c.args, at).value;
    if IsSpecial(a) {
      var k := Neg64(a.address);
      assert a.address == SpecialAddress(k);
    }
  }

  /** A valid pointer to an object that does not lie in memory: its size wraps around. */
  lemma HugeObject(tgt: Target)
    ensures var out := BufferT(Common("a", 0, DirOut, false, true), BlobRand);
      var data := DataArg(out, [], TWO64 - 1);
      var a := PointerArg(PtrT(Common("p", 8, DirIn, false, false), out), 1, 0, Some(data));
      (MaxMem(tgt) > 1 ==> ValidAddress(tgt, a)) && Size(tgt, data) == TWO64 - 1
  {
  }

  /** So every copyin of a valid program stays in memory, if objects are not larger than memory and members lie
      inside their groups. */
  lemma CopyinInMemory(tgt: Target, p: Prog, n: nat, place: Path, cin: Copyin, at: Path, within: Path)
    returns (d: nat)
    requires Valid(tgt, p) && n < |p.calls| && 2 * MaxMem(tgt) < TWO64
    requires CopiesIn(tgt, p.calls[n].args, place, cin) && Home(p.calls[n].args, place, at, within)
    requires var a := ReachArgs(p.calls[n].args, at).value;
      Contains(tgt, a.res.value) && Size(tgt, a.res.value) <= MaxMem(tgt)
    ensures ReachArgs(p.calls[n].args, place).Some?
    ensures cin.addr == (tgt.dataOffset + d) % TWO64
    ensures d + Size(tgt, ReachArgs(p.calls[n].args, place).value) <= MaxMem(tgt)
  {
    hide Size, MaxMem, Reach, Offset, Contains, Carries;
    var args := p.calls[n].args;
    var a := ReachArgs(args, at).value;
    ObjectInMemory(tgt, p, n, at);
    PartInside(tgt, a.res.value, within);
    assert place[0] == at[0] && place[1..] == at[1..] + [0] + within;
    PointeeReached(tgt, args[place[0]], None, 0, at[1..], within);
    d := a.address + Offset(tgt, a.res.value, within);
  }

  // ---- no two arguments share memory or per-process values ----

  lemma {:induction false} SumsAscend(tgt: Target, args: seq<Arg>, i: nat, j: nat)
    requires i < j <= |args| && !BitfieldMiddle(args[i].typ)
    ensures SizeSum(tgt, args[..i]) + Size(tgt, args[i]) <= SizeSum(tgt, args[..j])
    decreases j
  {
    hide Size, SizeSum;
    SumNext(tgt, args, j - 1);
    if i < j - 1 {
      SumsAscend(tgt, args, i, j - 1);
    }
  }

  /** No step of the path is to a bitfield that shares its unit with a later one. */
  ghost predicate OwnSpace(a: Arg, p: Path)
    requires Part(a, p).Some?
    decreases p
  {
    p == [] || if a.GroupArg? then !BitfieldMiddle(a.inner[p[0]].typ) && OwnSpace(a.inner[p[0]], p[1..])
    else OwnSpace(a.option, p[1..])
  }

  /** Of two parts of an object, neither of which is part of the other, the one that comes first ends before the
      other begins, unless they are bitfields of one unit. */
  lemma {:induction false} PartsApart(tgt: Target, a: Arg, p: Path, q: Path)
    requires Contains(tgt, a) && Part(a, p).Some? && Part(a, q).Some? && Before(p, q) && !(p <= q) && OwnSpace(a, p)
    ensures Offset(tgt, a, p) + Size(tgt, Part(a, p).value) <= Offset(tgt, a, q)
    decreases p
  {
    hide Size, SizeSum;
    assert p != [] && q != [];
    if p[0] == q[0] {
      assert p[1..] <= q[1..] ==> p <= q;
      PartsApart(tgt, if a.GroupArg? then a.inner[p[0]] else a.option, p[1..], q[1..]);
    } else {
      PartInside(tgt, a.inner[p[0]], p[1..]);
      SumsAscend(tgt, a.inner, p[0], q[0]);
    }
  }

  /** A group of variable size ends at the next multiple of its alignment. */
  lemma AlignedUp(size: nat, align: nat)
    requires align > 0
    ensures size <= AlignUp(size, align) < size + align && AlignUp(size, align) % align == 0
  {
    var r := size % align;
    DivisionIs(size, align);
    if r != 0 {
      assert size + (align - r) == (size / align + 1) * align;
      Numbers.DivIs(size / align + 1, align, 0);
    }
  }

  lemma DivisionIs(n: nat, d: nat)
    requires d > 0
    ensures n == n / d * d + n % d && n % d < d
  {
  }

  /** Different processes use different per-process values, as long as their ranges fit. */
  lemma ProcessesApart(kind: IntKind, v: u64, w: u64, pid: nat, pid1: nat)
    requires kind.KProc? && v < kind.valuesPerProc && w < kind.valuesPerProc && pid < pid1
    requires v != PROC_DEFAULT && w != PROC_DEFAULT
    requires kind.valuesStart + kind.valuesPerProc * (pid1 + 1) <= TWO64
    ensures ValueFor(kind, v, pid) < ValueFor(kind, w, pid1)
  {
    var per, start := kind.valuesPerProc, kind.valuesStart;
    Distributes(per, pid1);
    Distributes(per, pid);
    Grows(per, pid + 1, pid1);
    NoWrap(start + per * pid + v);
    NoWrap(start + per * pid1 + w);
  }

  lemma NoWrap(v: nat)
    requires v < TWO64
    ensures v % TWO64 == v
  {
  }

  lemma Distributes(per: nat, n: nat)
    ensures per * (n + 1) == per * n + per
  {
  }

  lemma Grows(per: nat, m: nat, n: nat)
    requires m <= n
    ensures per * m <= per * n
  {
  }
}
