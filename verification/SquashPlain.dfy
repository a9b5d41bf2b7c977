/** Which leaves are squashed to their own bytes, and when squashing keeps the image whatever results the
    system delivers. */
module SquashPlain {
  import opened ProgTypes
  import opened ExecFormat
  import opened ExecCompile
  import opened ExecMeaning
  import opened Memory
  import opened MemoryImage
  import opened Squash
  import opened SquashMarks
  import opened SquashImage
  import opened SquashMemory
  import opened SquashApart
  import Formats

  // ---- leaves ----

  /** A leaf is squashed to what it sets. */
  ghost predicate LeafKept(tgt: Target, env: Env, pid: nat, v: Visit) {
    LeafMark(tgt, env, v).s == Content(tgt, env, pid, v)
  }

  lemma ConstBytes(tgt: Target, a: Arg)
    requires a.ConstArg? && GoodLeaf(a) && !IsPad(a.typ) && !a.typ.kind.KCsum?
    ensures SquashConst(tgt, a) == CodeBytes(FormatCode(a.typ.bits.format), ConstValue(a).0, a.typ.c.size)
  {
    hide Digits, LE, Reverse, Swap, ConstValue;
    if a.typ.bits.format == FormatBigEndian {
      SwapIsReverse(ConstValue(a).0, a.typ.c.size);
    }
  }

  /** Constants keep their bytes, in any byte order and format, unless they are checksums or differ
      between processes. */
  lemma ConstSurvives(tgt: Target, env: Env, pid: nat, v: Visit)
    requires v.arg.ConstArg? && GoodLeaf(v.arg) && !v.arg.typ.kind.KCsum? && ConstValue(v.arg).1 == 0
    ensures LeafKept(tgt, env, pid, v)
  {
    hide BytesEffect, CodeBytes, GoodSize, SquashConst;
    var x := ConstValue(v.arg).0;
    assert Wrap64(x + 0 * pid) == x;
    if EmitsCopyin(tgt, v) {
      ConstBytes(tgt, v.arg);
    }
  }

  /** The untyped results all have this default. */
  const ALL_ONES: u64 := 0xffff_ffff_ffff_ffff

  predicate SameDefault(t: Type)
    requires t.ResourceT?
  {
    CodeBytes(FormatCode(t.format), t.default, t.c.size) == CodeBytes(FormatCode(t.format), ALL_ONES, t.c.size)
  }

  lemma BytesEffectOnto(at: int, s: seq<byte>, t: seq<byte>)
    requires |s| == |t|
    ensures BytesEffect(at, s) == BytesEffect(at, t) <==> s == t
  {
    if BytesEffect(at, s) == BytesEffect(at, t) {
      forall i | 0 <= i < |s|
        ensures s[i] == t[i]
      {
        forall k: nat | k < 8
          ensures BitOf(s[i], k) == BitOf(t[i], k)
        {
          var y := 8 * (at + i) + k;
          assert y in BytesEffect(at, s) && BytesEffect(at, s)[y] == BytesEffect(at, t)[y];
        }
        SameByte(s[i], t[i]);
      }
    }
  }

  lemma {:induction false} SameNumber(x: nat, y: nat, n: nat)
    requires x < Pow2(n) && y < Pow2(n) && forall k: nat :: k < n ==> BitOf(x, k) == BitOf(y, k)
    ensures x == y
    decreases n
  {
    if n > 0 {
      assert BitOf(x, 0) == BitOf(y, 0);
      forall k: nat | k < n - 1
        ensures BitOf(x / 2, k) == BitOf(y / 2, k)
      {
        assert BitOf(x, k + 1) == BitOf(y, k + 1);
      }
      SameNumber(x / 2, y / 2, n - 1);
    }
  }

  lemma SameByte(x: byte, y: byte)
    requires forall k: nat :: k < 8 ==> BitOf(x, k) == BitOf(y, k)
    ensures x == y
  {
    assert Pow2(8) == 256;
    SameNumber(x, y, 8);
  }

  function Delivered(env: Env, a: Arg, default: u64): u64
    requires a.ResultArg?
  {
    if a.ref.None? then a.val else Adjust(Value(env, a.ref.value), a.opDiv, a.opAdd, default)
  }

  lemma ResultBytesAre(tgt: Target, env: Env, pid: nat, a: Arg)
    requires a.ResultArg? && GoodLeaf(a) && Sized(tgt, a) && a.typ.format != FormatBigEndian
    ensures var code, size := FormatCode(a.typ.format), a.typ.c.size;
      && ArgBytes(pid, ArgMeaning(tgt, env, a)) == CodeBytes(code, Delivered(env, a, a.typ.default), size)
      && ResultBytes(tgt, env, a) == CodeBytes(code, Delivered(env, a, ALL_ONES), size)
      && GoodSize(code, size)
  {
    hide CodeBytes, Adjust;
    var b := SquashResult(a);
    assert FormatCode(b.typ.format) == FormatCode(a.typ.format) && b.typ.c.size == a.typ.c.size
      && b.typ.default == ALL_ONES;
    var x, x1 := Delivered(env, a, a.typ.default), Delivered(env, a, ALL_ONES);
    assert Wrap64(x + 0 * pid) == x && Wrap64(x1 + 0 * 0) == x1;
  }

  /** A result keeps its bytes exactly if it refers to nothing, its reference is delivered, or its default
      is formatted like that of the untyped results. */
  lemma ResultSurvives(tgt: Target, env: Env, pid: nat, v: Visit)
    requires v.arg.ResultArg? && EmitsCopyin(tgt, v) && GoodLeaf(v.arg) && Sized(tgt, v.arg)
    requires v.arg.typ.format != FormatBigEndian
    ensures LeafKept(tgt, env, pid, v) <==> v.arg.ref.None? || v.arg.ref.value in env || SameDefault(v.arg.typ)
  {
    hide BytesEffect, CodeBytes, GoodSize, ArgBytes, ArgMeaning, ResultBytes, Sized, CopiedIn, FormatCode, SquashedNul;
    var a, at := v.arg, v.addr.value;
    ResultBytesAre(tgt, env, pid, a);
    var code, size := FormatCode(a.typ.format), a.typ.c.size;
    var x, x1 := Delivered(env, a, a.typ.default), Delivered(env, a, ALL_ONES);
    CodeBytesSize(code, x, size);
    CodeBytesSize(code, x1, size);
    BytesEffectOnto(at, CodeBytes(code, x, size), CodeBytes(code, x1, size));
  }

  /** Whatever is delivered, a result keeps its bytes exactly if it refers to nothing or has such a
      default. */
  lemma ResultSurvivesIff(tgt: Target, pid: nat, v: Visit)
    requires v.arg.ResultArg? && EmitsCopyin(tgt, v) && GoodLeaf(v.arg) && Sized(tgt, v.arg)
    requires v.arg.typ.format != FormatBigEndian
    ensures (forall env: Env :: LeafKept(tgt, env, pid, v)) <==> v.arg.ref.None? || SameDefault(v.arg.typ)
  {
    assert v.arg.typ.ResourceT?;
    hide LeafKept, SameDefault, GoodLeaf, Sized, EmitsCopyin;
    forall env: Env
      ensures LeafKept(tgt, env, pid, v) <==> v.arg.ref.None? || v.arg.ref.value in env || SameDefault(v.arg.typ)
    {
      ResultSurvives(tgt, env, pid, v);
    }
    var nothing: Env := map[];
    assert v.arg.ref.Some? ==> v.arg.ref.value !in nothing;
  }

  // ---- bitfield units in native byte order ----

  predicate NativeUnit(unit: seq<Arg>) {
    forall i :: 0 <= i < |unit| ==> IsBitfield(unit[i]) && unit[i].typ.bits.format == FormatNative
  }

  lemma UnitBit(unit: seq<Arg>, size: u64, at: int, y: int)
    requires (forall i :: 0 <= i < |unit| ==> IsBitfield(unit[i])) && 8 * at <= y < 8 * (at + size)
    ensures var e := BytesEffect(at, LE(UnitBits(unit, 0), size)); y in e && e[y] == SetsBit(unit, y - 8 * at)
  {
    hide BitOf, UnitBits, SetsBit, LE;
    var x := UnitBits(unit, 0);
    BytesHoldBits(x, size, y / 8 - at, y % 8);
    assert 8 * (y / 8 - at) + y % 8 == y - 8 * at;
    UnitBitsSet(unit, 0, y - 8 * at);
    ZeroBits(y - 8 * at);
  }

  lemma FieldSquashedBit(unit: seq<Arg>, size: u64, at: u64, i: nat, y: int)
    requires NativeUnit(unit) && UnitApart(unit) && i < |unit| && GoodField(unit[i], size)
    requires var f := unit[i]; y in FieldBits(at, size, false, f.typ.bits.off, f.typ.bits.len)
    ensures var e, f := BytesEffect(at, LE(UnitBits(unit, 0), size)), unit[i];
      y in e && e[y] == BitOf(SquashedValue(f).0, y - 8 * at - f.typ.bits.off)
  {
    hide UnitBits, LE, SquashedValue, BitOf, BytesEffect, SetsBit, UnitApart;
    UnitBit(unit, size, at, y);
    OneField(unit, i, y - 8 * at);
    SetsHere(unit, i, y - 8 * at);
  }

  /** A field of a native unit whose fields share no bit is squashed to its own value. */
  lemma FieldSquashed(tgt: Target, env: Env, pid: nat, unit: seq<Arg>, size: u64, at: u64, i: nat)
    requires NativeUnit(unit) && UnitApart(unit) && i < |unit| && GoodField(unit[i], size)
    ensures var e, v := BytesEffect(at, LE(UnitBits(unit, 0), size)), Visit(unit[i], Some(at));
      EmitsCopyin(tgt, v) && Writable(v.arg) ==>
        Inside(e, Content(tgt, env, pid, v).Keys) == FieldOf(at, unit[i], SquashedValue(unit[i]).0)
  {
    hide UnitBits, LE, SquashedValue, ConstFor, GoodSize, BitOf, CopiedIn, BytesEffect, UnitApart;
    var e, f := BytesEffect(at, LE(UnitBits(unit, 0), size)), unit[i];
    forall y | y in FieldBits(at, size, false, f.typ.bits.off, f.typ.bits.len)
      ensures y in e && e[y] == BitOf(SquashedValue(f).0, y - 8 * at - f.typ.bits.off)
    {
      FieldSquashedBit(unit, size, at, i, y);
    }
  }

  lemma OneField(unit: seq<Arg>, i: nat, j: int)
    requires (forall k :: 0 <= k < |unit| ==> IsBitfield(unit[k])) && UnitApart(unit) && i < |unit|
      && AtField(unit[i], j)
    ensures forall k :: 0 <= k < |unit| ==> (AtField(unit[k], j) <==> k == i)
  {
    forall k | 0 <= k < |unit| && k != i
      ensures !AtField(unit[k], j)
    {
      assert FieldsApart(unit[if i < k then i else k], unit[if i < k then k else i]);
    }
  }

  /** A checksum, whose value is not known when squashing, is squashed to the bytes of a recognizable number. */
  lemma ChecksumSquashed(tgt: Target, a: Arg, k: nat)
    requires a.ConstArg? && a.typ.IntT? && a.typ.kind.KCsum? && k < a.typ.c.size
    ensures var s := SquashConst(tgt, a); |s| == a.typ.c.size && s[k] == 0xabcd_ef12_3456_7890 / Pow256(k) % 256
  {
    Formats.LowByteAt(0xabcd_ef12_3456_7890, a.typ.c.size, k);
  }

  /** The bits of a native input unit that belong to no field are filled in with zeros. */
  lemma UnitRestZero(tgt: Target, env: Env, pid: nat, unit: seq<Arg>, size: u64, base: u64, off: nat)
    requires GoodUnit(unit, size) && NativeUnit(unit) && base + off + size <= TWO64
    requires forall i :: 0 <= i < |unit| ==> unit[i].typ.c.dir != DirOut
    ensures var k := UnitMarks(tgt, env, pid, unit, size, base, off)[0];
      k.s == map[] && forall y :: y in k.body ==> !k.body[y]
  {
    hide UnitBits, LE, VisitsSeq, ContentBits, GoodUnit, FieldMarks, BytesEffect, NativeUnit;
    var at, vs := base + off, VisitsSeq(tgt, unit, Some(base), off);
    var e := BytesEffect(at, LE(UnitBits(unit, 0), size));
    forall y | y in e && y !in ContentBits(tgt, env, pid, vs)
      ensures !e[y]
    {
      RestBitZero(tgt, env, pid, unit, size, base, off, y);
    }
  }

  lemma RestBitZero(tgt: Target, env: Env, pid: nat, unit: seq<Arg>, size: u64, base: u64, off: nat, y: int)
    requires GoodUnit(unit, size) && NativeUnit(unit) && base + off + size <= TWO64
    requires forall i :: 0 <= i < |unit| ==> unit[i].typ.c.dir != DirOut
    requires y in BytesEffect(base + off, LE(UnitBits(unit, 0), size))
    requires y !in ContentBits(tgt, env, pid, VisitsSeq(tgt, unit, Some(base), off))
    ensures !BytesEffect(base + off, LE(UnitBits(unit, 0), size))[y]
  {
    hide UnitBits, LE, VisitsSeq, ContentBits, GoodUnit, FieldMarks, BytesEffect;
    UnitVisits(tgt, unit, size, base, off);
    UnitSizes(unit, size);
    UnitBit(unit, size, base + off, y);
    NoFieldThere(tgt, env, pid, unit, size, base, off, VisitsSeq(tgt, unit, Some(base), off), y);
    SetsElsewhere(unit, y - 8 * (base + off));
  }

  lemma NoFieldThere(tgt: Target, env: Env, pid: nat, unit: seq<Arg>, size: u64, base: u64, off: nat, vs: seq<Visit>,
                     y: int)
    requires NativeUnit(unit) && base + off + size <= TWO64 && 8 * (base + off) <= y < 8 * (base + off + size)
    requires forall i :: 0 <= i < |unit| ==> GoodField(unit[i], size) && unit[i].typ.c.dir != DirOut
    requires |vs| == |unit| && forall i :: 0 <= i < |unit| ==> vs[i] == Visit(unit[i], Place(Some(base), off))
    requires y !in ContentBits(tgt, env, pid, vs)
    ensures forall i :: 0 <= i < |unit| ==> !AtField(unit[i], y - 8 * (base + off))
  {
    hide Content, ContentBits, Place, GoodSize;
    forall i | 0 <= i < |unit|
      ensures !AtField(unit[i], y - 8 * (base + off))
    {
      ContentOne(tgt, env, pid, vs, i, y);
      FieldContent(tgt, env, pid, unit[i], size, base, off, y);
    }
  }

  lemma {:induction false} ContentOne(tgt: Target, env: Env, pid: nat, vs: seq<Visit>, i: nat, y: int)
    requires i < |vs| && y !in ContentBits(tgt, env, pid, vs)
    ensures y !in Content(tgt, env, pid, vs[i])
    decreases vs
  {
    hide Content;
    if i > 0 {
      ContentOne(tgt, env, pid, vs[1..], i - 1, y);
    }
  }

  lemma FieldContent(tgt: Target, env: Env, pid: nat, f: Arg, size: u64, base: u64, off: nat, y: int)
    requires GoodField(f, size) && f.typ.bits.format == FormatNative && f.typ.c.dir != DirOut
      && base + off + size <= TWO64
    requires 8 * (base + off) <= y < 8 * (base + off + size)
    ensures y in Content(tgt, env, pid, Visit(f, Place(Some(base), off))) <==> AtField(f, y - 8 * (base + off))
  {
    hide ConstFor;
    PlaceIs(base, off);
  }

  // ---- plain trees ----

  /** A leaf that is squashed to its own bytes whatever is delivered, for every process. */
  predicate PlainLeaf(tgt: Target, a: Arg) {
    && (a.ConstArg? ==>
          && a.typ.IntT? && !a.typ.kind.KCsum? && ConstValue(a).1 == 0
          && (IsBitfield(a) ==> a.typ.bits.format == FormatNative))
    && (a.ResultArg? && CopiedIn(tgt, a) ==>
          Sized(tgt, a) && a.typ.format != FormatBigEndian && (a.ref.None? || SameDefault(a.typ)))
  }

  ghost predicate PlainVisits(tgt: Target, vs: seq<Visit>) { forall i :: 0 <= i < |vs| ==> PlainLeaf(tgt, vs[i].arg) }

  lemma PlainSplit(tgt: Target, a: seq<Visit>, b: seq<Visit>)
    requires PlainVisits(tgt, a + b)
    ensures PlainVisits(tgt, a) && PlainVisits(tgt, b)
  {
    hide PlainLeaf;
    assert forall i :: 0 <= i < |a| ==> (a + b)[i] == a[i];
    assert forall i :: 0 <= i < |b| ==> (a + b)[|a| + i] == b[i];
  }

  lemma PlainLeafSurvives(tgt: Target, env: Env, pid: nat, v: Visit)
    requires IsLeaf(v.arg) && GoodLeaf(v.arg) && PlainLeaf(tgt, v.arg)
    ensures LeafKept(tgt, env, pid, v)
  {
    hide BytesEffect, SameDefault, ConstValue, SquashConst, ResultBytes, LE, PhysicalAddr;
    match v.arg
    case ConstArg(_, _) => ConstSurvives(tgt, env, pid, v);
    case ResultArg(_, _, _, _, _, _) =>
      if EmitsCopyin(tgt, v) {
        ResultSurvives(tgt, env, pid, v);
      }
    case PointerArg(_, _, _, _) => PointerBytes(tgt, env, pid, v.arg);
    case DataArg(typ, _, _) =>
      if EmitsCopyin(tgt, v) {
        DataBytes(tgt, env, pid, v.arg);
      }
  }

  /** Every visit is squashed to what it sets. */
  ghost predicate AllSame(tgt: Target, env: Env, pid: nat, ms: seq<Mark>) {
    forall i :: 0 <= i < |ms| ==> ms[i].s == Sets(tgt, env, pid, ms[i])
  }

  lemma SameJoin(tgt: Target, env: Env, pid: nat, a: seq<Mark>, b: seq<Mark>)
    requires AllSame(tgt, env, pid, a) && AllSame(tgt, env, pid, b)
    ensures AllSame(tgt, env, pid, a + b)
  {
    hide Sets;
  }

  lemma HeadSame(tgt: Target, env: Env, pid: nat, v: Visit)
    requires v.arg.GroupArg? || v.arg.UnionArg? || v.addr.None?
    ensures AllSame(tgt, env, pid, [LeafMark(tgt, env, v)])
  {
  }

  lemma PadSame(tgt: Target, env: Env, pid: nat, at: int, n: nat)
    ensures AllSame(tgt, env, pid, [PadMark(at, n)])
  {
  }

  lemma LeafSame(tgt: Target, env: Env, pid: nat, v: Visit)
    requires IsLeaf(v.arg) && GoodLeaf(v.arg) && PlainLeaf(tgt, v.arg)
    ensures AllSame(tgt, env, pid, [LeafMark(tgt, env, v)])
  {
    hide LeafMark, Content, PlainLeaf, GoodLeaf;
    PlainLeafSurvives(tgt, env, pid, v);
    LeafMarkVisit(tgt, env, v);
  }

  lemma {:induction false} TreeSame(tgt: Target, env: Env, pid: nat, a: Arg, base: u64, off: nat)
    requires Laid(a) && Sized(tgt, a) && UnitsApart(a) && base + off + Size(tgt, a) <= TWO64
    requires FitMemory(Objects(tgt, a)) && PlainVisits(tgt, Visits(tgt, a, Some(base), off))
    ensures AllSame(tgt, env, pid, Marks(tgt, env, pid, a, base, off))
    decreases a, 1
  {
    hide AllSame, LeafMark, PadMark, Size, SizeSum, GroupPad, UnionPad, FitMemory, GoodLeaf, PhysicalAddr, Place,
      PlainLeaf;
    var v := Visit(a, Place(Some(base), off));
    assert Visits(tgt, a, Some(base), off)[0] == v && PlainLeaf(tgt, a);
    PadSizes(tgt, a);
    match a
    case GroupArg(_, inner) =>
      PlainSplit(tgt, [v], VisitsSeq(tgt, inner, Some(base), off));
      SeqSame(tgt, env, pid, inner, base, off);
      HeadSame(tgt, env, pid, v);
      var ms, l := MarksSeq(tgt, env, pid, inner, base, off),
        PadMark(base + off + SizeSum(tgt, inner), GroupPad(tgt, a));
      PadSame(tgt, env, pid, base + off + SizeSum(tgt, inner), GroupPad(tgt, a));
      SameJoin(tgt, env, pid, ms, [l]);
      SameJoin(tgt, env, pid, [LeafMark(tgt, env, v)], ms + [l]);
    case UnionArg(_, option) =>
      PlainSplit(tgt, [v], Visits(tgt, option, Some(base), off));
      TreeSame(tgt, env, pid, option, base, off);
      HeadSame(tgt, env, pid, v);
      var ms, l := Marks(tgt, env, pid, option, base, off), PadMark(base + off + Size(tgt, option), UnionPad(tgt, a));
      PadSame(tgt, env, pid, base + off + Size(tgt, option), UnionPad(tgt, a));
      SameJoin(tgt, env, pid, ms, [l]);
      SameJoin(tgt, env, pid, [LeafMark(tgt, env, v)], ms + [l]);
    case PointerArg(_, _, _, res) =>
      LeafSame(tgt, env, pid, v);
      if res.Some? {
        var to := PhysicalAddr(tgt, a);
        PointeeFits(tgt, a);
        PlainSplit(tgt, [v], Visits(tgt, res.value, Some(to), 0));
        TreeSame(tgt, env, pid, res.value, to, 0);
        SameJoin(tgt, env, pid, [LeafMark(tgt, env, v)], Marks(tgt, env, pid, res.value, to, 0));
      }
    case _ => LeafSame(tgt, env, pid, v);
  }

  lemma {:induction false} SeqSame(tgt: Target, env: Env, pid: nat, args: seq<Arg>, base: u64, off: nat)
    requires LaidSeq(args) && SizedSeq(tgt, args) && UnitsApartSeq(args) && base + off + SizeSum(tgt, args) <= TWO64
    requires FitMemory(ObjectsSeq(tgt, args)) && PlainVisits(tgt, VisitsSeq(tgt, args, Some(base), off))
    ensures AllSame(tgt, env, pid, MarksSeq(tgt, env, pid, args, base, off))
    decreases args, 0
  {
    hide AllSame, Marks, UnitMarks, FitMemory, Size, Visits, Laid, Sized, GoodUnit, Objects, PlainVisits, UnitApart,
      UnitsApart;
    if args == [] {
      NothingSame(tgt, env, pid);
    } else if IsBitfield(args[0]) {
      var unit, rest, size := UnitOf(tgt, args);
      VisitsSeqSplit(tgt, unit, rest, Some(base), off);
      PlainSplit(tgt, VisitsSeq(tgt, unit, Some(base), off), VisitsSeq(tgt, rest, Some(base), off + size));
      UnitSame(tgt, env, pid, unit, size, base, off);
      SeqSame(tgt, env, pid, rest, base, off + size);
      SameJoin(tgt, env, pid, UnitMarks(tgt, env, pid, unit, size, base, off),
               MarksSeq(tgt, env, pid, rest, base, off + size));
    } else {
      var n := Size(tgt, args[0]);
      FitMemorySplit(Objects(tgt, args[0]), ObjectsSeq(tgt, args[1..]));
      PlainSplit(tgt, Visits(tgt, args[0], Some(base), off), VisitsSeq(tgt, args[1..], Some(base), off + n));
      TreeSame(tgt, env, pid, args[0], base, off);
      SeqSame(tgt, env, pid, args[1..], base, off + n);
      SameJoin(tgt, env, pid, Marks(tgt, env, pid, args[0], base, off),
               MarksSeq(tgt, env, pid, args[1..], base, off + n));
    }
  }

  lemma NothingSame(tgt: Target, env: Env, pid: nat)
    ensures AllSame(tgt, env, pid, [])
  {
  }

  /** A plain field sets its squashed value. */
  lemma PlainFieldContent(tgt: Target, env: Env, pid: nat, f: Arg, at: u64)
    requires GoodBits(f) && PlainLeaf(tgt, f)
    ensures var v := Visit(f, Some(at));
      EmitsCopyin(tgt, v) ==> Writable(f) && Content(tgt, env, pid, v) == FieldOf(at, f, SquashedValue(f).0)
  {
    hide FieldEffect;
    var x := ConstValue(f).0;
    assert Wrap64(x + 0 * pid) == x;
  }

  lemma {:induction false} FieldMarksSame(tgt: Target, env: Env, pid: nat, e: Effect, vs: seq<Visit>)
    requires forall i :: 0 <= i < |vs| ==>
      Inside(e, Content(tgt, env, pid, vs[i]).Keys) == Content(tgt, env, pid, vs[i])
    ensures AllSame(tgt, env, pid, FieldMarks(tgt, env, pid, e, vs))
    decreases vs
  {
    hide Content;
    if vs != [] {
      FieldMarksSame(tgt, env, pid, e, vs[1..]);
    }
  }

  lemma UnitSame(tgt: Target, env: Env, pid: nat, unit: seq<Arg>, size: u64, base: u64, off: nat)
    requires GoodUnit(unit, size) && UnitApart(unit) && base + off + size <= TWO64
    requires PlainVisits(tgt, VisitsSeq(tgt, unit, Some(base), off))
    ensures AllSame(tgt, env, pid, UnitMarks(tgt, env, pid, unit, size, base, off))
  {
    hide UnitBits, LE, VisitsSeq, ContentBits, GoodUnit, FieldMarks, BytesEffect, UnitApart, GoodField, PlainLeaf,
      Content;
    var at, vs := base + off, VisitsSeq(tgt, unit, Some(base), off);
    var e := BytesEffect(at, LE(UnitBits(unit, 0), size));
    UnitVisits(tgt, unit, size, base, off);
    UnitSizes(unit, size);
    UnitPositive(unit, size);
    PlaceIs(base, off);
    forall i | 0 <= i < |unit|
      ensures unit[i].typ.bits.format == FormatNative
    {
      assert PlainLeaf(tgt, vs[i].arg);
      PlainNative(tgt, unit[i]);
    }
    forall i | 0 <= i < |vs|
      ensures Inside(e, Content(tgt, env, pid, vs[i]).Keys) == Content(tgt, env, pid, vs[i])
    {
      assert PlainLeaf(tgt, vs[i].arg);
      FieldSame(tgt, env, pid, unit, size, at, i);
    }
    FieldMarksSame(tgt, env, pid, e, vs);
    SameJoin(tgt, env, pid, [Mark(None, map[], Outside(e, ContentBits(tgt, env, pid, vs)), {})],
             FieldMarks(tgt, env, pid, e, vs));
  }

  lemma UnitPositive(unit: seq<Arg>, size: u64)
    requires GoodUnit(unit, size)
    ensures size > 0
  {
  }

  lemma PlainNative(tgt: Target, f: Arg)
    requires IsBitfield(f) && PlainLeaf(tgt, f)
    ensures f.typ.bits.format == FormatNative
  {
  }

  lemma FieldSame(tgt: Target, env: Env, pid: nat, unit: seq<Arg>, size: u64, at: u64, i: nat)
    requires GoodUnit(unit, size) && UnitApart(unit) && NativeUnit(unit) && i < |unit| && PlainLeaf(tgt, unit[i])
    ensures var e, v := BytesEffect(at, LE(UnitBits(unit, 0), size)), Visit(unit[i], Some(at));
      Inside(e, Content(tgt, env, pid, v).Keys) == Content(tgt, env, pid, v)
  {
    UnitSizes(unit, size);
    hide UnitBits, LE, GoodUnit, BytesEffect, UnitApart, PlainLeaf, NativeUnit, FieldOf, SquashedValue, CopiedIn,
      Writable;
    var e, v := BytesEffect(at, LE(UnitBits(unit, 0), size)), Visit(unit[i], Some(at));
    assert GoodField(unit[i], size);
    FieldSquashed(tgt, env, pid, unit, size, at, i);
    PlainFieldContent(tgt, env, pid, unit[i], at);
    if !EmitsCopyin(tgt, v) {
      assert Content(tgt, env, pid, v) == map[];
      assert Inside(e, {}) == map[];
    }
  }

  // ---- clearing behind text ----

  /** Text formatted later clears a bit in both forms or in neither. */
  predicate SameNuls(tgt: Target, later: seq<Visit>, y: int) { y in Nuls(tgt, later) <==> y in SquashedNuls(later) }

  /** No set bit is cleared behind text in one form only: by the constants of the tree, or by output
      results, which are copied in once they are squashed. */
  ghost predicate NulSafe(tgt: Target, env: Env, pid: nat, vs: seq<Visit>) {
    forall j: nat, y :: j < |vs| && y in Content(tgt, env, pid, vs[j]) && Content(tgt, env, pid, vs[j])[y] ==>
      SameNuls(tgt, vs[j + 1..], y)
  }

  lemma Shifted(head: seq<Visit>, rest: seq<Visit>, j: nat)
    requires j < |rest|
    ensures (head + rest)[|head| + j] == rest[j] && (head + rest)[|head| + j + 1..] == rest[j + 1..]
  {
  }

  /** The visit of a mark. */
  lemma {:induction false} MarkToVisit(ms: seq<Mark>, i: nat) returns (j: nat)
    requires i < |ms| && ms[i].v.Some?
    ensures j < |Visited(ms)| && Visited(ms)[j] == ms[i].v.value && Visited(ms)[j + 1..] == Visited(ms[i + 1..])
    decreases i
  {
    var head, rest := if ms[0].v.Some? then [ms[0].v.value] else [], Visited(ms[1..]);
    assert Visited(ms) == head + rest;
    hide Visited;
    if i == 0 {
      j := 0;
    } else {
      var j0 := MarkToVisit(ms[1..], i - 1);
      Shifted(head, rest, j0);
      j := |head| + j0;
      assert ms[1..][i..] == ms[i + 1..];
    }
  }

  /** The mark of a visit. */
  lemma {:induction false} VisitToMark(ms: seq<Mark>, j: nat) returns (i: nat)
    requires j < |Visited(ms)|
    ensures i < |ms| && ms[i].v == Some(Visited(ms)[j]) && Visited(ms)[j + 1..] == Visited(ms[i + 1..])
    decreases ms
  {
    var head, rest := if ms[0].v.Some? then [ms[0].v.value] else [], Visited(ms[1..]);
    assert Visited(ms) == head + rest;
    hide Visited;
    if j < |head| {
      i := 0;
      assert (head + rest)[1..] == rest;
    } else {
      var i0 := VisitToMark(ms[1..], j - |head|);
      Shifted(head, rest, j - |head|);
      i := i0 + 1;
      assert ms[1..][i0 + 1..] == ms[i + 1..];
    }
  }

  /** Where every leaf is squashed to what it sets, only the clearing behind text matters. */
  lemma KeptIffNulSafe(tgt: Target, env: Env, pid: nat, ms: seq<Mark>)
    requires AllSame(tgt, env, pid, ms)
    ensures KeptApart(tgt, env, pid, ms) <==> NulSafe(tgt, env, pid, Visited(ms))
  {
    hide Content, Nuls, SquashedNuls, Visited;
    var vs := Visited(ms);
    if NulSafe(tgt, env, pid, vs) {
      forall i: nat, y | i < |ms| && y in Sets(tgt, env, pid, ms[i]) && y in ms[i].s
        ensures BitKept(tgt, env, pid, ms, i, y)
      {
        var j := MarkToVisit(ms, i);
        assert y in Content(tgt, env, pid, vs[j]);
      }
    }
    if KeptApart(tgt, env, pid, ms) {
      forall j: nat, y | j < |vs| && y in Content(tgt, env, pid, vs[j]) && Content(tgt, env, pid, vs[j])[y]
        ensures SameNuls(tgt, vs[j + 1..], y)
      {
        var i := VisitToMark(ms, j);
        assert y in Sets(tgt, env, pid, ms[i]) && BitKept(tgt, env, pid, ms, i, y);
      }
    }
  }

  lemma TopSame(tgt: Target, env: Env, pid: nat, a: Arg)
    requires a.PointerArg? && a.res.Some? && Laid(a) && Sized(tgt, a) && UnitsApart(a) && FitMemory(Objects(tgt, a))
    requires PlainVisits(tgt, Visits(tgt, a, None, 0))
    ensures AllSame(tgt, env, pid, TopMarks(tgt, env, pid, a))
  {
    hide AllSame, LeafMark, Marks, FitMemory, Size, PhysicalAddr, GoodLeaf, PlainVisits;
    var to, v := PhysicalAddr(tgt, a), Visit(a, None);
    PointeeFits(tgt, a);
    TopVisits(tgt, env, pid, a);
    PlainSplit(tgt, [v], Visits(tgt, a.res.value, Some(to), 0));
    HeadSame(tgt, env, pid, v);
    TreeSame(tgt, env, pid, a.res.value, to, 0);
    SameJoin(tgt, env, pid, [LeafMark(tgt, env, v)], Marks(tgt, env, pid, a.res.value, to, 0));
  }

  /** Executed on m, the squashed copyins leave the content of the original ones. */
  ghost predicate ImageKept(tgt: Target, env: Env, pid: nat, a: Arg, fld: string, m: Mem)
    requires a.PointerArg? && a.res.Some?
  {
    var vs, ws := Visits(tgt, a, None, 0), Visits(tgt, SquashPtr(tgt, a, fld), None, 0);
    && WritableVisits(tgt, vs) && WritableVisits(tgt, ws)
    && SameBits(Run(tgt, env, pid, m, vs), Run(tgt, env, pid, m, ws), ContentBits(tgt, env, pid, vs))
  }

  /** Of trees of plain leaves that do not overlap the image is kept exactly if the clearing behind text does
      no harm. */
  lemma PlainKeepsImage(tgt: Target, env: Env, pid: nat, a: Arg, fld: string, m: Mem)
    requires AnyKnown(tgt) && a.PointerArg? && a.res.Some? && Laid(a) && Sized(tgt, a)
    requires UnitsApart(a) && Apart(Objects(tgt, a)) && PlainVisits(tgt, Visits(tgt, a, None, 0))
    ensures ImageKept(tgt, env, pid, a, fld, m) <==> NulSafe(tgt, env, pid, Visits(tgt, a, None, 0))
  {
    hide Run, WritableVisits, Laid, Sized, Apart, SquashPtr, Visits, Objects, KeptApart, SameBits, ContentBits, NulSafe;
    hide FitMemory, UnitsApart, TopMarks, AllSame, PlainVisits, GoodMarks, Whole, Visited;
    ApartKeepsImage(tgt, env, pid, a, fld, m);
    TopMarksAre(tgt, env, pid, a);
    TopSame(tgt, env, pid, a);
    KeptIffNulSafe(tgt, env, pid, TopMarks(tgt, env, pid, a));
  }

  /** What the original and the squashed copyins leave at a bit of a visited argument. */
  lemma PlainBit(tgt: Target, env: Env, pid: nat, a: Arg, fld: string, m: Mem, j: nat, y: int)
    requires AnyKnown(tgt) && a.PointerArg? && a.res.Some? && Laid(a) && Sized(tgt, a)
    requires UnitsApart(a) && Apart(Objects(tgt, a)) && PlainVisits(tgt, Visits(tgt, a, None, 0))
    requires j < |Visits(tgt, a, None, 0)| && y in Content(tgt, env, pid, Visits(tgt, a, None, 0)[j])
    ensures var vs, ws := Visits(tgt, a, None, 0), Visits(tgt, SquashPtr(tgt, a, fld), None, 0);
      var set_ := Content(tgt, env, pid, vs[j])[y];
      && WritableVisits(tgt, vs) && WritableVisits(tgt, ws)
      && GetBit(Run(tgt, env, pid, m, vs), y) == (set_ && y !in Nuls(tgt, vs[j + 1..]))
      && GetBit(Run(tgt, env, pid, m, ws), y) == (set_ && y !in SquashedNuls(vs[j + 1..]))
  {
    hide Run, WritableVisits, Laid, Sized, Apart, SquashPtr, Visits, Objects, Content, GetBit, Nuls, SquashedNuls,
      Fills;
    hide FitMemory, UnitsApart, TopMarks, PlainVisits, Whole, Visited, MarksApart, AllOwn, ContentBits;
    ApartFits(Objects(tgt, a));
    TopMarksAre(tgt, env, pid, a);
    TopSame(tgt, env, pid, a);
    TopTidy(tgt, env, pid, a);
    var ms := TopMarks(tgt, env, pid, a);
    var i := VisitToMark(ms, j);
    ApartAt(ms, i);
    assert ms[i].s == Sets(tgt, env, pid, ms[i]) && y in OwnBits(ms[i]);
    JoinedTail(tgt, env, pid, ms, i);
    FillsOutside(tgt, env, pid, ms[i + 1..], y);
    ImageBit(tgt, env, pid, a, fld, m, i, y);
  }

  lemma JoinedTail(tgt: Target, env: Env, pid: nat, ms: seq<Mark>, i: nat)
    requires GoodMarks(tgt, env, pid, ms) && i < |ms|
    ensures GoodMarks(tgt, env, pid, ms[i + 1..])
  {
    hide GoodMark;
  }

  // ---- whatever is delivered ----

  predicate Quotient(divOp: u64, q: nat) { q < TWO64 && (divOp == 0 || divOp * q < TWO64) }

  /** The values that a reference can have: its default, or a delivered value divided and shifted. */
  ghost predicate Attainable(a: Arg, x: u64)
    requires a.ResultArg? && a.typ.ResourceT?
  {
    x == a.typ.default || exists q: nat :: Quotient(a.opDiv, q) && x == Wrap64(q + a.opAdd)
  }

  lemma DivBound(v: nat, d: nat)
    requires d > 0
    ensures 0 <= v / d <= v && d * (v / d) <= v
  {
    DivMod(v, d);
    Larger(d, v / d);
  }

  lemma Larger(d: nat, q: int)
    requires d > 0 && d * q >= 0
    ensures 0 <= q <= d * q
  {
  }

  lemma DivBack(q: nat, d: nat)
    requires d > 0
    ensures d * q / d == q
  {
    var x := d * q;
    var r := x / d;
    DivMod(x, d);
    Gap(d, q, r);
  }

  lemma Multiples(d: int, k: int)
    requires d >= 0
    ensures (k >= 1 ==> d * k >= d) && (k <= -1 ==> d * k <= -d)
  {
    if k >= 1 {
      assert d * k == d * (k - 1) + d;
    } else if k <= -1 {
      assert d * k == -(d * (-k - 1)) - d;
    }
  }

  lemma Gap(d: nat, q: nat, r: int)
    requires d > 0 && 0 <= d * q - d * r < d
    ensures q == r
  {
    assert d * q - d * r == d * (q - r);
    Multiples(d, q - r);
  }

  lemma DeliveredIsAttainable(env: Env, a: Arg)
    requires a.ResultArg? && a.typ.ResourceT? && a.ref.Some?
    ensures Attainable(a, Delivered(env, a, a.typ.default))
  {
    var v := Value(env, a.ref.value);
    if v.Some? {
      var q := QuotientOf(v.value, a.opDiv);
      assert Delivered(env, a, a.typ.default) == Wrap64(q + a.opAdd);
    }
  }

  lemma QuotientOf(v: u64, divOp: u64) returns (q: nat)
    ensures Quotient(divOp, q) && q == if divOp != 0 then v / divOp else v
  {
    q := v;
    if divOp != 0 {
      DivBound(v, divOp);
      q := v / divOp;
    }
  }

  lemma AttainableIsDelivered(a: Arg, x: u64) returns (env: Env)
    requires a.ResultArg? && a.typ.ResourceT? && a.ref.Some? && Attainable(a, x)
    ensures Delivered(env, a, a.typ.default) == x
  {
    if x == a.typ.default {
      env := map[];
    } else {
      var q: nat :| Quotient(a.opDiv, q) && x == Wrap64(q + a.opAdd);
      var v: u64 := if a.opDiv != 0 then a.opDiv * q else q;
      env := map[a.ref.value := v];
      if a.opDiv != 0 {
        DivBack(q, a.opDiv);
      }
    }
  }

  predicate Refers(tgt: Target, v: Visit) {
    EmitsCopyin(tgt, v) && v.arg.ResultArg? && v.arg.typ.ResourceT? && v.arg.ref.Some?
  }

  predicate SetsAs(v: Visit, x: u64, y: int)
    requires v.arg.ResultArg? && v.arg.typ.ResourceT? && v.addr.Some?
  {
    var e := BytesEffect(v.addr.value, CodeBytes(FormatCode(v.arg.typ.format), x, v.arg.typ.c.size));
    y in e && e[y]
  }

  /** Can a visit set a bit, for some process and some deliveries? */
  ghost predicate MaySet(tgt: Target, v: Visit, y: int) {
    if Refers(tgt, v) then exists x: u64 :: Attainable(v.arg, x) && SetsAs(v, x, y)
    else y in Content(tgt, map[], 0, v) && Content(tgt, map[], 0, v)[y]
  }

  /** No bit that can be set is cleared behind text in one form only. */
  ghost predicate AlwaysSafe(tgt: Target, vs: seq<Visit>) {
    forall j: nat, y :: j < |vs| && MaySet(tgt, vs[j], y) ==> SameNuls(tgt, vs[j + 1..], y)
  }

  lemma ReferenceContent(tgt: Target, env: Env, pid: nat, v: Visit)
    requires GoodVisit(tgt, v) && Refers(tgt, v)
    ensures var x := Delivered(env, v.arg, v.arg.typ.default);
      Content(tgt, env, pid, v) == BytesEffect(v.addr.value,
                                               CodeBytes(FormatCode(v.arg.typ.format), x, v.arg.typ.c.size))
  {
    hide BytesEffect, CodeBytes, Adjust;
    var x := Delivered(env, v.arg, v.arg.typ.default);
    assert Wrap64(x + 0 * pid) == x;
  }

  lemma FixedContent(tgt: Target, env: Env, pid: nat, v: Visit)
    requires GoodVisit(tgt, v) && PlainLeaf(tgt, v.arg) && !Refers(tgt, v)
    ensures Content(tgt, env, pid, v) == Content(tgt, map[], 0, v)
  {
    hide BytesEffect, FieldEffect, SameDefault, Writable, Sized, GoodBits, ArgBytes, ArgMeaning, ConstValue;
    if EmitsCopyin(tgt, v) {
      WritableGood(tgt, v);
      assert !v.arg.UnionArg? && (v.arg.ResultArg? ==> v.arg.typ.ResourceT? && v.arg.ref.None?);
      hide CopiedIn, GoodLeaf;
      if IsBitfield(v.arg) {
        var x := ConstValue(v.arg).0;
        assert Wrap64(x + 0 * pid) == x == Wrap64(x + 0 * 0);
      } else {
        FixedBytes(tgt, env, pid, v.arg);
      }
    }
  }

  lemma FixedBytes(tgt: Target, env: Env, pid: nat, a: Arg)
    requires Writable(a) && PlainLeaf(tgt, a) && !a.UnionArg? && !(a.ResultArg? && a.ref.Some?)
    ensures ArgBytes(pid, ArgMeaning(tgt, env, a)) == ArgBytes(0, ArgMeaning(tgt, map[], a))
  {
    hide CodeBytes, SameDefault, PhysicalAddr, Sized;
    FixedMeaning(tgt, env, a);
    var e := ArgMeaning(tgt, env, a);
    if e.Const? {
      assert e.pidStride == 0;
      assert Wrap64(e.value + 0 * pid) == e.value == Wrap64(e.value + 0 * 0);
    }
  }

  lemma FixedMeaning(tgt: Target, env: Env, a: Arg)
    requires Writable(a) && !a.UnionArg? && !(a.ResultArg? && a.ref.Some?)
    ensures ArgMeaning(tgt, env, a) == ArgMeaning(tgt, map[], a)
  {
  }

  /** A visit can set a bit exactly if it does so for some process and some deliveries. */
  lemma MaySetIff(tgt: Target, v: Visit, y: int)
    requires GoodVisit(tgt, v) && PlainLeaf(tgt, v.arg)
    ensures MaySet(tgt, v, y) <==>
            exists env: Env, pid: nat :: y in Content(tgt, env, pid, v) && Content(tgt, env, pid, v)[y]
  {
    hide Content, BytesEffect, CodeBytes, Refers, PlainLeaf, GoodVisit, Attainable;
    if Refers(tgt, v) {
      RefersWhat(tgt, v);
      forall env: Env, pid: nat | y in Content(tgt, env, pid, v) && Content(tgt, env, pid, v)[y]
        ensures MaySet(tgt, v, y)
      {
        ReferenceContent(tgt, env, pid, v);
        DeliveredIsAttainable(env, v.arg);
        assert SetsAs(v, Delivered(env, v.arg, v.arg.typ.default), y);
      }
      if MaySet(tgt, v, y) {
        var x: u64 :| Attainable(v.arg, x) && SetsAs(v, x, y);
        var env := AttainableIsDelivered(v.arg, x);
        ReferenceContent(tgt, env, 0, v);
        assert y in Content(tgt, env, 0, v) && Content(tgt, env, 0, v)[y];
      }
    } else {
      forall env: Env, pid: nat
        ensures Content(tgt, env, pid, v) == Content(tgt, map[], 0, v)
      {
        FixedContent(tgt, env, pid, v);
      }
    }
  }

  lemma RefersWhat(tgt: Target, v: Visit)
    requires Refers(tgt, v)
    ensures v.arg.ResultArg? && v.arg.typ.ResourceT? && v.arg.ref.Some? && v.addr.Some?
  {
  }

  lemma AlwaysSafeIff(tgt: Target, vs: seq<Visit>)
    requires GoodVisits(tgt, vs) && PlainVisits(tgt, vs)
    ensures AlwaysSafe(tgt, vs) <==> forall env: Env, pid: nat :: NulSafe(tgt, env, pid, vs)
  {
    hide Content, MaySet, SameNuls, GoodVisit, PlainLeaf;
    forall j: nat, y | j < |vs|
      ensures MaySet(tgt, vs[j], y) <==>
              exists env: Env, pid: nat :: y in Content(tgt, env, pid, vs[j]) && Content(tgt, env, pid, vs[j])[y]
    {
      MaySetIff(tgt, vs[j], y);
    }
    if AlwaysSafe(tgt, vs) {
      forall env: Env, pid: nat
        ensures NulSafe(tgt, env, pid, vs)
      {
        forall j: nat, y | j < |vs| && y in Content(tgt, env, pid, vs[j]) && Content(tgt, env, pid, vs[j])[y]
          ensures SameNuls(tgt, vs[j + 1..], y)
        {
          assert MaySet(tgt, vs[j], y);
        }
      }
    }
    if forall env: Env, pid: nat :: NulSafe(tgt, env, pid, vs) {
      forall j: nat, y | j < |vs| && MaySet(tgt, vs[j], y)
        ensures SameNuls(tgt, vs[j + 1..], y)
      {
        var env: Env, pid: nat :| y in Content(tgt, env, pid, vs[j]) && Content(tgt, env, pid, vs[j])[y];
        assert NulSafe(tgt, env, pid, vs);
      }
    }
  }

  /** Of trees of plain leaves that do not overlap the image is kept whatever is delivered and for every
      process, exactly if no bit that can be set is cleared behind text in one form only. */
  lemma AlwaysKeepsImage(tgt: Target, a: Arg, fld: string, m: Mem)
    requires AnyKnown(tgt) && a.PointerArg? && a.res.Some? && Laid(a) && Sized(tgt, a)
    requires UnitsApart(a) && Apart(Objects(tgt, a)) && PlainVisits(tgt, Visits(tgt, a, None, 0))
    ensures (forall env: Env, pid: nat :: ImageKept(tgt, env, pid, a, fld, m)) <==>
      AlwaysSafe(tgt, Visits(tgt, a, None, 0))
  {
    hide ImageKept, NulSafe, AlwaysSafe, Laid, Sized, UnitsApart, Apart, PlainVisits, Visits, Objects, GoodVisits;
    forall env: Env, pid: nat
      ensures ImageKept(tgt, env, pid, a, fld, m) <==> NulSafe(tgt, env, pid, Visits(tgt, a, None, 0))
    {
      PlainKeepsImage(tgt, env, pid, a, fld, m);
    }
    LaidGood(tgt, a, None, 0);
    AlwaysSafeIff(tgt, Visits(tgt, a, None, 0));
  }
}
