/** What the copyins of a tree do to memory. Each visited argument sets the bits of its content;
    numbers formatted as text also clear the byte behind them. Later visits win over earlier ones. */
module MemoryImage {
  import opened ProgTypes
  import opened ExecFormat
  import opened ExecCompile
  import opened ExecMeaning
  import opened Memory

  // ---- what can be copied in ----

  predicate IsBitfield(a: Arg) { a.ConstArg? && a.typ.IntT? && a.typ.bits.len != 0 }

  /** A leaf that the executor accepts. */
  predicate GoodLeaf(a: Arg) {
    match a
    case ConstArg(typ, _) =>
      && typ.IntT? && typ.bits.len == 0 && typ.bits.off == 0 && !typ.bits.middle
      && (IsPad(typ) || GoodSize(FormatCode(typ.bits.format), typ.c.size))
    case ResultArg(typ, _, _, _, _, _) => typ.ResourceT? && GoodSize(FormatCode(typ.format), typ.c.size)
    case PointerArg(typ, _, _, _) => (typ.VmaT? || typ.PtrT?) && GoodSize(0, typ.c.size)
    case DataArg(typ, data, outSize) => typ.BufferT? && if typ.c.dir == DirOut then data == [] else outSize == 0
    case _ => false
  }

  /** A bitfield inside a unit of the given size; the masks of the executor are narrower than a word. */
  predicate GoodField(a: Arg, size: u64) {
    && IsBitfield(a) && a.typ.c.size == size && !IsPad(a.typ)
    && (a.typ.bits.format == FormatNative || a.typ.bits.format == FormatBigEndian)
    && GoodSize(FormatCode(a.typ.bits.format), size)
    && a.typ.bits.off + a.typ.bits.len <= 8 * size && a.typ.bits.len < 64
  }

  predicate GoodBits(a: Arg) { IsBitfield(a) && GoodField(a, a.typ.c.size) }

  predicate GoodVisit(tgt: Target, v: Visit) {
    EmitsCopyin(tgt, v) ==> GoodLeaf(v.arg) || GoodBits(v.arg)
  }

  predicate GoodVisits(tgt: Target, vs: seq<Visit>) { forall i :: 0 <= i < |vs| ==> GoodVisit(tgt, vs[i]) }

  /** The number of fields of the bitfield unit that starts a list; at most the whole list. */
  function UnitLen(args: seq<Arg>): (n: nat)
    requires args != []
    ensures 0 < n <= |args|
  {
    if BitfieldMiddle(args[0].typ) && |args| > 1 then 1 + UnitLen(args[1..]) else 1
  }

  /** A unit of bitfields: all but the last are marked, and they have one size. */
  predicate GoodUnit(args: seq<Arg>, size: u64)
    ensures GoodUnit(args, size) ==> forall i :: 0 <= i < |args| ==> IsBitfield(args[i])
  {
    && args != [] && GoodField(args[0], size)
    && if |args| == 1 then !BitfieldMiddle(args[0].typ) else BitfieldMiddle(args[0].typ) && GoodUnit(args[1..], size)
  }

  /** A tree that the executor can copy in. */
  predicate Laid(a: Arg)
    decreases a, 0
  {
    match a
    case GroupArg(_, inner) => LaidSeq(inner)
    case UnionArg(_, option) => Laid(option)
    case PointerArg(_, _, _, res) => GoodLeaf(a) && (res.Some? ==> Laid(res.value))
    case _ => GoodLeaf(a)
  }

  predicate LaidSeq(args: seq<Arg>)
    decreases args
  {
    if args == [] then true
    else if IsBitfield(args[0]) then
      var n := UnitLen(args);
      GoodUnit(args[..n], args[0].typ.c.size) && LaidSeq(args[n..])
    else Laid(args[0]) && LaidSeq(args[1..])
  }

  // ---- the effect of one visit ----

  /** The value of a constant for one process. */
  function ConstFor(pid: nat, a: Arg): u64
    requires a.ConstArg?
  {
    Wrap64(ConstValue(a).0 + ConstValue(a).1 * pid)
  }

  function ArgBytes(pid: nat, e: ExecArg): seq<byte> {
    match e
    case Const(size, code, value, _, _, stride) => CodeBytes(code, Wrap64(value + stride * pid), size)
    case Data(data, _) => data
    case _ => []
  }

  /** A value in the place of a bitfield. */
  function FieldOf(at: int, f: Arg, x: nat): Effect
    requires IsBitfield(f)
  {
    FieldEffect(at, f.typ.c.size, f.typ.bits.format == FormatBigEndian, f.typ.bits.off, f.typ.bits.len, x)
  }

  /** The bits that a visit is meant to set. */
  function Content(tgt: Target, env: Env, pid: nat, v: Visit): Effect {
    if !EmitsCopyin(tgt, v) || !Writable(v.arg) then map[]
    else if IsBitfield(v.arg) then
      FieldOf(v.addr.value, v.arg, ConstFor(pid, v.arg))
    else BytesEffect(v.addr.value, ArgBytes(pid, ArgMeaning(tgt, env, v.arg)))
  }

  predicate TextArg(a: Arg) {
    || (a.ConstArg? && a.typ.IntT? && IsText(FormatCode(a.typ.bits.format)))
    || (a.ResultArg? && a.typ.ResourceT? && IsText(FormatCode(a.typ.format)))
  }

  /** The byte that formatted text clears behind its field. */
  function NulBits(tgt: Target, v: Visit): set<int> {
    if EmitsCopyin(tgt, v) && TextArg(v.arg) then ByteBits(v.addr.value + v.arg.typ.c.size, 1) else {}
  }

  function Cleared(bits: set<int>): (e: Effect)
    ensures e.Keys == bits && forall y :: y in bits ==> !e[y]
  {
    map y | y in bits :: false
  }

  lemma WritableGood(tgt: Target, v: Visit)
    requires GoodVisit(tgt, v) && EmitsCopyin(tgt, v)
    ensures Writable(v.arg)
  {
  }

  lemma WritableAll(tgt: Target, vs: seq<Visit>)
    requires GoodVisits(tgt, vs)
    ensures WritableVisits(tgt, vs)
  {
    hide GoodVisit;
    forall i | 0 <= i < |vs| && EmitsCopyin(tgt, vs[i])
      ensures Writable(vs[i].arg)
    {
      WritableGood(tgt, vs[i]);
    }
  }

  /** What a leaf is copied in as. */
  lemma LeafMeaning(tgt: Target, env: Env, pid: nat, a: Arg)
    requires GoodLeaf(a) && CopiedIn(tgt, a)
    ensures Writable(a) && |ArgBytes(pid, ArgMeaning(tgt, env, a))| == Size(tgt, a)
    ensures var e := ArgMeaning(tgt, env, a);
      || (e.Data? && !TextArg(a))
      || (e.Const? && e.bfOff == 0 && e.bfLen == 0 && (IsText(e.format) <==> TextArg(a)) && e.size == Size(tgt, a))
  {
    hide CodeBytes, PhysicalAddr, Adjust;
    var e := ArgMeaning(tgt, env, a);
    if e.Const? {
      CodeBytesSize(e.format, Wrap64(e.value + e.pidStride * pid), e.size);
    }
  }

  /** The effect of a plain instruction argument. */
  lemma PlainApplies(m: Mem, pid: nat, at: u64, e: ExecArg)
    requires e.Data? || (e.Const? && e.bfOff == 0 && e.bfLen == 0)
    ensures var s := ArgBytes(pid, e);
      Applied(m, BytesEffect(at, s) + Cleared(if e.Const? && IsText(e.format) then ByteBits(at + |s|, 1) else {}),
              CopyinMem(m, pid, Copyin(at, e)))
  {
    hide CodeBytes, Applied, BytesEffect, Store, ByteBits;
    var s := ArgBytes(pid, e);
    if e.Const? && IsText(e.format) {
      StoreApplies(m, at, s + [0]);
      BytesCat(at, s, [0]);
      OneNul(at + |s|);
    } else {
      assert e.Const? ==> s + [] == s;
      StoreApplies(m, at, s);
      NoNul(BytesEffect(at, s));
    }
  }

  lemma LeafApplies(tgt: Target, env: Env, pid: nat, v: Visit, m: Mem)
    requires EmitsCopyin(tgt, v) && GoodLeaf(v.arg)
    ensures Writable(v.arg)
    ensures Applied(m, Content(tgt, env, pid, v) + Cleared(NulBits(tgt, v)),
                    CopyinMem(m, pid, Copyin(v.addr.value, ArgMeaning(tgt, env, v.arg))))
  {
    LeafMeaning(tgt, env, pid, v.arg);
    assert !IsBitfield(v.arg) && (TextArg(v.arg) ==> v.arg.typ.c.size == Size(tgt, v.arg));
    hide GoodLeaf, ArgMeaning, CodeBytes, Applied, Writable, Store, Size, CopiedIn, CopyinMem, IsBitfield, TextArg;
    hide ArgBytes, BytesEffect, ByteBits;
    PlainApplies(m, pid, v.addr.value, ArgMeaning(tgt, env, v.arg));
  }

  lemma NoNul(e: Effect)
    ensures e + Cleared({}) == e
  {
  }

  lemma OneNul(at: int)
    ensures BytesEffect(at, [0]) == Cleared(ByteBits(at, 1))
  {
    var e := BytesEffect(at, [0]);
    forall y | y in e
      ensures !e[y]
    {
      ZeroBits(y % 8);
    }
  }

  lemma FieldMeaning(tgt: Target, env: Env, f: Arg)
    requires GoodBits(f)
    ensures var (value, stride) := ConstValue(f);
      && Writable(f) && !TextArg(f) && f.typ.bits.off < TWO64 && f.typ.bits.len < TWO64
      && ArgMeaning(tgt, env, f) == Const(f.typ.c.size, if f.typ.bits.format == FormatBigEndian then 1 else 0, value,
                                          f.typ.bits.off, f.typ.bits.len, stride)
  {
    hide ConstValue;
  }

  lemma GoodFieldApplies(tgt: Target, env: Env, pid: nat, v: Visit, m: Mem)
    requires EmitsCopyin(tgt, v) && GoodBits(v.arg)
    ensures Writable(v.arg)
    ensures Applied(m, Content(tgt, env, pid, v) + Cleared(NulBits(tgt, v)),
                    CopyinMem(m, pid, Copyin(v.addr.value, ArgMeaning(tgt, env, v.arg))))
  {
    hide Applied, CopyinMem, ArgMeaning, ConstValue, Writable, CopiedIn, GoodSize, TextArg, FieldEffect, Cleared;
    var a := v.arg;
    FieldMeaning(tgt, env, a);
    var (value, stride) := ConstValue(a);
    var big := a.typ.bits.format == FormatBigEndian;
    FieldApplies(m, pid, v.addr.value, a.typ.c.size, big, value, a.typ.bits.off, a.typ.bits.len, stride);
    var e := FieldEffect(v.addr.value, a.typ.c.size, big, a.typ.bits.off, a.typ.bits.len, ConstFor(pid, a));
    assert Content(tgt, env, pid, v) == e;
    NoNul(e);
  }

  // ---- the effect of a list of visits ----

  function Effects(tgt: Target, env: Env, pid: nat, vs: seq<Visit>): Effect {
    if vs == [] then map[]
    else Content(tgt, env, pid, vs[0]) + Cleared(NulBits(tgt, vs[0])) + Effects(tgt, env, pid, vs[1..])
  }

  function ContentBits(tgt: Target, env: Env, pid: nat, vs: seq<Visit>): set<int> {
    if vs == [] then {} else Content(tgt, env, pid, vs[0]).Keys + ContentBits(tgt, env, pid, vs[1..])
  }

  function Nuls(tgt: Target, vs: seq<Visit>): set<int> {
    if vs == [] then {} else NulBits(tgt, vs[0]) + Nuls(tgt, vs[1..])
  }

  /** Memory after the copyins of visited arguments. */
  function Run(tgt: Target, env: Env, pid: nat, m: Mem, vs: seq<Visit>): Mem
    requires WritableVisits(tgt, vs)
  {
    CopyinsMem(m, pid, Writes(tgt, env, vs))
  }

  lemma RunFirst(tgt: Target, env: Env, pid: nat, m: Mem, vs: seq<Visit>)
    requires WritableVisits(tgt, vs) && vs != []
    ensures WritableVisits(tgt, vs[1..])
    ensures var m1 := if !EmitsCopyin(tgt, vs[0]) then m
                      else CopyinMem(m, pid, Copyin(vs[0].addr.value, ArgMeaning(tgt, env, vs[0].arg)));
      Run(tgt, env, pid, m, vs) == Run(tgt, env, pid, m1, vs[1..])
  {
    hide ArgMeaning, CopyinMem, CopiedIn;
    var ws := Writes(tgt, env, vs[1..]);
    if EmitsCopyin(tgt, vs[0]) {
      var c := Copyin(vs[0].addr.value, ArgMeaning(tgt, env, vs[0].arg));
      assert Writes(tgt, env, vs) == [c] + ws;
      assert ([c] + ws)[0] == c && ([c] + ws)[1..] == ws;
    } else {
      assert Writes(tgt, env, vs) == [] + ws == ws;
    }
  }

  lemma VisitApplies(tgt: Target, env: Env, pid: nat, v: Visit, m: Mem)
    requires GoodVisit(tgt, v) && EmitsCopyin(tgt, v)
    ensures Writable(v.arg)
    ensures Applied(m, Content(tgt, env, pid, v) + Cleared(NulBits(tgt, v)),
                    CopyinMem(m, pid, Copyin(v.addr.value, ArgMeaning(tgt, env, v.arg))))
  {
    hide CopyinMem, ArgMeaning, Applied, Content, NulBits, GoodLeaf, GoodBits;
    if GoodLeaf(v.arg) {
      LeafApplies(tgt, env, pid, v, m);
    } else {
      GoodFieldApplies(tgt, env, pid, v, m);
    }
  }

  /** Executing copyins sets exactly the bits of their effects, whatever memory holds before. */
  lemma {:induction false} RunIs(tgt: Target, env: Env, pid: nat, vs: seq<Visit>, m: Mem)
    requires GoodVisits(tgt, vs)
    ensures WritableVisits(tgt, vs)
    ensures Applied(m, Effects(tgt, env, pid, vs), Run(tgt, env, pid, m, vs))
    decreases vs
  {
    hide CopyinMem, ArgMeaning, Applied, GoodVisit, Run, CopiedIn;
    WritableAll(tgt, vs);
    if vs == [] {
      NothingRuns(tgt, env, pid, m);
    } else {
      var v, rest := vs[0], vs[1..];
      RunFirst(tgt, env, pid, m, vs);
      RunIs(tgt, env, pid, rest, m);
      var e := Content(tgt, env, pid, v) + Cleared(NulBits(tgt, v));
      if EmitsCopyin(tgt, v) {
        VisitApplies(tgt, env, pid, v, m);
        var m1 := CopyinMem(m, pid, Copyin(v.addr.value, ArgMeaning(tgt, env, v.arg)));
        RunIs(tgt, env, pid, rest, m1);
        AppliedTwice(m, e, m1, Effects(tgt, env, pid, rest), Run(tgt, env, pid, m1, rest));
      } else {
        assert e == map[];
        assert map[] + Effects(tgt, env, pid, rest) == Effects(tgt, env, pid, rest);
      }
    }
  }

  lemma NothingRuns(tgt: Target, env: Env, pid: nat, m: Mem)
    ensures WritableVisits(tgt, []) && Run(tgt, env, pid, m, []) == m && Applied(m, map[], m)
  {
    assert Writes(tgt, env, []) == [];
  }

  lemma {:induction false} EffectsSplit(tgt: Target, env: Env, pid: nat, a: seq<Visit>, b: seq<Visit>)
    ensures Effects(tgt, env, pid, a + b) == Effects(tgt, env, pid, a) + Effects(tgt, env, pid, b)
    decreases a
  {
    hide Content, NulBits;
    if a == [] {
      assert a + b == b;
    } else {
      assert (a + b)[0] == a[0] && (a + b)[1..] == a[1..] + b;
      EffectsSplit(tgt, env, pid, a[1..], b);
      MergeAssoc(Content(tgt, env, pid, a[0]) + Cleared(NulBits(tgt, a[0])), Effects(tgt, env, pid, a[1..]),
                 Effects(tgt, env, pid, b));
    }
  }

  lemma MergeAssoc(a: Effect, b: Effect, c: Effect)
    ensures a + (b + c) == a + b + c
  {
  }

  lemma {:induction false} ContentBitsSplit(tgt: Target, env: Env, pid: nat, a: seq<Visit>, b: seq<Visit>)
    ensures ContentBits(tgt, env, pid, a + b) == ContentBits(tgt, env, pid, a) + ContentBits(tgt, env, pid, b)
    decreases a
  {
    hide Content;
    if a == [] {
      assert a + b == b;
    } else {
      assert (a + b)[0] == a[0] && (a + b)[1..] == a[1..] + b;
      ContentBitsSplit(tgt, env, pid, a[1..], b);
    }
  }

  /** Where no content lies, only the clearing behind text has an effect. */
  lemma {:induction false} EffectsElsewhere(tgt: Target, env: Env, pid: nat, vs: seq<Visit>, y: int)
    requires y !in ContentBits(tgt, env, pid, vs)
    ensures var e := Effects(tgt, env, pid, vs); (y in e <==> y in Nuls(tgt, vs)) && (y in e ==> !e[y])
    decreases vs
  {
    hide Content, NulBits;
    if vs != [] {
      EffectsElsewhere(tgt, env, pid, vs[1..], y);
    }
  }

  // ---- the objects of a tree ----

  /** Bytes from an address on. */
  datatype Span = Span(at: int, size: nat)

  /** What a tree points to, nested pointees included. */
  function Objects(tgt: Target, a: Arg): seq<Span>
    decreases a, 0
  {
    match a
    case GroupArg(_, inner) => ObjectsSeq(tgt, inner)
    case UnionArg(_, option) => Objects(tgt, option)
    case PointerArg(_, _, _, res) =>
      if res.None? then [] else [Span(PhysicalAddr(tgt, a), Size(tgt, res.value))] + Objects(tgt, res.value)
    case _ => []
  }

  function ObjectsSeq(tgt: Target, args: seq<Arg>): seq<Span>
    decreases args
  {
    if args == [] then [] else Objects(tgt, args[0]) + ObjectsSeq(tgt, args[1..])
  }

  function SpanBits(objs: seq<Span>): set<int> {
    if objs == [] then {} else ByteBits(objs[0].at, objs[0].size) + SpanBits(objs[1..])
  }

  /** No object wraps around the end of memory. */
  predicate FitMemory(objs: seq<Span>) { forall i :: 0 <= i < |objs| ==> objs[i].at + objs[i].size <= TWO64 }

  /** Objects do not overlap and do not wrap around the end of memory. */
  predicate Apart(objs: seq<Span>) {
    || objs == []
    || (objs[0].at + objs[0].size <= TWO64 && ByteBits(objs[0].at, objs[0].size) !! SpanBits(objs[1..])
        && Apart(objs[1..]))
  }

  lemma {:induction false} BitsSplit(a: seq<Span>, b: seq<Span>)
    ensures SpanBits(a + b) == SpanBits(a) + SpanBits(b)
    decreases a
  {
    hide ByteBits;
    if a == [] {
      assert a + b == b;
    } else {
      assert (a + b)[0] == a[0] && (a + b)[1..] == a[1..] + b;
      BitsSplit(a[1..], b);
    }
  }

  lemma {:induction false} ApartLists(a: seq<Span>, b: seq<Span>)
    requires Apart(a + b)
    ensures Apart(a) && Apart(b) && SpanBits(a) !! SpanBits(b)
    decreases a
  {
    hide ByteBits;
    if a == [] {
      assert a + b == b;
    } else {
      assert (a + b)[0] == a[0] && (a + b)[1..] == a[1..] + b;
      BitsSplit(a[1..], b);
      ApartLists(a[1..], b);
    }
  }

  /** The bits of n bytes at an address and of the objects that they point to. */
  function Cover(at: int, n: nat, objs: seq<Span>): set<int> { ByteBits(at, n) + SpanBits(objs) }

  predicate Free(at: int, n: nat, objs: seq<Span>) {
    at + n <= TWO64 && ByteBits(at, n) !! SpanBits(objs) && Apart(objs)
  }

  /** Neighbours share no bit. */
  lemma FreeHalves(at: int, n: nat, k: nat, a: seq<Span>, b: seq<Span>)
    requires Free(at, n + k, a + b)
    ensures Free(at, n, a) && Free(at + n, k, b)
    ensures Cover(at, n, a) !! Cover(at + n, k, b)
    ensures Cover(at, n + k, a + b) == Cover(at, n, a) + Cover(at + n, k, b)
  {
    hide Apart, SpanBits, ByteBits;
    BitsSplit(a, b);
    ApartLists(a, b);
    assert ByteBits(at, n + k) == ByteBits(at, n) + ByteBits(at + n, k);
  }

  /** A pointee is free of its pointer. */
  lemma FreePointee(at: int, n: nat, s: Span, objs: seq<Span>)
    requires Free(at, n, [s] + objs)
    ensures Free(s.at, s.size, objs) && Cover(at, n, []) !! Cover(s.at, s.size, objs)
    ensures Cover(at, n, [s] + objs) == Cover(at, n, []) + Cover(s.at, s.size, objs)
  {
    assert ([s] + objs)[0] == s && ([s] + objs)[1..] == objs;
  }

  // ---- visits ----

  lemma VisitsAssoc(a: seq<Visit>, b: seq<Visit>, c: seq<Visit>)
    ensures a + (b + c) == a + b + c
  {
  }

  lemma {:induction false} VisitsSeqSplit(tgt: Target, a: seq<Arg>, b: seq<Arg>, base: Option<u64>, off: nat)
    ensures VisitsSeq(tgt, a + b, base, off) ==
            VisitsSeq(tgt, a, base, off) + VisitsSeq(tgt, b, base, off + SizeSum(tgt, a))
    decreases a
  {
    hide Visits, Size;
    if a == [] {
      assert a + b == b && VisitsSeq(tgt, a, base, off) == [];
    } else {
      var off1 := Advance(tgt, a[0], off);
      assert (a + b)[0] == a[0] && (a + b)[1..] == a[1..] + b;
      VisitsSeqSplit(tgt, a[1..], b, base, off1);
      VisitsAssoc(Visits(tgt, a[0], base, off), VisitsSeq(tgt, a[1..], base, off1),
                  VisitsSeq(tgt, b, base, off + SizeSum(tgt, a)));
    }
  }

  lemma GoodCat(tgt: Target, a: seq<Visit>, b: seq<Visit>)
    requires GoodVisits(tgt, a) && GoodVisits(tgt, b)
    ensures GoodVisits(tgt, a + b)
  {
    hide GoodVisit;
  }

  /** Everything laid out can be copied in. */
  lemma {:induction false} LaidGood(tgt: Target, a: Arg, base: Option<u64>, off: nat)
    requires Laid(a)
    ensures GoodVisits(tgt, Visits(tgt, a, base, off))
    decreases a, 0
  {
    hide Place, PhysicalAddr, Size, GoodLeaf;
    var head := [Visit(a, Place(base, off))];
    assert GoodVisits(tgt, head);
    match a
    case GroupArg(_, inner) =>
      LaidSeqGood(tgt, inner, base, off);
      GoodCat(tgt, head, VisitsSeq(tgt, inner, base, off));
    case UnionArg(_, option) =>
      LaidGood(tgt, option, base, off);
      GoodCat(tgt, head, Visits(tgt, option, base, off));
    case PointerArg(_, _, _, res) =>
      if res.Some? {
        LaidGood(tgt, res.value, Some(PhysicalAddr(tgt, a)), 0);
        GoodCat(tgt, head, Visits(tgt, res.value, Some(PhysicalAddr(tgt, a)), 0));
      }
    case _ =>
  }

  lemma {:induction false} LaidSeqGood(tgt: Target, args: seq<Arg>, base: Option<u64>, off: nat)
    requires LaidSeq(args)
    ensures GoodVisits(tgt, VisitsSeq(tgt, args, base, off))
    decreases args
  {
    hide GoodVisits, Laid, GoodUnit, Visits;
    if args == [] {
      NoVisits(tgt);
    } else if IsBitfield(args[0]) {
      var n := UnitLen(args);
      UnitGood(tgt, args[..n], args[0].typ.c.size, base, off);
      var off1 := off + SizeSum(tgt, args[..n]);
      LaidSeqGood(tgt, args[n..], base, off1);
      assert args == args[..n] + args[n..];
      VisitsSeqSplit(tgt, args[..n], args[n..], base, off);
      GoodCat(tgt, VisitsSeq(tgt, args[..n], base, off), VisitsSeq(tgt, args[n..], base, off1));
    } else {
      LaidGood(tgt, args[0], base, off);
      LaidSeqGood(tgt, args[1..], base, Advance(tgt, args[0], off));
      GoodCat(tgt, Visits(tgt, args[0], base, off), VisitsSeq(tgt, args[1..], base, Advance(tgt, args[0], off)));
    }
  }

  lemma NoVisits(tgt: Target)
    ensures GoodVisits(tgt, [])
  {
  }

  lemma UnitHead(tgt: Target, args: seq<Arg>, size: u64, base: Option<u64>, off: nat)
    requires GoodUnit(args, size)
    ensures GoodField(args[0], size) && Size(tgt, args[0]) == size > 0
    ensures VisitsSeq(tgt, args, base, off) ==
            [Visit(args[0], Place(base, off))] + if |args| > 1 then VisitsSeq(tgt, args[1..], base, off) else []
  {
    if |args| == 1 {
      assert args[1..] == [];
    }
  }

  lemma {:induction false} UnitGood(tgt: Target, args: seq<Arg>, size: u64, base: Option<u64>, off: nat)
    requires GoodUnit(args, size)
    ensures GoodVisits(tgt, VisitsSeq(tgt, args, base, off))
    decreases args
  {
    hide GoodField, Place, VisitsSeq, EmitsCopyin;
    UnitHead(tgt, args, size, base, off);
    var head := [Visit(args[0], Place(base, off))];
    if |args| > 1 {
      UnitGood(tgt, args[1..], size, base, off);
      GoodCat(tgt, head, VisitsSeq(tgt, args[1..], base, off));
    }
  }

  lemma {:induction false} UnitSize(tgt: Target, args: seq<Arg>, size: u64)
    requires GoodUnit(args, size)
    ensures SizeSum(tgt, args) == size
  {
    if |args| > 1 {
      UnitSize(tgt, args[1..], size);
    } else {
      assert args[1..] == [];
    }
  }

  lemma {:induction false} SizeSumSplit(tgt: Target, a: seq<Arg>, b: seq<Arg>)
    ensures SizeSum(tgt, a + b) == SizeSum(tgt, a) + SizeSum(tgt, b)
    decreases a
  {
    hide Size;
    if a == [] {
      assert a + b == b;
    } else {
      assert (a + b)[0] == a[0] && (a + b)[1..] == a[1..] + b;
      SizeSumSplit(tgt, a[1..], b);
    }
  }
}
