/** Squashing where nothing overlaps. Then a bit of content can only be cleared behind text, so that the image
    is kept exactly if each leaf is squashed to its own bits and no text clears them in one form only. */
module SquashApart {
  import opened ProgTypes
  import opened ExecFormat
  import opened ExecCompile
  import opened ExecMeaning
  import opened Memory
  import opened MemoryImage
  import opened Squash
  import opened SquashMarks
  import opened SquashImage
  import opened SquashMemory

  // ---- marks that share no bit ----

  function OwnBits(k: Mark): set<int> { k.s.Keys + k.body.Keys }

  function AllOwn(ms: seq<Mark>): set<int> {
    if ms == [] then {} else OwnBits(ms[0]) + AllOwn(ms[1..])
  }

  predicate MarksApart(ms: seq<Mark>) {
    ms == [] || (OwnBits(ms[0]) !! AllOwn(ms[1..]) && MarksApart(ms[1..]))
  }

  lemma {:induction false} OwnSplit(a: seq<Mark>, b: seq<Mark>)
    ensures AllOwn(a + b) == AllOwn(a) + AllOwn(b)
    decreases a
  {
    hide OwnBits;
    if a == [] {
      assert a + b == b;
    } else {
      assert (a + b)[0] == a[0] && (a + b)[1..] == a[1..] + b;
      OwnSplit(a[1..], b);
    }
  }

  lemma {:induction false} MarksApartJoin(a: seq<Mark>, b: seq<Mark>)
    requires MarksApart(a) && MarksApart(b) && AllOwn(a) !! AllOwn(b)
    ensures MarksApart(a + b)
    decreases a
  {
    hide OwnBits;
    if a == [] {
      assert a + b == b;
    } else {
      assert (a + b)[0] == a[0] && (a + b)[1..] == a[1..] + b;
      OwnSplit(a[1..], b);
      MarksApartJoin(a[1..], b);
    }
  }

  /** Outside the bits of its marks, a list only clears behind text. */
  lemma {:induction false} FillsOutside(tgt: Target, env: Env, pid: nat, ms: seq<Mark>, y: int)
    requires GoodMarks(tgt, env, pid, ms) && y !in AllOwn(ms)
    ensures y !in ContentBits(tgt, env, pid, Visited(ms))
    ensures (y in Fills(ms) <==> y in SquashedNuls(Visited(ms))) && (y in Fills(ms) ==> !Fills(ms)[y])
    decreases ms
  {
    hide Content, NulBits, SquashedNul;
    if ms != [] {
      var k, rest := ms[0], Visited(ms[1..]);
      assert GoodMark(tgt, env, pid, k);
      FillsOutside(tgt, env, pid, ms[1..], y);
      VisitedFirst(tgt, env, pid, ms);
      if k.v.Some? {
        var vs := [k.v.value] + rest;
        assert Visited(ms) == vs && vs[0] == k.v.value && vs[1..] == rest;
      } else {
        assert Visited(ms) == [] + rest == rest;
      }
    }
  }

  lemma {:induction false} ApartAt(ms: seq<Mark>, i: nat)
    requires MarksApart(ms) && i < |ms|
    ensures OwnBits(ms[i]) !! AllOwn(ms[i + 1..])
    decreases i
  {
    hide OwnBits;
    if i > 0 {
      ApartAt(ms[1..], i - 1);
      assert ms[1..][i..] == ms[i + 1..];
    }
  }

  /** A bit of a visit's content is squashed to the same value, and cleared later in both forms or in neither. */
  predicate BitKept(tgt: Target, env: Env, pid: nat, ms: seq<Mark>, i: nat, y: int)
    requires i < |ms| && y in Sets(tgt, env, pid, ms[i]) && y in ms[i].s
  {
    var later := Visited(ms[i + 1..]);
    (Sets(tgt, env, pid, ms[i])[y] && y !in Nuls(tgt, later)) == (ms[i].s[y] && y !in SquashedNuls(later))
  }

  ghost predicate KeptApart(tgt: Target, env: Env, pid: nat, ms: seq<Mark>) {
    forall i: nat, y :: i < |ms| && y in Sets(tgt, env, pid, ms[i]) && y in ms[i].s ==> BitKept(tgt, env, pid, ms, i, y)
  }

  lemma ApartIff(tgt: Target, env: Env, pid: nat, ms: seq<Mark>)
    requires GoodMarks(tgt, env, pid, ms) && MarksApart(ms)
    ensures Kept(tgt, env, pid, ms) <==> KeptApart(tgt, env, pid, ms)
  {
    hide Content, NulBits, MarksApart, Visited, Fills, Nuls, SquashedNuls, ContentBits, Sets, AllOwn;
    forall i: nat, y | i < |ms| && y in Sets(tgt, env, pid, ms[i]) && y in ms[i].s
      ensures Decides(tgt, env, pid, ms, i, y)
      ensures Survives(tgt, env, pid, ms, i, y) <==> BitKept(tgt, env, pid, ms, i, y)
    {
      ApartAt(ms, i);
      assert y in OwnBits(ms[i]);
      FillsOutside(tgt, env, pid, ms[i + 1..], y);
    }
  }

  // ---- trees whose objects and fields do not overlap ----

  /** The fields of a unit have one byte order and share no bit. */
  predicate UnitApart(unit: seq<Arg>)
    requires forall i :: 0 <= i < |unit| ==> IsBitfield(unit[i])
  {
    forall i, k :: 0 <= i < k < |unit| ==> FieldsApart(unit[i], unit[k])
  }

  predicate FieldsApart(f: Arg, g: Arg)
    requires IsBitfield(f) && IsBitfield(g)
  {
    && f.typ.bits.format == g.typ.bits.format
    && (f.typ.bits.off + f.typ.bits.len <= g.typ.bits.off || g.typ.bits.off + g.typ.bits.len <= f.typ.bits.off)
  }

  predicate UnitsApart(a: Arg)
    requires Laid(a)
    decreases a, 0
  {
    match a
    case GroupArg(_, inner) => UnitsApartSeq(inner)
    case UnionArg(_, option) => UnitsApart(option)
    case PointerArg(_, _, _, res) => res.Some? ==> UnitsApart(res.value)
    case _ => true
  }

  predicate UnitsApartSeq(args: seq<Arg>)
    requires LaidSeq(args)
    decreases args
  {
    if args == [] then true
    else if IsBitfield(args[0]) then UnitApart(args[..UnitLen(args)]) && UnitsApartSeq(args[UnitLen(args)..])
    else UnitsApart(args[0]) && UnitsApartSeq(args[1..])
  }

  /** Marks that share no bit and stay inside a set of bits. */
  ghost predicate Tidy(ms: seq<Mark>, cover: set<int>) { MarksApart(ms) && AllOwn(ms) <= cover }

  lemma TidyJoin(a: seq<Mark>, c: set<int>, b: seq<Mark>, d: set<int>)
    requires Tidy(a, c) && Tidy(b, d) && c !! d
    ensures Tidy(a + b, c + d)
  {
    hide MarksApart, AllOwn;
    MarksApartJoin(a, b);
    OwnSplit(a, b);
  }

  lemma TidyOne(k: Mark, cover: set<int>)
    requires OwnBits(k) <= cover
    ensures Tidy([k], cover)
  {
    assert [k][1..] == [];
  }

  lemma LeafTidy(tgt: Target, env: Env, a: Arg, base: u64, off: nat)
    requires IsLeaf(a) && GoodLeaf(a) && Sized(tgt, a) && base + off + Size(tgt, a) <= TWO64
    ensures Tidy([LeafMark(tgt, env, Visit(a, Place(Some(base), off)))], Cover(base + off, Size(tgt, a), []))
  {
    hide Flat, GoodLeaf, Sized, BytesEffect, SquashedNul, CopiedIn, Size, Tidy;
    FlatSize(tgt, env, a);
    PlacedBytes(base, off, Flat(tgt, env, a));
    TidyOne(LeafMark(tgt, env, Visit(a, Place(Some(base), off))), Cover(base + off, Size(tgt, a), []));
  }

  lemma HeadTidy(tgt: Target, env: Env, v: Visit)
    requires v.arg.GroupArg? || v.arg.UnionArg? || v.addr.None?
    ensures Tidy([LeafMark(tgt, env, v)], {})
  {
    TidyOne(LeafMark(tgt, env, v), {});
  }

  /** A head, marks, and padding behind them. */
  lemma BracketedTidy(tgt: Target, env: Env, v: Visit, ms: seq<Mark>, at: nat, n: nat, pad: nat, objs: seq<Span>)
    requires (v.arg.GroupArg? || v.arg.UnionArg?) && Tidy(ms, Cover(at, n, objs)) && Free(at, n + pad, objs)
    ensures Tidy([LeafMark(tgt, env, v)] + (ms + [PadMark(at + n, pad)]), Cover(at, n + pad, objs))
  {
    hide Tidy, LeafMark, Free, Cover;
    HeadTidy(tgt, env, v);
    PadTidy(at + n, pad);
    assert objs + [] == objs;
    FreeHalves(at, n, pad, objs, []);
    TidyJoin(ms, Cover(at, n, objs), [PadMark(at + n, pad)], Cover(at + n, pad, []));
    TidyJoin([LeafMark(tgt, env, v)], {}, ms + [PadMark(at + n, pad)], Cover(at, n + pad, objs));
    assert {} + Cover(at, n + pad, objs) == Cover(at, n + pad, objs);
  }

  lemma PadTidy(at: int, n: nat)
    ensures Tidy([PadMark(at, n)], Cover(at, n, []))
  {
    hide BytesEffect;
    TidyOne(PadMark(at, n), Cover(at, n, []));
  }

  lemma {:induction false} TreeTidy(tgt: Target, env: Env, pid: nat, a: Arg, base: u64, off: nat)
    requires Laid(a) && Sized(tgt, a) && UnitsApart(a) && Free(base + off, Size(tgt, a), Objects(tgt, a))
    ensures Tidy(Marks(tgt, env, pid, a, base, off), Cover(base + off, Size(tgt, a), Objects(tgt, a)))
    decreases a, 1
  {
    hide Tidy, Cover, Free, LeafMark, PadMark, Size, SizeSum, GroupPad, UnionPad, GoodLeaf, PhysicalAddr, Place;
    var v, at := Visit(a, Place(Some(base), off)), base + off;
    PadSizes(tgt, a);
    FreeFits(at, Size(tgt, a), Objects(tgt, a));
    match a
    case GroupArg(_, inner) =>
      FirstFree(at, SizeSum(tgt, inner), GroupPad(tgt, a), ObjectsSeq(tgt, inner));
      SeqTidy(tgt, env, pid, inner, base, off);
      BracketedTidy(tgt, env, v, MarksSeq(tgt, env, pid, inner, base, off), at, SizeSum(tgt, inner), GroupPad(tgt, a),
                    ObjectsSeq(tgt, inner));
    case UnionArg(_, option) =>
      FirstFree(at, Size(tgt, option), UnionPad(tgt, a), Objects(tgt, option));
      TreeTidy(tgt, env, pid, option, base, off);
      BracketedTidy(tgt, env, v, Marks(tgt, env, pid, option, base, off), at, Size(tgt, option), UnionPad(tgt, a),
                    Objects(tgt, option));
    case PointerArg(_, _, _, res) =>
      LeafTidy(tgt, env, a, base, off);
      if res.Some? {
        var to, inner := PhysicalAddr(tgt, a), res.value;
        FreePointee(at, Size(tgt, a), Span(to, Size(tgt, inner)), Objects(tgt, inner));
        TreeTidy(tgt, env, pid, inner, to, 0);
        TidyJoin([LeafMark(tgt, env, v)], Cover(at, Size(tgt, a), []), Marks(tgt, env, pid, inner, to, 0),
                 Cover(to, Size(tgt, inner), Objects(tgt, inner)));
      }
    case _ => LeafTidy(tgt, env, a, base, off);
  }

  lemma FreeFits(at: int, n: nat, objs: seq<Span>)
    requires Free(at, n, objs)
    ensures at + n <= TWO64
  {
  }

  lemma FirstFree(at: int, n: nat, pad: nat, objs: seq<Span>)
    requires Free(at, n + pad, objs)
    ensures Free(at, n, objs)
  {
    assert objs + [] == objs;
    FreeHalves(at, n, pad, objs, []);
  }

  lemma {:induction false} SeqTidy(tgt: Target, env: Env, pid: nat, args: seq<Arg>, base: u64, off: nat)
    requires LaidSeq(args) && SizedSeq(tgt, args) && UnitsApartSeq(args)
    requires Free(base + off, SizeSum(tgt, args), ObjectsSeq(tgt, args))
    ensures Tidy(MarksSeq(tgt, env, pid, args, base, off), Cover(base + off, SizeSum(tgt, args), ObjectsSeq(tgt, args)))
    decreases args, 0
  {
    hide Tidy, Cover, Free, Marks, UnitMarks, Size, Laid, Sized, GoodUnit, Objects, UnitApart, UnitsApart;
    var at := base + off;
    if args == [] {
      NothingTidy(Cover(at, SizeSum(tgt, args), ObjectsSeq(tgt, args)));
    } else if IsBitfield(args[0]) {
      var unit, rest, size := UnitOf(tgt, args);
      var objs := ObjectsSeq(tgt, rest);
      assert [] + objs == objs;
      FreeHalves(at, size, SizeSum(tgt, rest), [], objs);
      FreeFits(at, size, []);
      UnitTidy(tgt, env, pid, unit, size, base, off);
      SeqTidy(tgt, env, pid, rest, base, off + size);
      TidyJoin(UnitMarks(tgt, env, pid, unit, size, base, off), Cover(at, size, []),
               MarksSeq(tgt, env, pid, rest, base, off + size), Cover(at + size, SizeSum(tgt, rest), objs));
    } else {
      var n, a, b := Size(tgt, args[0]), Objects(tgt, args[0]), ObjectsSeq(tgt, args[1..]);
      FreeHalves(at, n, SizeSum(tgt, args[1..]), a, b);
      TreeTidy(tgt, env, pid, args[0], base, off);
      SeqTidy(tgt, env, pid, args[1..], base, off + n);
      TidyJoin(Marks(tgt, env, pid, args[0], base, off), Cover(at, n, a),
               MarksSeq(tgt, env, pid, args[1..], base, off + n), Cover(at + n, SizeSum(tgt, args[1..]), b));
    }
  }

  lemma NothingTidy(cover: set<int>)
    ensures Tidy([], cover)
  {
  }

  // ---- bitfield units ----

  /** The visits of a unit, one for each field. */
  lemma {:induction false} UnitVisits(tgt: Target, unit: seq<Arg>, size: u64, base: u64, off: nat)
    requires GoodUnit(unit, size)
    ensures var vs := VisitsSeq(tgt, unit, Some(base), off);
      |vs| == |unit| && forall i :: 0 <= i < |unit| ==> vs[i] == Visit(unit[i], Place(Some(base), off))
    decreases unit
  {
    hide GoodField, VisitsSeq, Place;
    UnitHead(tgt, unit, size, Some(base), off);
    if |unit| > 1 {
      UnitVisits(tgt, unit[1..], size, base, off);
    }
  }

  predicate VisitsApart(tgt: Target, env: Env, pid: nat, vs: seq<Visit>) {
    forall i, k :: 0 <= i < k < |vs| ==> Content(tgt, env, pid, vs[i]).Keys !! Content(tgt, env, pid, vs[k]).Keys
  }

  lemma FieldContentsApart(tgt: Target, env: Env, pid: nat, f: Arg, g: Arg, addr: Option<u64>)
    requires IsBitfield(f) && IsBitfield(g) && FieldsApart(f, g) && f.typ.c.size == g.typ.c.size
    ensures Content(tgt, env, pid, Visit(f, addr)).Keys !! Content(tgt, env, pid, Visit(g, addr)).Keys
  {
    hide CopiedIn, ConstFor, ByteBits, NumberBit;
  }

  lemma {:induction false} FieldMarksApart(tgt: Target, env: Env, pid: nat, e: Effect, vs: seq<Visit>)
    requires VisitsApart(tgt, env, pid, vs)
    ensures MarksApart(FieldMarks(tgt, env, pid, e, vs))
    ensures AllOwn(FieldMarks(tgt, env, pid, e, vs)) <= ContentBits(tgt, env, pid, vs) * e.Keys
    decreases vs
  {
    hide Content;
    if vs != [] {
      var v, rest := vs[0], vs[1..];
      assert forall k :: 0 <= k < |rest| ==> rest[k] == vs[k + 1];
      FieldMarksApart(tgt, env, pid, e, rest);
      var k, ks := Mark(Some(v), Inside(e, Content(tgt, env, pid, v).Keys), map[], {}),
        FieldMarks(tgt, env, pid, e, rest);
      assert ([k] + ks)[0] == k && ([k] + ks)[1..] == ks;
      FirstApart(tgt, env, pid, vs);
    }
  }

  lemma {:induction false} NoneOf(tgt: Target, env: Env, pid: nat, vs: seq<Visit>, y: int)
    requires forall k :: 0 <= k < |vs| ==> y !in Content(tgt, env, pid, vs[k])
    ensures y !in ContentBits(tgt, env, pid, vs)
  {
    hide Content;
    if vs != [] {
      NoneOf(tgt, env, pid, vs[1..], y);
    }
  }

  lemma FirstApart(tgt: Target, env: Env, pid: nat, vs: seq<Visit>)
    requires vs != [] && VisitsApart(tgt, env, pid, vs)
    ensures Content(tgt, env, pid, vs[0]).Keys !! ContentBits(tgt, env, pid, vs[1..])
  {
    hide Content;
    forall y | y in Content(tgt, env, pid, vs[0]).Keys
      ensures y !in ContentBits(tgt, env, pid, vs[1..])
    {
      assert forall k :: 0 <= k < |vs| - 1 ==> vs[1..][k] == vs[k + 1];
      NoneOf(tgt, env, pid, vs[1..], y);
    }
  }

  lemma UnitTidy(tgt: Target, env: Env, pid: nat, unit: seq<Arg>, size: u64, base: u64, off: nat)
    requires GoodUnit(unit, size) && UnitApart(unit) && base + off + size <= TWO64
    ensures Tidy(UnitMarks(tgt, env, pid, unit, size, base, off), Cover(base + off, size, []))
  {
    var e, vs := BytesEffect(base + off, LE(UnitBits(unit, 0), size)), VisitsSeq(tgt, unit, Some(base), off);
    UnitVisitsApart(tgt, env, pid, unit, size, base, off);
    hide VisitsApart, GoodUnit, UnitApart, BytesEffect, VisitsSeq, FieldMarks, UnitBits, LE, ContentBits, MarksApart,
      AllOwn;
    FieldMarksApart(tgt, env, pid, e, vs);
    var bits, ks := ContentBits(tgt, env, pid, vs), FieldMarks(tgt, env, pid, e, vs);
    var k := Mark(None, map[], Outside(e, bits), {});
    TidyOne(k, e.Keys - bits);
    TidyJoin([k], e.Keys - bits, ks, bits * e.Keys);
    assert e.Keys - bits + bits * e.Keys == Cover(base + off, size, []);
  }

  lemma {:induction false} UnitSizes(unit: seq<Arg>, size: u64)
    requires GoodUnit(unit, size)
    ensures forall i :: 0 <= i < |unit| ==> IsBitfield(unit[i]) && GoodField(unit[i], size)
    decreases unit
  {
    hide GoodField;
    if |unit| > 1 {
      UnitSizes(unit[1..], size);
    }
  }

  lemma UnitVisitsApart(tgt: Target, env: Env, pid: nat, unit: seq<Arg>, size: u64, base: u64, off: nat)
    requires GoodUnit(unit, size) && UnitApart(unit)
    ensures VisitsApart(tgt, env, pid, VisitsSeq(tgt, unit, Some(base), off))
  {
    hide GoodUnit, VisitsSeq, Content, Place, FieldsApart;
    var vs := VisitsSeq(tgt, unit, Some(base), off);
    UnitVisits(tgt, unit, size, base, off);
    UnitSizes(unit, size);
    forall i, k | 0 <= i < k < |vs|
      ensures Content(tgt, env, pid, vs[i]).Keys !! Content(tgt, env, pid, vs[k]).Keys
    {
      FieldContentsApart(tgt, env, pid, unit[i], unit[k], Place(Some(base), off));
    }
  }

  // ---- the memory image ----

  lemma {:induction false} ApartFits(objs: seq<Span>)
    requires Apart(objs)
    ensures FitMemory(objs)
  {
    if objs != [] {
      ApartFits(objs[1..]);
      assert forall i :: 1 <= i < |objs| ==> objs[i] == objs[1..][i - 1];
    }
  }

  lemma TopFree(s: Span, objs: seq<Span>)
    requires Apart([s] + objs)
    ensures Free(s.at, s.size, objs) && Cover(s.at, s.size, objs) == SpanBits([s] + objs)
  {
    assert ([s] + objs)[0] == s && ([s] + objs)[1..] == objs;
  }

  lemma TopTidy(tgt: Target, env: Env, pid: nat, a: Arg)
    requires a.PointerArg? && a.res.Some? && Laid(a) && Sized(tgt, a) && UnitsApart(a) && Apart(Objects(tgt, a))
    ensures MarksApart(TopMarks(tgt, env, pid, a))
  {
    hide Size, PhysicalAddr, GoodLeaf, Marks, LeafMark, Cover, Free, MarksApart, AllOwn;
    var to, inner := PhysicalAddr(tgt, a), a.res.value;
    var s, objs := Span(to, Size(tgt, inner)), Objects(tgt, inner);
    assert Objects(tgt, a) == [s] + objs;
    TopFree(s, objs);
    TreeTidy(tgt, env, pid, inner, to, 0);
    HeadTidy(tgt, env, Visit(a, None));
    TidyJoin([LeafMark(tgt, env, Visit(a, None))], {}, Marks(tgt, env, pid, inner, to, 0),
             Cover(to, Size(tgt, inner), objs));
  }

  /** Without overlap the image is kept exactly if each bit of each leaf is squashed to itself and cleared
      later in both forms or in neither. */
  lemma ApartKeepsImage(tgt: Target, env: Env, pid: nat, a: Arg, fld: string, m: Mem)
    requires AnyKnown(tgt) && a.PointerArg? && a.res.Some? && Laid(a) && Sized(tgt, a)
    requires UnitsApart(a) && Apart(Objects(tgt, a))
    ensures FitMemory(Objects(tgt, a))
    ensures var vs, ws := Visits(tgt, a, None, 0), Visits(tgt, SquashPtr(tgt, a, fld), None, 0);
      && WritableVisits(tgt, vs) && WritableVisits(tgt, ws)
      && (SameBits(Run(tgt, env, pid, m, vs), Run(tgt, env, pid, m, ws), ContentBits(tgt, env, pid, vs))
          <==> KeptApart(tgt, env, pid, TopMarks(tgt, env, pid, a)))
  {
    hide Run, WritableVisits, Laid, Sized, Apart, SquashPtr, Visits, Objects, Kept, KeptApart, SameBits, ContentBits;
    hide FitMemory, UnitsApart, TopMarks, MarksApart, GoodMarks, Whole, Visited, Applied;
    ApartFits(Objects(tgt, a));
    Images(tgt, env, pid, a, fld, m);
    SquashKeepsImage(tgt, env, pid, a, fld, m);
    TopTidy(tgt, env, pid, a);
    ApartIff(tgt, env, pid, TopMarks(tgt, env, pid, a));
  }
}
