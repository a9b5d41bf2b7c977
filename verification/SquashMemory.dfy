/** The memory image of a squashed pointer: exactly when it is that of the original, bit by bit, whatever
    memory holds before and however the objects overlap. */
module SquashMemory {
  import opened ProgTypes
  import opened ExecFormat
  import opened ExecCompile
  import opened ExecMeaning
  import opened Memory
  import opened MemoryImage
  import opened Squash
  import opened SquashMarks
  import opened SquashImage

  // ---- marks of trees ----

  predicate IsLeaf(a: Arg) {
    a.ConstArg? || a.ResultArg? || a.DataArg? || a.PointerArg?
  }

  /** A leaf is squashed to as many bytes as it has. */
  lemma FlatSize(tgt: Target, env: Env, a: Arg)
    requires IsLeaf(a) && GoodLeaf(a) && Sized(tgt, a)
    ensures |Flat(tgt, env, a)| == Size(tgt, a)
  {
    hide GoodSize, LE, PhysicalAddr, SquashConst;
    match a
    case ConstArg(_, _) => ConstSize(tgt, a);
    case ResultArg(_, _, _, _, _, _) => ResultFlat(tgt, env, a);
    case _ =>
  }

  lemma ResultFlat(tgt: Target, env: Env, a: Arg)
    requires a.ResultArg? && GoodLeaf(a) && Sized(tgt, a)
    ensures |ResultBytes(tgt, env, a)| == Size(tgt, a)
  {
    hide CopiedIn, ArgMeaning, ArgBytes, SquashResult, Writable, TextArg, Size;
    assert Laid(a);
    hide GoodLeaf, Laid;
    ResultBecomes(tgt, a);
    LeafMeaning(tgt, env, 0, SquashResult(a));
  }

  lemma LeafMarkGood(tgt: Target, env: Env, pid: nat, v: Visit)
    requires IsLeaf(v.arg) && GoodLeaf(v.arg) && Sized(tgt, v.arg)
    ensures GoodMark(tgt, env, pid, LeafMark(tgt, env, v))
  {
    if v.addr.Some? {
      FlatSize(tgt, env, v.arg);
      assert !IsBitfield(v.arg) && (TextArg(v.arg) ==> v.arg.typ.c.size == Size(tgt, v.arg));
      if EmitsCopyin(tgt, v) {
        LeafMeaning(tgt, env, pid, v.arg);
      }
    }
    hide Flat, BytesEffect, Sized, GoodLeaf, ArgBytes, ArgMeaning, Size, Writable, CopiedIn, TextArg, IsBitfield;
  }

  lemma HeadMark(tgt: Target, env: Env, pid: nat, v: Visit)
    requires v.arg.GroupArg? || v.arg.UnionArg? || v.addr.None?
    ensures GoodMark(tgt, env, pid, LeafMark(tgt, env, v)) && Now(LeafMark(tgt, env, v)) == map[]
  {
    assert map[] + Cleared({}) == map[];
  }

  /** A list of marks and one more on either side. */
  lemma Bracketed(tgt: Target, env: Env, pid: nat, k: Mark, ms: seq<Mark>, l: Mark)
    ensures var all := [k] + (ms + [l]);
      && Whole(all) == Now(k) + (Whole(ms) + Now(l))
      && (k.v.Some? && l.v.None? ==> Visited(all) == [k.v.value] + Visited(ms))
      && (GoodMark(tgt, env, pid, k) && GoodMarks(tgt, env, pid, ms) && GoodMark(tgt, env, pid, l) ==>
            GoodMarks(tgt, env, pid, all))
  {
    hide Now, GoodMark, Whole;
    WholeSplit([k], ms + [l]);
    WholeSplit(ms, [l]);
    WholeOne(k);
    WholeOne(l);
    assert Visited(ms) + [] == Visited(ms);
  }

  /** The marks of a tree are good and visit what the tree visits. */
  lemma {:induction false} MarksAre(tgt: Target, env: Env, pid: nat, a: Arg, base: u64, off: nat)
    requires Laid(a) && Sized(tgt, a) && base + off + Size(tgt, a) <= TWO64 && FitMemory(Objects(tgt, a))
    ensures var ms := Marks(tgt, env, pid, a, base, off);
      Visited(ms) == Visits(tgt, a, Some(base), off) && GoodMarks(tgt, env, pid, ms)
    decreases a, 1
  {
    hide GoodMarks, Visited, LeafMark, PadMark, Size, SizeSum, GroupPad, UnionPad, FitMemory, GoodLeaf, PhysicalAddr,
      Place;
    var v := Visit(a, Place(Some(base), off));
    PadSizes(tgt, a);
    match a
    case GroupArg(_, inner) =>
      MarksSeqAre(tgt, env, pid, inner, base, off);
      BracketedAre(tgt, env, pid, v, MarksSeq(tgt, env, pid, inner, base, off), base + off + SizeSum(tgt, inner),
                   GroupPad(tgt, a));
    case UnionArg(_, option) =>
      MarksAre(tgt, env, pid, option, base, off);
      BracketedAre(tgt, env, pid, v, Marks(tgt, env, pid, option, base, off), base + off + Size(tgt, option),
                   UnionPad(tgt, a));
    case PointerArg(_, _, _, res) =>
      OneMark(tgt, env, pid, v);
      if res.Some? {
        PointeeFits(tgt, a);
        MarksAre(tgt, env, pid, res.value, PhysicalAddr(tgt, a), 0);
        ThenMarks(tgt, env, pid, v, Marks(tgt, env, pid, res.value, PhysicalAddr(tgt, a), 0));
      }
    case _ => OneMark(tgt, env, pid, v);
  }

  lemma OneMark(tgt: Target, env: Env, pid: nat, v: Visit)
    requires IsLeaf(v.arg) && GoodLeaf(v.arg) && Sized(tgt, v.arg)
    ensures var ms := [LeafMark(tgt, env, v)]; Visited(ms) == [v] && GoodMarks(tgt, env, pid, ms)
  {
    hide GoodMark, LeafMark, Now, GoodLeaf, Sized;
    LeafMarkVisit(tgt, env, v);
    LeafMarkGood(tgt, env, pid, v);
    WholeOne(LeafMark(tgt, env, v));
  }

  lemma ThenMarks(tgt: Target, env: Env, pid: nat, v: Visit, ms: seq<Mark>)
    requires Visited([LeafMark(tgt, env, v)]) == [v] && GoodMarks(tgt, env, pid, [LeafMark(tgt, env, v)])
    requires GoodMarks(tgt, env, pid, ms)
    ensures var all := [LeafMark(tgt, env, v)] + ms; Visited(all) == [v] + Visited(ms) && GoodMarks(tgt, env, pid, all)
  {
    hide GoodMarks, LeafMark, Whole, Visited;
    GoodJoin(tgt, env, pid, [LeafMark(tgt, env, v)], ms);
    WholeSplit([LeafMark(tgt, env, v)], ms);
  }

  lemma BracketedAre(tgt: Target, env: Env, pid: nat, v: Visit, ms: seq<Mark>, at: int, pad: nat)
    requires (v.arg.GroupArg? || v.arg.UnionArg?) && GoodMarks(tgt, env, pid, ms)
    ensures var all := [LeafMark(tgt, env, v)] + (ms + [PadMark(at, pad)]);
      Visited(all) == [v] + Visited(ms) && GoodMarks(tgt, env, pid, all)
  {
    hide GoodMark, LeafMark, Now, PadMark, Whole, Visited;
    LeafMarkVisit(tgt, env, v);
    HeadMark(tgt, env, pid, v);
    PadMarkGood(tgt, env, pid, at, pad);
    Bracketed(tgt, env, pid, LeafMark(tgt, env, v), ms, PadMark(at, pad));
  }

  lemma LeafMarkVisit(tgt: Target, env: Env, v: Visit)
    ensures LeafMark(tgt, env, v).v == Some(v)
  {
  }

  lemma PadMarkGood(tgt: Target, env: Env, pid: nat, at: int, n: nat)
    ensures GoodMark(tgt, env, pid, PadMark(at, n)) && Now(PadMark(at, n)) == BytesEffect(at, ZeroData(n))
    ensures PadMark(at, n).v.None?
  {
    hide BytesEffect;
    FillMarkIs(tgt, env, pid, BytesEffect(at, ZeroData(n)));
  }

  lemma PointeeFits(tgt: Target, a: Arg)
    requires a.PointerArg? && a.res.Some? && FitMemory(Objects(tgt, a))
    ensures PhysicalAddr(tgt, a) + Size(tgt, a.res.value) <= TWO64 && FitMemory(Objects(tgt, a.res.value))
  {
    hide PhysicalAddr, Size;
    var all, rest := Objects(tgt, a), Objects(tgt, a.res.value);
    assert all[0] == Span(PhysicalAddr(tgt, a), Size(tgt, a.res.value));
    assert forall i :: 0 <= i < |rest| ==> all[i + 1] == rest[i];
  }

  lemma FitMemorySplit(a: seq<Span>, b: seq<Span>)
    requires FitMemory(a + b)
    ensures FitMemory(a) && FitMemory(b)
  {
    assert forall i :: 0 <= i < |a| ==> (a + b)[i] == a[i];
    assert forall i :: 0 <= i < |b| ==> (a + b)[|a| + i] == b[i];
  }

  /** A list of fields: a bitfield unit, or one field, and the rest. */
  lemma UnitOf(tgt: Target, args: seq<Arg>) returns (unit: seq<Arg>, rest: seq<Arg>, size: u64)
    requires args != [] && IsBitfield(args[0]) && LaidSeq(args) && SizedSeq(tgt, args)
    ensures args == unit + rest && |rest| < |args| && GoodUnit(unit, size) && LaidSeq(rest) && SizedSeq(tgt, rest)
    ensures SizeSum(tgt, args) == size + SizeSum(tgt, rest) && SizeSum(tgt, unit) == size
    ensures ObjectsSeq(tgt, args) == ObjectsSeq(tgt, rest)
    ensures unit == args[..UnitLen(args)] && rest == args[UnitLen(args)..] && size == args[0].typ.c.size
  {
    hide Laid, Sized, Size, Objects, SizeSum;
    var n := UnitLen(args);
    unit, rest, size := args[..n], args[n..], args[0].typ.c.size;
    assert args == unit + rest;
    UnitSize(tgt, unit, size);
    SizeSumSplit(tgt, unit, rest);
    UnitObjects(tgt, unit, rest);
    SizedFrom(tgt, args, n);
  }

  lemma {:induction false} MarksSeqAre(tgt: Target, env: Env, pid: nat, args: seq<Arg>, base: u64, off: nat)
    requires LaidSeq(args) && SizedSeq(tgt, args) && base + off + SizeSum(tgt, args) <= TWO64
    requires FitMemory(ObjectsSeq(tgt, args))
    ensures var ms := MarksSeq(tgt, env, pid, args, base, off);
      Visited(ms) == VisitsSeq(tgt, args, Some(base), off) && GoodMarks(tgt, env, pid, ms)
    decreases args, 0
  {
    hide GoodMarks, Visited, Marks, UnitMarks, FitMemory, Size, Visits, Laid, Sized, GoodUnit, Objects, Whole;
    if args == [] {
      NoMarks(tgt, env, pid);
    } else if IsBitfield(args[0]) {
      var unit, rest, size := UnitOf(tgt, args);
      UnitMarksAre(tgt, env, pid, unit, size, base, off);
      MarksSeqAre(tgt, env, pid, rest, base, off + size);
      VisitsSeqSplit(tgt, unit, rest, Some(base), off);
      JoinedMarks(tgt, env, pid, UnitMarks(tgt, env, pid, unit, size, base, off),
                  MarksSeq(tgt, env, pid, rest, base, off + size));
    } else {
      var n := Size(tgt, args[0]);
      FitMemorySplit(Objects(tgt, args[0]), ObjectsSeq(tgt, args[1..]));
      MarksAre(tgt, env, pid, args[0], base, off);
      MarksSeqAre(tgt, env, pid, args[1..], base, off + n);
      JoinedMarks(tgt, env, pid, Marks(tgt, env, pid, args[0], base, off),
                  MarksSeq(tgt, env, pid, args[1..], base, off + n));
    }
  }

  lemma JoinedMarks(tgt: Target, env: Env, pid: nat, a: seq<Mark>, b: seq<Mark>)
    requires GoodMarks(tgt, env, pid, a) && GoodMarks(tgt, env, pid, b)
    ensures GoodMarks(tgt, env, pid, a + b) && Visited(a + b) == Visited(a) + Visited(b)
  {
    hide GoodMarks, Whole, Visited;
    GoodJoin(tgt, env, pid, a, b);
    WholeSplit(a, b);
  }

  lemma NoMarks(tgt: Target, env: Env, pid: nat)
    ensures GoodMarks(tgt, env, pid, []) && Visited([]) == [] && Whole([]) == map[]
  {
  }

  lemma {:induction false} UnitObjects(tgt: Target, unit: seq<Arg>, rest: seq<Arg>)
    requires forall i :: 0 <= i < |unit| ==> IsBitfield(unit[i])
    ensures ObjectsSeq(tgt, unit + rest) == ObjectsSeq(tgt, rest)
    decreases unit
  {
    if unit == [] {
      assert unit + rest == rest;
    } else {
      assert IsBitfield(unit[0]) && Objects(tgt, unit[0]) == [];
      assert (unit + rest)[0] == unit[0] && (unit + rest)[1..] == unit[1..] + rest;
      UnitObjects(tgt, unit[1..], rest);
    }
  }

  lemma {:induction false} SizedFrom(tgt: Target, args: seq<Arg>, n: nat)
    requires SizedSeq(tgt, args) && n <= |args|
    ensures SizedSeq(tgt, args[n..])
  {
    hide Sized;
    if n > 0 {
      SizedFrom(tgt, args[1..], n - 1);
      assert args[1..][n - 1..] == args[n..];
    } else {
      assert args[0..] == args;
    }
  }

  // ---- the pieces store what the marks say ----

  lemma GrownLaid(tgt: Target, env: Env, pid: nat, e0: seq<Arg>, e1: seq<Arg>, base: u64, d: Effect)
    requires Grown(tgt, env, pid, e0, e1, base, d)
    ensures LaidPieces(e1)
  {
  }

  /** Data appended for a leaf. */
  lemma LeafData(tgt: Target, env: Env, pid: nat, elems: seq<Arg>, s: seq<byte>, base: u64)
    requires AnyKnown(tgt) && LaidPieces(elems) && base + SizeSum(tgt, elems) + |s| <= TWO64
    ensures Grown(tgt, env, pid, elems, AppendData(elems, s), base, BytesEffect(base + SizeSum(tgt, elems), s))
  {
    hide Sum, PiecesEffect, LaidPieces, AppendData, BytesEffect, SizeSum;
    DataAdds(tgt, env, pid, elems, s, base);
  }

  lemma PlacedBytes(base: u64, n: nat, s: seq<byte>)
    requires base + n + |s| <= TWO64
    ensures BytesEffect(Place(Some(base), n).value, s) == BytesEffect(base + n, s)
  {
    hide BytesEffect;
    if s == [] {
      NoBytesEffect(Place(Some(base), n).value);
      NoBytesEffect(base + n);
    } else {
      PlaceIs(base, n);
    }
  }

  lemma LeafNow(tgt: Target, env: Env, a: Arg, base: u64, n: nat)
    requires IsLeaf(a) && GoodLeaf(a) && Sized(tgt, a) && base + n + Size(tgt, a) <= TWO64
    ensures Now(LeafMark(tgt, env, Visit(a, Place(Some(base), n)))) ==
            BytesEffect(base + n, Flat(tgt, env, a)) + Cleared(SquashedNul(Visit(a, Place(Some(base), n))))
  {
    hide Flat, GoodLeaf, Sized, BytesEffect, SquashedNul, CopiedIn, Size, Now, Cleared;
    FlatSize(tgt, env, a);
    var v := Visit(a, Place(Some(base), n));
    PlacedBytes(base, n, Flat(tgt, env, a));
    NowIs(v, BytesEffect(base + n, Flat(tgt, env, a)), SquashedNul(v));
  }

  lemma NowIs(v: Visit, e: Effect, nul: set<int>)
    ensures Now(Mark(Some(v), e, map[], nul)) == e + Cleared(nul)
      && Now(Mark(Some(v), map[], e, nul)) == e + Cleared(nul)
  {
    assert map[] + Cleared(nul) == Cleared(nul);
    assert map[] + (e + Cleared(nul)) == e + Cleared(nul);
  }

  lemma PlainGrows(tgt: Target, env: Env, pid: nat, a: Arg, elems: seq<Arg>, base: u64)
    requires IsLeaf(a) && !a.ResultArg? && (a.PointerArg? ==> a.res.None?)
    requires AnyKnown(tgt) && Laid(a) && Sized(tgt, a) && LaidPieces(elems)
    requires base + SizeSum(tgt, elems) + Size(tgt, a) <= TWO64
    ensures Grown(tgt, env, pid, elems, SquashInto(tgt, a, elems), base,
                  BytesEffect(base + SizeSum(tgt, elems), Flat(tgt, env, a)))
  {
    hide Grown, SizeSum, LaidPieces, AppendData, BytesEffect, LE, PhysicalAddr, SquashConst, PadData, GoodSize;
    FlatSize(tgt, env, a);
    match a
    case DataArg(typ, data, _) =>
      if CommonOf(tgt, typ).dir == DirOut {
        PadGrows(tgt, env, pid, elems, Size(tgt, a), base);
      } else {
        LeafData(tgt, env, pid, elems, BytesOf(data), base);
      }
    case _ => LeafData(tgt, env, pid, elems, Flat(tgt, env, a), base);
  }

  lemma LeafGrows(tgt: Target, env: Env, pid: nat, a: Arg, elems: seq<Arg>, base: u64)
    requires IsLeaf(a) && (a.PointerArg? ==> a.res.None?)
    requires AnyKnown(tgt) && Laid(a) && Sized(tgt, a) && LaidPieces(elems)
    requires base + SizeSum(tgt, elems) + Size(tgt, a) <= TWO64
    ensures Grown(tgt, env, pid, elems, SquashInto(tgt, a, elems), base,
                  Now(LeafMark(tgt, env, Visit(a, Place(Some(base), SizeSum(tgt, elems))))))
  {
    hide Grown, SizeSum, Size, LaidPieces, BytesEffect, SquashInto, Now, LeafMark, Flat, Sized, Place;
    var n := SizeSum(tgt, elems);
    assert GoodLeaf(a);
    hide GoodLeaf;
    LeafNow(tgt, env, a, base, n);
    if a.ResultArg? {
      ResultGrows(tgt, env, pid, a, elems, base);
    } else {
      PlainGrows(tgt, env, pid, a, elems, base);
      NoNul(BytesEffect(base + n, Flat(tgt, env, a)));
    }
  }

  lemma ResultGrows(tgt: Target, env: Env, pid: nat, a: Arg, elems: seq<Arg>, base: u64)
    requires a.ResultArg? && AnyKnown(tgt) && Laid(a) && Sized(tgt, a) && LaidPieces(elems)
    requires base + SizeSum(tgt, elems) + Size(tgt, a) <= TWO64
    ensures var n := SizeSum(tgt, elems);
      Grown(tgt, env, pid, elems, SquashInto(tgt, a, elems), base,
            BytesEffect(base + n, Flat(tgt, env, a)) + Cleared(SquashedNul(Visit(a, Place(Some(base), n)))))
  {
    hide SizeSum, Size, LaidPieces, Visits, Effects, SquashResult, Laid, Sized, Sum, PiecesEffect, CopiedIn,
      BytesEffect;
    hide Flat, SquashedNul, TextArg, Place, Cleared;
    var n, b := SizeSum(tgt, elems), SquashResult(a);
    ResultBecomes(tgt, a);
    ResultSize(tgt, a);
    PieceAdds(tgt, env, pid, elems, b, base);
    ResultNow(tgt, env, pid, a, base, n);
    assert SquashInto(tgt, a, elems) == elems + [Piece(b)];
  }

  lemma ResultNow(tgt: Target, env: Env, pid: nat, a: Arg, base: u64, n: nat)
    requires a.ResultArg? && Laid(a) && Sized(tgt, a) && base + n + Size(tgt, a) <= TWO64
    ensures Effects(tgt, env, pid, Visits(tgt, SquashResult(a), Some(base), n)) ==
            BytesEffect(base + n, Flat(tgt, env, a)) + Cleared(SquashedNul(Visit(a, Place(Some(base), n))))
  {
    ResultBecomes(tgt, a);
    assert Flat(tgt, env, a) == ResultBytes(tgt, env, a);
    PlaceIs(base, n);
    hide Effects, Visits, SquashResult, Laid, Sized, BytesEffect, Flat, ResultBytes, SquashedNul, Size, CopiedIn, Place;
    ResultEffect(tgt, env, pid, a, base, n);
  }

  /** Padding behind pieces that have grown. */
  lemma PaddedGrows(tgt: Target, env: Env, pid: nat, e0: seq<Arg>, e1: seq<Arg>, base: u64, k: Mark, ms: seq<Mark>,
                    at: int, pad: nat)
    requires AnyKnown(tgt) && Grown(tgt, env, pid, e0, e1, base, Whole(ms)) && Now(k) == map[]
    requires at == base + SizeSum(tgt, e1) && at + pad <= TWO64
    ensures Grown(tgt, env, pid, e0, PadData(e1, pad), base, Whole([k] + (ms + [PadMark(at, pad)])))
  {
    hide PadData, SizeSum, Whole, Now, PadMark, Sum, PiecesEffect, LaidPieces, BytesEffect;
    GrownLaid(tgt, env, pid, e0, e1, base, Whole(ms));
    hide Grown;
    PadGrows(tgt, env, pid, e1, pad, base);
    PadMarkGood(tgt, env, pid, at, pad);
    var l := PadMark(at, pad);
    GrownTwice(tgt, env, pid, e0, e1, PadData(e1, pad), base, Whole(ms), Now(l));
    Bracketed(tgt, env, pid, k, ms, l);
    assert map[] + (Whole(ms) + Now(l)) == Whole(ms) + Now(l);
  }

  /** The pieces of a tree store exactly what its marks say. */
  lemma {:induction false} SquashGrows(tgt: Target, env: Env, pid: nat, a: Arg, elems: seq<Arg>, base: u64)
    requires AnyKnown(tgt) && Laid(a) && Sized(tgt, a) && LaidPieces(elems)
    requires base + SizeSum(tgt, elems) + Size(tgt, a) <= TWO64 && FitMemory(Objects(tgt, a))
    ensures Grown(tgt, env, pid, elems, SquashInto(tgt, a, elems), base,
                  Whole(Marks(tgt, env, pid, a, base, SizeSum(tgt, elems))))
    decreases a, 1
  {
    hide Grown, SizeSum, PadData, UnionPad, GroupPad, LaidPieces, SquashPtr, Size, Whole, Now, LeafMark, PadMark,
      FitMemory;
    hide GoodLeaf, SquashResult, SquashConst, AppendData, LE, PhysicalAddr, Place;
    var n := SizeSum(tgt, elems);
    var v := Visit(a, Place(Some(base), n));
    var k := LeafMark(tgt, env, v);
    LaidArePieces(elems);
    PadSizes(tgt, a);
    match a
    case UnionArg(_, option) =>
      HeadMark(tgt, env, pid, v);
      SquashGrows(tgt, env, pid, option, elems, base);
      SquashIntoSize(tgt, option, elems);
      PaddedGrows(tgt, env, pid, elems, SquashInto(tgt, option, elems), base, k, Marks(tgt, env, pid, option, base, n),
                  base + n + Size(tgt, option), UnionPad(tgt, a));
    case GroupArg(_, inner) =>
      HeadMark(tgt, env, pid, v);
      FieldsGrow(tgt, env, pid, inner, elems, base);
      SquashFieldsSize(tgt, inner, elems, 0);
      PaddedGrows(tgt, env, pid, elems, SquashFields(tgt, inner, elems, 0), base, k,
                  MarksSeq(tgt, env, pid, inner, base, n), base + n + SizeSum(tgt, inner), GroupPad(tgt, a));
    case PointerArg(_, _, _, res) =>
      if res.Some? {
        PointerGrows(tgt, env, pid, a, elems, base);
      } else {
        WholeOne(k);
        LeafGrows(tgt, env, pid, a, elems, base);
      }
    case _ =>
      WholeOne(k);
      LeafGrows(tgt, env, pid, a, elems, base);
  }

  // ---- pointers ----

  /** The pointer that a pointer becomes. */
  lemma PointerBecomes(tgt: Target, a: Arg, fld: string, elems: seq<Arg>)
    requires a.PointerArg? && a.res.Some? && Laid(a) && elems == SquashInto(tgt, a.res.value, []) && LaidPieces(elems)
    ensures var b := SquashPtr(tgt, a, fld);
      && b.PointerArg? && Laid(b) && GoodLeaf(b) && CopiedIn(tgt, b) && IsPiece(Piece(b))
        && PhysicalAddr(tgt, b) == PhysicalAddr(tgt, a)
      && b.res == Some(GroupArg(ANY_ARRAY, elems)) && b.typ.c.size == CommonOf(tgt, a.typ).size == Size(tgt, a) > 0
  {
    hide SquashInto, LaidPieces, Size;
    PiecesLaid(elems);
    var b := SquashPtr(tgt, a, fld);
    assert b.typ.PtrT? && b.typ.c.size == a.typ.c.size && b.typ.c.dir == DirIn;
    LeafSizes(tgt, a);
    LeafSizes(tgt, b);
    assert Laid(GroupArg(ANY_ARRAY, elems));
  }

  lemma LeafSizes(tgt: Target, a: Arg)
    requires a.PointerArg?
    ensures Size(tgt, a) == CommonOf(tgt, a.typ).size
  {
  }

  /** The effect of a squashed pointer that lies in memory. */
  lemma PointerEffect(tgt: Target, env: Env, pid: nat, b: Arg, elems: seq<Arg>, base: u64, n: nat)
    requires b.PointerArg? && b.res == Some(GroupArg(ANY_ARRAY, elems)) && GoodLeaf(b) && CopiedIn(tgt, b)
    requires base + n + b.typ.c.size <= TWO64
    ensures Effects(tgt, env, pid, Visits(tgt, b, Some(base), n)) ==
            BytesEffect(base + n, LE(PhysicalAddr(tgt, b), b.typ.c.size))
            + PiecesEffect(tgt, env, pid, elems, PhysicalAddr(tgt, b))
  {
    hide GoodLeaf, CopiedIn, Effects, Visits, VisitsSeq, BytesEffect, LE, PhysicalAddr;
    CopiedHasSize(tgt, b);
    var to, v, g := PhysicalAddr(tgt, b), Visit(b, Some(base + n)), GroupArg(ANY_ARRAY, elems);
    var w := Visit(g, Some(to));
    var vs := VisitsSeq(tgt, elems, Some(to), 0);
    PointerVisits(tgt, b, elems, base, n);
    EffectsSplit(tgt, env, pid, [v], [w] + vs);
    EffectsSplit(tgt, env, pid, [w], vs);
    HeadEffect(tgt, env, pid, w);
    PointerContent(tgt, env, pid, b, base + n);
    assert map[] + Effects(tgt, env, pid, vs) == Effects(tgt, env, pid, vs);
  }

  lemma CopiedHasSize(tgt: Target, b: Arg)
    requires b.PointerArg? && GoodLeaf(b) && CopiedIn(tgt, b)
    ensures b.typ.c.size > 0
  {
  }

  lemma PointerContent(tgt: Target, env: Env, pid: nat, b: Arg, at: u64)
    requires b.PointerArg? && GoodLeaf(b) && CopiedIn(tgt, b)
    ensures Effects(tgt, env, pid, [Visit(b, Some(at))]) == BytesEffect(at, LE(PhysicalAddr(tgt, b), b.typ.c.size))
  {
    var v := Visit(b, Some(at));
    PointerBytes(tgt, env, pid, b);
    OneVisit(tgt, env, pid, v);
    hide GoodLeaf, CopiedIn, Effects, BytesEffect, LE, PhysicalAddr, ArgMeaning, ArgBytes;
    NoNul(Content(tgt, env, pid, v));
  }

  lemma PointerVisits(tgt: Target, b: Arg, elems: seq<Arg>, base: u64, n: nat)
    requires b.PointerArg? && b.res == Some(GroupArg(ANY_ARRAY, elems)) && base + n < TWO64
    ensures var to := PhysicalAddr(tgt, b);
      Visits(tgt, b, Some(base), n) ==
      [Visit(b, Some(base + n))] + ([Visit(GroupArg(ANY_ARRAY, elems), Some(to))] + VisitsSeq(tgt, elems, Some(to), 0))
  {
    hide VisitsSeq;
    PlaceIs(base, n);
  }

  lemma NoPieces(tgt: Target)
    ensures LaidPieces([]) && SizeSum(tgt, []) == 0
  {
  }

  lemma PieceOfNothing(tgt: Target, env: Env, pid: nat, elems: seq<Arg>, base: u64, d: Effect)
    requires Grown(tgt, env, pid, [], elems, base, d)
    ensures PiecesEffect(tgt, env, pid, elems, base) == d && LaidPieces(elems)
  {
    assert PiecesEffect(tgt, env, pid, [], base) == map[];
    assert map[] + d == d;
  }

  lemma {:induction false} PointerGrows(tgt: Target, env: Env, pid: nat, a: Arg, elems: seq<Arg>, base: u64)
    requires a.PointerArg? && a.res.Some? && AnyKnown(tgt) && Laid(a) && Sized(tgt, a) && LaidPieces(elems)
    requires base + SizeSum(tgt, elems) + Size(tgt, a) <= TWO64 && FitMemory(Objects(tgt, a))
    ensures Grown(tgt, env, pid, elems, SquashInto(tgt, a, elems), base,
                  Whole(Marks(tgt, env, pid, a, base, SizeSum(tgt, elems))))
    decreases a, 0
  {
    hide SizeSum, LaidPieces, SquashPtr, Size, GoodLeaf, CopiedIn, PhysicalAddr, Sum, PiecesEffect, Effects, FitMemory;
    hide IsPiece, LE, BytesEffect, Whole, Now, LeafMark, Place;
    var n, to, inner := SizeSum(tgt, elems), PhysicalAddr(tgt, a), a.res.value;
    var k, ms := LeafMark(tgt, env, Visit(a, Place(Some(base), n))), Marks(tgt, env, pid, inner, to, 0);
    var elems1, b := SquashInto(tgt, inner, []), SquashPtr(tgt, a, "");
    PointeeFits(tgt, a);
    NoPieces(tgt);
    SquashGrows(tgt, env, pid, inner, [], to);
    PieceOfNothing(tgt, env, pid, elems1, to, Whole(ms));
    PointerBecomes(tgt, a, "", elems1);
    PointerEffect(tgt, env, pid, b, elems1, base, n);
    PieceAdds(tgt, env, pid, elems, b, base);
    LeafNow(tgt, env, a, base, n);
    LeafSizes(tgt, a);
    NoNul(BytesEffect(base + n, Flat(tgt, env, a)));
    WholeSplit([k], ms);
    WholeOne(k);
  }

  // ---- fields ----

  lemma NoFields(tgt: Target, env: Env, pid: nat, elems: seq<Arg>, base: u64)
    requires LaidPieces(elems)
    ensures Grown(tgt, env, pid, elems, SquashFields(tgt, [], elems, 0), base, map[])
  {
    hide PiecesEffect, LaidPieces;
    assert PiecesEffect(tgt, env, pid, elems, base) + map[] == PiecesEffect(tgt, env, pid, elems, base);
  }

  lemma UnitGrows(tgt: Target, env: Env, pid: nat, unit: seq<Arg>, size: u64, elems: seq<Arg>, base: u64)
    requires AnyKnown(tgt) && GoodUnit(unit, size) && LaidPieces(elems) && base + SizeSum(tgt, elems) + size <= TWO64
    ensures var elems1 := AppendData(elems, LE(UnitBits(unit, 0), size));
      && Grown(tgt, env, pid, elems, elems1, base,
               Whole(UnitMarks(tgt, env, pid, unit, size, base, SizeSum(tgt, elems))))
      && LaidPieces(elems1) && SizeSum(tgt, elems1) == SizeSum(tgt, elems) + size
  {
    hide Grown, LaidPieces, GoodUnit, Whole, UnitMarks, UnitBits, LE, AppendData, BytesEffect, SizeSum;
    var n, s := SizeSum(tgt, elems), LE(UnitBits(unit, 0), size);
    LaidArePieces(elems);
    LeafData(tgt, env, pid, elems, s, base);
    GrownLaid(tgt, env, pid, elems, AppendData(elems, s), base, BytesEffect(base + n, s));
    AppendSize(tgt, elems, s);
    UnitMarksAre(tgt, env, pid, unit, size, base, n);
  }

  /** The same for fields; the fields of a bitfield unit become one piece of data. */
  lemma {:induction false} FieldsGrow(tgt: Target, env: Env, pid: nat, fields: seq<Arg>, elems: seq<Arg>, base: u64)
    requires AnyKnown(tgt) && LaidSeq(fields) && SizedSeq(tgt, fields) && LaidPieces(elems)
    requires base + SizeSum(tgt, elems) + SizeSum(tgt, fields) <= TWO64 && FitMemory(ObjectsSeq(tgt, fields))
    ensures Grown(tgt, env, pid, elems, SquashFields(tgt, fields, elems, 0), base,
                  Whole(MarksSeq(tgt, env, pid, fields, base, SizeSum(tgt, elems))))
    decreases fields, 0
  {
    hide Grown, LaidPieces, SquashInto, Laid, Sized, GoodUnit, Objects, Size, Whole, Marks, UnitMarks, FitMemory;
    hide UnitBits, LE, AppendData, BytesEffect;
    var n := SizeSum(tgt, elems);
    LaidArePieces(elems);
    if fields == [] {
      NoFields(tgt, env, pid, elems, base);
      NoMarks(tgt, env, pid);
    } else if IsBitfield(fields[0]) {
      var unit, rest, size := UnitOf(tgt, fields);
      var elems1 := AppendData(elems, LE(UnitBits(unit, 0), size));
      SquashUnit(tgt, unit, rest, elems, 0, size);
      UnitGrows(tgt, env, pid, unit, size, elems, base);
      FieldsGrow(tgt, env, pid, rest, elems1, base);
      var a, b := UnitMarks(tgt, env, pid, unit, size, base, n), MarksSeq(tgt, env, pid, rest, base, n + size);
      GrownTwice(tgt, env, pid, elems, elems1, SquashFields(tgt, rest, elems1, 0), base, Whole(a), Whole(b));
      WholeSplit(a, b);
    } else {
      var f, rest, size := fields[0], fields[1..], Size(tgt, fields[0]);
      var elems1 := SquashInto(tgt, f, elems);
      FitMemorySplit(Objects(tgt, f), ObjectsSeq(tgt, rest));
      SquashGrows(tgt, env, pid, f, elems, base);
      var a, b := Marks(tgt, env, pid, f, base, n), MarksSeq(tgt, env, pid, rest, base, n + size);
      GrownLaid(tgt, env, pid, elems, elems1, base, Whole(a));
      SquashIntoSize(tgt, f, elems);
      FieldsGrow(tgt, env, pid, rest, elems1, base);
      GrownTwice(tgt, env, pid, elems, elems1, SquashFields(tgt, rest, elems1, 0), base, Whole(a), Whole(b));
      WholeSplit(a, b);
    }
  }

  // ---- the memory image ----

  /** The marks of a pointer that is passed to a call. */
  function TopMarks(tgt: Target, env: Env, pid: nat, a: Arg): seq<Mark>
    requires a.PointerArg? && a.res.Some? && Laid(a)
  {
    [LeafMark(tgt, env, Visit(a, None))] + Marks(tgt, env, pid, a.res.value, PhysicalAddr(tgt, a), 0)
  }

  /** The visits of a pointer that is passed to a call. */
  lemma TopVisits(tgt: Target, env: Env, pid: nat, a: Arg)
    requires a.PointerArg? && a.res.Some?
    ensures var vs := Visits(tgt, a.res.value, Some(PhysicalAddr(tgt, a)), 0);
      && Visits(tgt, a, None, 0) == [Visit(a, None)] + vs
      && Effects(tgt, env, pid, Visits(tgt, a, None, 0)) == Effects(tgt, env, pid, vs)
  {
    hide PhysicalAddr, Effects;
    var v, vs := Visit(a, None), Visits(tgt, a.res.value, Some(PhysicalAddr(tgt, a)), 0);
    assert Place(None, 0) == None;
    EffectsSplit(tgt, env, pid, [v], vs);
    HeadEffect(tgt, env, pid, v);
    assert map[] + Effects(tgt, env, pid, vs) == Effects(tgt, env, pid, vs);
  }

  lemma GroupEffect(tgt: Target, env: Env, pid: nat, elems: seq<Arg>, base: u64)
    ensures Effects(tgt, env, pid, Visits(tgt, GroupArg(ANY_ARRAY, elems), Some(base), 0)) ==
            PiecesEffect(tgt, env, pid, elems, base)
  {
    hide Effects, VisitsSeq;
    var v, vs := Visit(GroupArg(ANY_ARRAY, elems), Place(Some(base), 0)), VisitsSeq(tgt, elems, Some(base), 0);
    EffectsSplit(tgt, env, pid, [v], vs);
    HeadEffect(tgt, env, pid, v);
    assert map[] + Effects(tgt, env, pid, vs) == Effects(tgt, env, pid, vs);
  }

  lemma TopMarksAre(tgt: Target, env: Env, pid: nat, a: Arg)
    requires a.PointerArg? && a.res.Some? && Laid(a) && Sized(tgt, a) && FitMemory(Objects(tgt, a))
    ensures var ms := TopMarks(tgt, env, pid, a);
      && Visited(ms) == Visits(tgt, a, None, 0) && GoodMarks(tgt, env, pid, ms)
      && Whole(ms) == Whole(Marks(tgt, env, pid, a.res.value, PhysicalAddr(tgt, a), 0))
  {
    hide GoodMark, LeafMark, Now, Whole, FitMemory, Size, PhysicalAddr, Marks, GoodLeaf;
    var v, to := Visit(a, None), PhysicalAddr(tgt, a);
    var k, ms := LeafMark(tgt, env, v), Marks(tgt, env, pid, a.res.value, to, 0);
    PointeeFits(tgt, a);
    MarksAre(tgt, env, pid, a.res.value, to, 0);
    LeafMarkVisit(tgt, env, v);
    HeadMark(tgt, env, pid, v);
    GoodJoin(tgt, env, pid, [k], ms);
    WholeSplit([k], ms);
    WholeOne(k);
    TopVisits(tgt, env, pid, a);
    assert map[] + Whole(ms) == Whole(ms);
  }

  /** The copyins of the squashed pointer store what the marks say. */
  lemma TopGrows(tgt: Target, env: Env, pid: nat, a: Arg, fld: string)
    requires AnyKnown(tgt) && a.PointerArg? && a.res.Some? && Laid(a) && Sized(tgt, a) && FitMemory(Objects(tgt, a))
    ensures Laid(SquashPtr(tgt, a, fld))
    ensures Effects(tgt, env, pid, Visits(tgt, SquashPtr(tgt, a, fld), None, 0)) == Whole(TopMarks(tgt, env, pid, a))
  {
    hide Grown, PiecesEffect, LaidPieces, Size, PhysicalAddr, Effects, SquashInto, GoodLeaf, CopiedIn, Whole, TopMarks;
    hide FitMemory, Marks, Objects;
    var to, inner, b := PhysicalAddr(tgt, a), a.res.value, SquashPtr(tgt, a, fld);
    var elems := SquashInto(tgt, inner, []);
    PointeeFits(tgt, a);
    NoPieces(tgt);
    SquashGrows(tgt, env, pid, inner, [], to);
    PieceOfNothing(tgt, env, pid, elems, to, Whole(Marks(tgt, env, pid, inner, to, 0)));
    PointerBecomes(tgt, a, fld, elems);
    GroupEffect(tgt, env, pid, elems, to);
    TopVisits(tgt, env, pid, b);
    TopMarksAre(tgt, env, pid, a);
  }

  /** Executing the original and the squashed copyins on any memory. */
  lemma Images(tgt: Target, env: Env, pid: nat, a: Arg, fld: string, m: Mem)
    requires AnyKnown(tgt) && a.PointerArg? && a.res.Some? && Laid(a) && Sized(tgt, a) && FitMemory(Objects(tgt, a))
    ensures var ms, ws := TopMarks(tgt, env, pid, a), Visits(tgt, SquashPtr(tgt, a, fld), None, 0);
      && GoodMarks(tgt, env, pid, ms) && Visited(ms) == Visits(tgt, a, None, 0)
      && WritableVisits(tgt, Visited(ms)) && WritableVisits(tgt, ws)
      && Applied(m, Effects(tgt, env, pid, Visited(ms)), Run(tgt, env, pid, m, Visited(ms)))
      && Applied(m, Whole(ms), Run(tgt, env, pid, m, ws))
  {
    hide Run, WritableVisits, Laid, Sized, SquashPtr, Visits, Objects, Effects, GoodVisits, FitMemory, TopMarks, Whole;
    hide Applied, GoodMarks, Visited;
    var b := SquashPtr(tgt, a, fld);
    TopMarksAre(tgt, env, pid, a);
    TopGrows(tgt, env, pid, a, fld);
    LaidGood(tgt, a, None, 0);
    LaidGood(tgt, b, None, 0);
    RunIs(tgt, env, pid, Visits(tgt, a, None, 0), m);
    RunIs(tgt, env, pid, Visits(tgt, b, None, 0), m);
  }

  /** Two memories hold the same bits at the given places. */
  ghost predicate SameBits(m: Mem, m1: Mem, bits: set<int>) { forall y :: y in bits ==> GetBit(m, y) == GetBit(m1, y) }

  lemma SameIffAgree(m: Mem, e: Effect, m1: Mem, f: Effect, m2: Mem, bits: set<int>)
    requires Applied(m, e, m1) && Applied(m, f, m2) && bits <= e.Keys && bits <= f.Keys
    ensures SameBits(m1, m2, bits) <==> Agree(e, f, bits)
  {
    hide GetBit;
  }

  /** Squashing a pointer keeps the memory image exactly if every bit of content survives: executed on any
      memory, and however the objects overlap, the copyins of the squashed pointer give every bit that the
      original ones are meant to set the same value. Every other bit keeps its value, unless the original
      clears it behind text, or squashing fills it in. */
  lemma SquashKeepsImage(tgt: Target, env: Env, pid: nat, a: Arg, fld: string, m: Mem)
    requires AnyKnown(tgt) && a.PointerArg? && a.res.Some? && Laid(a) && Sized(tgt, a) && FitMemory(Objects(tgt, a))
    ensures var vs, ws := Visits(tgt, a, None, 0), Visits(tgt, SquashPtr(tgt, a, fld), None, 0);
      var ms := TopMarks(tgt, env, pid, a);
      && Visited(ms) == vs && WritableVisits(tgt, vs) && WritableVisits(tgt, ws)
      && var before, after := Run(tgt, env, pid, m, vs), Run(tgt, env, pid, m, ws);
      && (SameBits(before, after, ContentBits(tgt, env, pid, vs)) <==> Kept(tgt, env, pid, ms))
      && forall y :: y !in ContentBits(tgt, env, pid, vs) ==>
           && GetBit(before, y) == (GetBit(m, y) && y !in Nuls(tgt, vs))
           && GetBit(after, y) == if y in Fills(ms) then Fills(ms)[y] else GetBit(m, y)
  {
    hide Run, WritableVisits, Laid, Sized, SquashPtr, Visits, Objects, Effects, FitMemory, TopMarks, Whole, Kept, Agree;
    hide GoodMarks, Visited, GetBit, SameBits, ContentBits, Nuls, Fills;
    Images(tgt, env, pid, a, fld, m);
    var ms := TopMarks(tgt, env, pid, a);
    var vs, ws := Visited(ms), Visits(tgt, SquashPtr(tgt, a, fld), None, 0);
    KeptIff(tgt, env, pid, ms);
    SameIffAgree(m, Effects(tgt, env, pid, vs), Run(tgt, env, pid, m, vs), Whole(ms), Run(tgt, env, pid, m, ws),
                 ContentBits(tgt, env, pid, vs));
    forall y | y !in ContentBits(tgt, env, pid, vs)
      ensures GetBit(Run(tgt, env, pid, m, vs), y) == (GetBit(m, y) && y !in Nuls(tgt, vs))
      ensures GetBit(Run(tgt, env, pid, m, ws), y) == if y in Fills(ms) then Fills(ms)[y] else GetBit(m, y)
    {
      EffectsElsewhere(tgt, env, pid, vs, y);
      WholeElsewhere(tgt, env, pid, ms, y);
    }
  }

  /** What the original and the squashed copyins leave at a bit, seen from the last argument that sets it. */
  lemma ImageBit(tgt: Target, env: Env, pid: nat, a: Arg, fld: string, m: Mem, i: nat, y: int)
    requires AnyKnown(tgt) && a.PointerArg? && a.res.Some? && Laid(a) && Sized(tgt, a) && FitMemory(Objects(tgt, a))
    requires Decides(tgt, env, pid, TopMarks(tgt, env, pid, a), i, y)
    ensures var vs, ws := Visits(tgt, a, None, 0), Visits(tgt, SquashPtr(tgt, a, fld), None, 0);
      var ms := TopMarks(tgt, env, pid, a); var later := ms[i + 1..];
      && WritableVisits(tgt, vs) && WritableVisits(tgt, ws) && y in ms[i].s
      && GetBit(Run(tgt, env, pid, m, vs), y) == (Sets(tgt, env, pid, ms[i])[y] && y !in Nuls(tgt, Visited(later)))
      && GetBit(Run(tgt, env, pid, m, ws), y) == if y in Fills(later) then Fills(later)[y] else ms[i].s[y]
  {
    hide Run, WritableVisits, Laid, Sized, SquashPtr, Visits, Objects, Effects, FitMemory, TopMarks, Whole, GoodMarks;
    hide Visited, GetBit, Nuls, Fills, Sets, ContentBits;
    Images(tgt, env, pid, a, fld, m);
    EffectAt(tgt, env, pid, TopMarks(tgt, env, pid, a), i, y);
  }

  lemma {:induction false} FillsAt(ms: seq<Mark>, i: nat, y: int)
    requires i < |ms| && y in Fill(ms[i]) && y !in Fills(ms[i + 1..])
    ensures y in Fills(ms) && Fills(ms)[y] == Fill(ms[i])[y]
    decreases i
  {
    hide Fill;
    if i > 0 {
      assert ms[1..][i..] == ms[i + 1..];
      FillsAt(ms[1..], i - 1, y);
    }
  }

  /** A bit that squashing fills in and nothing else sets: the original leaves it alone, unless text clears
      it, and the squashed pointer sets it as it is filled in last. */
  lemma FilledBit(tgt: Target, env: Env, pid: nat, a: Arg, fld: string, m: Mem, i: nat, y: int)
    requires AnyKnown(tgt) && a.PointerArg? && a.res.Some? && Laid(a) && Sized(tgt, a) && FitMemory(Objects(tgt, a))
    requires var ms := TopMarks(tgt, env, pid, a); i < |ms| && y in Fill(ms[i]) && y !in Fills(ms[i + 1..])
    requires y !in ContentBits(tgt, env, pid, Visits(tgt, a, None, 0))
    ensures var vs, ws := Visits(tgt, a, None, 0), Visits(tgt, SquashPtr(tgt, a, fld), None, 0);
      && WritableVisits(tgt, vs) && WritableVisits(tgt, ws)
      && GetBit(Run(tgt, env, pid, m, vs), y) == (GetBit(m, y) && y !in Nuls(tgt, vs))
      && GetBit(Run(tgt, env, pid, m, ws), y) == Fill(TopMarks(tgt, env, pid, a)[i])[y]
  {
    hide Run, WritableVisits, Laid, Sized, SquashPtr, Visits, Objects, FitMemory, TopMarks, Kept, GetBit, Nuls, Fill,
      Fills;
    hide SameBits, ContentBits, Visited;
    SquashKeepsImage(tgt, env, pid, a, fld, m);
    FillsAt(TopMarks(tgt, env, pid, a), i, y);
  }
}
