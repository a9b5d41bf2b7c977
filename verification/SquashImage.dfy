/** The marks of a tree, and the effect of untyped pieces, which grow along with them. */
module SquashImage {
  import opened ProgTypes
  import opened ExecFormat
  import opened ExecCompile
  import opened ExecMeaning
  import opened Memory
  import opened MemoryImage
  import opened Squash
  import opened SquashMarks

  // ---- what leaves and bitfield units become ----

  function ResultBytes(tgt: Target, env: Env, a: Arg): seq<byte>
    requires a.ResultArg? && a.typ.ResourceT?
  {
    ArgBytes(0, ArgMeaning(tgt, env, SquashResult(a)))
  }

  /** The bytes that a leaf is squashed to. */
  function Flat(tgt: Target, env: Env, a: Arg): seq<byte> {
    match a
    case ConstArg(_, _) => SquashConst(tgt, a)
    case ResultArg(typ, _, _, _, _, _) => if typ.ResourceT? then ResultBytes(tgt, env, a) else []
    case PointerArg(typ, _, _, _) => LE(PhysicalAddr(tgt, a), CommonOf(tgt, typ).size)
    case DataArg(typ, data, _) => if CommonOf(tgt, typ).dir == DirOut then ZeroData(Size(tgt, a)) else BytesOf(data)
    case _ => []
  }

  function LeafMark(tgt: Target, env: Env, v: Visit): Mark {
    if v.addr.None? || v.arg.GroupArg? || v.arg.UnionArg? then Mark(Some(v), map[], map[], {})
    else
      var e := BytesEffect(v.addr.value, Flat(tgt, env, v.arg));
      if EmitsCopyin(tgt, v) then Mark(Some(v), e, map[], SquashedNul(v)) else Mark(Some(v), map[], e, SquashedNul(v))
  }

  /** Padding behind a group or a union. */
  function PadMark(at: int, n: nat): Mark { Mark(None, map[], BytesEffect(at, ZeroData(n)), {}) }

  /** The bits of a unit, collected from its first field on. */
  function UnitBits(fs: seq<Arg>, acc: nat): nat
    requires forall i :: 0 <= i < |fs| ==> IsBitfield(fs[i])
    decreases fs
  {
    if fs == [] then acc else assert IsBitfield(fs[0]); UnitBits(fs[1..], Or(acc, SquashedField(fs[0])))
  }

  function Inside(e: Effect, bits: set<int>): (r: Effect)
    ensures r.Keys == e.Keys * bits && forall y :: y in r ==> r[y] == e[y]
  {
    map y | y in e && y in bits :: e[y]
  }

  function Outside(e: Effect, bits: set<int>): (r: Effect)
    ensures r.Keys == e.Keys - bits && forall y :: y in r ==> r[y] == e[y]
  {
    map y | y in e && y !in bits :: e[y]
  }

  /** The visits of fields; together they are stored as e. */
  function FieldMarks(tgt: Target, env: Env, pid: nat, e: Effect, vs: seq<Visit>): seq<Mark> {
    if vs == [] then []
    else
      [Mark(Some(vs[0]), Inside(e, Content(tgt, env, pid, vs[0]).Keys), map[], {})]
      + FieldMarks(tgt, env, pid, e, vs[1..])
  }

  /** A bitfield unit is stored as a whole; the bits of no field are filled in. */
  function UnitMarks(tgt: Target, env: Env, pid: nat, unit: seq<Arg>, size: u64, base: u64, off: nat): seq<Mark>
    requires forall i :: 0 <= i < |unit| ==> IsBitfield(unit[i])
  {
    var e, vs := BytesEffect(base + off, LE(UnitBits(unit, 0), size)), VisitsSeq(tgt, unit, Some(base), off);
    [Mark(None, map[], Outside(e, ContentBits(tgt, env, pid, vs)), {})] + FieldMarks(tgt, env, pid, e, vs)
  }

  /** The marks of a tree that lies off bytes into the memory at base. */
  function Marks(tgt: Target, env: Env, pid: nat, a: Arg, base: u64, off: nat): seq<Mark>
    requires Laid(a)
    decreases a, 0
  {
    var head := LeafMark(tgt, env, Visit(a, Place(Some(base), off)));
    match a
    case GroupArg(_, inner) =>
      [head] + (MarksSeq(tgt, env, pid, inner, base, off)
                + [PadMark(base + off + SizeSum(tgt, inner), GroupPad(tgt, a))])
    case UnionArg(_, option) =>
      [head] + (Marks(tgt, env, pid, option, base, off)
                + [PadMark(base + off + Size(tgt, option), UnionPad(tgt, a))])
    case PointerArg(_, _, _, res) =>
      if res.None? then [head] else [head] + Marks(tgt, env, pid, res.value, PhysicalAddr(tgt, a), 0)
    case _ => [head]
  }

  function MarksSeq(tgt: Target, env: Env, pid: nat, args: seq<Arg>, base: u64, off: nat): seq<Mark>
    requires LaidSeq(args)
    decreases args
  {
    if args == [] then []
    else if IsBitfield(args[0]) then
      var n, size := UnitLen(args), args[0].typ.c.size;
      UnitMarks(tgt, env, pid, args[..n], size, base, off) + MarksSeq(tgt, env, pid, args[n..], base, off + size)
    else Marks(tgt, env, pid, args[0], base, off) + MarksSeq(tgt, env, pid, args[1..], base, off + Size(tgt, args[0]))
  }

  // ---- the effect of pieces ----

  lemma OneVisit(tgt: Target, env: Env, pid: nat, v: Visit)
    ensures Effects(tgt, env, pid, [v]) == Content(tgt, env, pid, v) + Cleared(NulBits(tgt, v))
    ensures ContentBits(tgt, env, pid, [v]) == Content(tgt, env, pid, v).Keys
  {
    hide Content, NulBits;
    assert [v][0] == v && [v][1..] == [];
    assert Effects(tgt, env, pid, []) == map[];
    assert ContentBits(tgt, env, pid, []) == {};
  }

  /** Groups and unions are not copied in themselves. */
  lemma HeadEffect(tgt: Target, env: Env, pid: nat, v: Visit)
    requires v.arg.GroupArg? || v.arg.UnionArg? || v.addr.None?
    ensures Effects(tgt, env, pid, [v]) == map[]
  {
    assert Content(tgt, env, pid, v) == map[] && NulBits(tgt, v) == {};
    OneVisit(tgt, env, pid, v);
  }

  predicate LaidPieces(elems: seq<Arg>) {
    Pieces(elems) && forall i :: 0 <= i < |elems| ==> elems[i].UnionArg? && Laid(elems[i].option)
  }

  /** The effect of pieces that lie at an address. */
  function PiecesEffect(tgt: Target, env: Env, pid: nat, elems: seq<Arg>, base: u64): Effect {
    Effects(tgt, env, pid, VisitsSeq(tgt, elems, Some(base), 0))
  }

  lemma {:induction false} PiecesLaid(elems: seq<Arg>)
    requires LaidPieces(elems)
    ensures LaidSeq(elems)
  {
    hide Laid, IsPiece;
    if elems != [] {
      PiecesLaid(elems[1..]);
      assert Laid(elems[0].option);
      UnionLaid(elems[0]);
    }
  }

  lemma UnionLaid(a: Arg)
    requires a.UnionArg? && Laid(a.option)
    ensures Laid(a) && !IsBitfield(a)
  {
  }

  /** x is p overridden by d. */
  ghost predicate Sum(x: Effect, p: Effect, d: Effect) { x == p + d }

  lemma PieceAdds(tgt: Target, env: Env, pid: nat, elems: seq<Arg>, a: Arg, base: u64)
    requires AnyKnown(tgt) && LaidPieces(elems) && IsPiece(Piece(a)) && Laid(a)
    ensures LaidPieces(elems + [Piece(a)])
    ensures Sum(PiecesEffect(tgt, env, pid, elems + [Piece(a)], base), PiecesEffect(tgt, env, pid, elems, base),
                Effects(tgt, env, pid, Visits(tgt, a, Some(base), SizeSum(tgt, elems))))
  {
    hide IsPiece, Laid, Effects, Size, SizeSum;
    var n, p := SizeSum(tgt, elems), Piece(a);
    VisitsSeqSplit(tgt, elems, [p], Some(base), 0);
    var head, inner := [Visit(p, Place(Some(base), n))], Visits(tgt, a, Some(base), n);
    LastPiece(tgt, a, base, n);
    EffectsSplit(tgt, env, pid, VisitsSeq(tgt, elems, Some(base), 0), VisitsSeq(tgt, [p], Some(base), n));
    EffectsSplit(tgt, env, pid, head, inner);
    HeadEffect(tgt, env, pid, head[0]);
    assert map[] + Effects(tgt, env, pid, inner) == Effects(tgt, env, pid, inner);
  }

  lemma LastPiece(tgt: Target, a: Arg, base: u64, n: nat)
    ensures VisitsSeq(tgt, [Piece(a)], Some(base), n) ==
            [Visit(Piece(a), Place(Some(base), n))] + Visits(tgt, a, Some(base), n)
  {
    assert [Piece(a)][1..] == [];
    assert VisitsSeq(tgt, [], Some(base), Advance(tgt, Piece(a), n)) == [];
  }

  lemma BlobContent(tgt: Target, env: Env, pid: nat, data: seq<char>, addr: u64)
    requires data != []
    ensures var v := Visit(DataArg(ANY_BLOB, data, 0), Some(addr));
      Content(tgt, env, pid, v) == BytesEffect(addr, BytesOf(data)) && NulBits(tgt, v) == {}
  {
    hide BytesEffect;
    var b := DataArg(ANY_BLOB, data, 0);
    assert ArgBytes(pid, ArgMeaning(tgt, env, b)) == BytesOf(data);
  }

  lemma EmptyBlob(tgt: Target, env: Env, pid: nat, v: Visit)
    requires v.arg == DataArg(ANY_BLOB, [], 0)
    ensures Content(tgt, env, pid, v) == map[] && NulBits(tgt, v) == {}
  {
  }

  lemma BlobVisits(tgt: Target, data: seq<char>, base: u64, n: nat)
    ensures var b := DataArg(ANY_BLOB, data, 0);
      Laid(b) && Visits(tgt, b, Some(base), n) == [Visit(b, Place(Some(base), n))]
  {
  }

  lemma BlobEffect(tgt: Target, env: Env, pid: nat, data: seq<char>, base: u64, n: nat)
    requires base + n + |data| <= TWO64
    ensures var b := DataArg(ANY_BLOB, data, 0);
      Laid(b) && Effects(tgt, env, pid, Visits(tgt, b, Some(base), n)) == BytesEffect(base + n, BytesOf(data))
  {
    hide BytesEffect, Effects, Visits, Laid, Content, NulBits;
    var b := DataArg(ANY_BLOB, data, 0);
    var v := Visit(b, Place(Some(base), n));
    BlobVisits(tgt, data, base, n);
    OneVisit(tgt, env, pid, v);
    NoNul(Content(tgt, env, pid, v));
    if data == [] {
      NoBytesEffect(base + n);
      assert BytesOf(data) == [];
      EmptyBlob(tgt, env, pid, v);
    } else {
      PlaceIs(base, n);
      BlobContent(tgt, env, pid, data, base + n);
    }
  }

  lemma NoBytesEffect(at: int)
    ensures BytesEffect(at, []) == map[]
  {
    assert ByteBits(at, 0) == {};
  }

  lemma BlobAdds(tgt: Target, env: Env, pid: nat, elems: seq<Arg>, data: seq<char>, base: u64)
    requires AnyKnown(tgt) && LaidPieces(elems) && base + SizeSum(tgt, elems) + |data| <= TWO64
    ensures var all := elems + [BlobPiece(data)];
      && LaidPieces(all) && SizeSum(tgt, all) == SizeSum(tgt, elems) + |data|
      && Sum(PiecesEffect(tgt, env, pid, all, base), PiecesEffect(tgt, env, pid, elems, base),
             BytesEffect(base + SizeSum(tgt, elems), BytesOf(data)))
  {
    hide IsPiece, Laid, Effects, Visits, PiecesEffect, BytesEffect, SizeSum, Size;
    BlobSize(tgt, data);
    AddPiece(tgt, elems, DataArg(ANY_BLOB, data, 0));
    BlobEffect(tgt, env, pid, data, base, SizeSum(tgt, elems));
    PieceAdds(tgt, env, pid, elems, DataArg(ANY_BLOB, data, 0), base);
  }

  lemma PiecesBefore(elems: seq<Arg>, pre: seq<Arg>, a: Arg)
    requires LaidPieces(elems) && elems == pre + [a]
    ensures LaidPieces(pre)
  {
    assert forall i :: 0 <= i < |pre| ==> pre[i] == elems[i];
  }

  lemma SizeBefore(tgt: Target, pre: seq<Arg>, data: seq<char>)
    requires AnyKnown(tgt) && Pieces(pre)
    ensures SizeSum(tgt, pre + [BlobPiece(data)]) == SizeSum(tgt, pre) + |data|
  {
    hide SizeSum, Size, IsPiece;
    BlobSize(tgt, data);
    AddPiece(tgt, pre, DataArg(ANY_BLOB, data, 0));
  }

  lemma LaidArePieces(elems: seq<Arg>)
    requires LaidPieces(elems)
    ensures Pieces(elems)
  {
  }

  lemma BlobBytesCat(at: int, data: seq<char>, s: seq<byte>)
    ensures Sum(BytesEffect(at, BytesOf(data + Chars(s))), BytesEffect(at, BytesOf(data)), BytesEffect(at + |data|, s))
  {
    hide BytesEffect;
    BlobCat(data, s);
    BytesCat(at, BytesOf(data), s);
  }

  lemma MergeMore(p: Effect, d: Effect, f: Effect, df: Effect, short: Effect, long: Effect)
    requires Sum(df, d, f) && Sum(short, p, d) && Sum(long, p, df)
    ensures Sum(long, short, f)
  {
    MergeAssoc(p, d, f);
  }

  /** A longer blob takes effect like the shorter one and the rest behind it. */
  lemma BlobExtends(tgt: Target, env: Env, pid: nat, pre: seq<Arg>, data: seq<char>, s: seq<byte>, base: u64)
    requires AnyKnown(tgt) && LaidPieces(pre) && base + SizeSum(tgt, pre) + |data| + |s| <= TWO64
    ensures var short, long := pre + [BlobPiece(data)], pre + [BlobPiece(data + Chars(s))];
      && LaidPieces(long)
      && Sum(PiecesEffect(tgt, env, pid, long, base), PiecesEffect(tgt, env, pid, short, base),
             BytesEffect(base + SizeSum(tgt, pre) + |data|, s))
  {
    hide LaidPieces, PiecesEffect, BytesEffect, SizeSum, BlobPiece, Sum;
    var at, more := base + SizeSum(tgt, pre), data + Chars(s);
    var p, d, f := PiecesEffect(tgt, env, pid, pre, base), BytesEffect(at, BytesOf(data)), BytesEffect(at + |data|, s);
    BlobAdds(tgt, env, pid, pre, data, base);
    BlobAdds(tgt, env, pid, pre, more, base);
    BlobBytesCat(at, data, s);
    MergeMore(p, d, f, BytesEffect(at, BytesOf(more)), PiecesEffect(tgt, env, pid, pre + [BlobPiece(data)], base),
              PiecesEffect(tgt, env, pid, pre + [BlobPiece(more)], base));
  }

  /** Appended data takes effect behind all pieces. */
  lemma DataAdds(tgt: Target, env: Env, pid: nat, elems: seq<Arg>, s: seq<byte>, base: u64)
    requires AnyKnown(tgt) && LaidPieces(elems) && base + SizeSum(tgt, elems) + |s| <= TWO64
    ensures LaidPieces(AppendData(elems, s))
    ensures Sum(PiecesEffect(tgt, env, pid, AppendData(elems, s), base), PiecesEffect(tgt, env, pid, elems, base),
                BytesEffect(base + SizeSum(tgt, elems), s))
  {
    hide Pieces, LaidPieces, PiecesEffect, BytesEffect, SizeSum, Sum;
    if EndsInBlob(elems) {
      LaidArePieces(elems);
      var pre, data := LastBlob(elems, s);
      hide EndsInBlob, AppendData, BlobPiece;
      PiecesBefore(elems, pre, BlobPiece(data));
      SizeBefore(tgt, pre, data);
      BlobExtends(tgt, env, pid, pre, data, s, base);
    } else {
      BlobAdds(tgt, env, pid, elems, Chars(s), base);
    }
  }

  lemma BlobCat(data: seq<char>, s: seq<byte>)
    ensures BytesOf(data + Chars(s)) == BytesOf(data) + s
  {
    assert BytesOf(data + Chars(s)) == BytesOf(data) + BytesOf(Chars(s));
  }

  /** elems1 continues elems with pieces of effect d. */
  ghost predicate Grown(tgt: Target, env: Env, pid: nat, elems: seq<Arg>, elems1: seq<Arg>, base: u64, d: Effect) {
    LaidPieces(elems1) && Sum(PiecesEffect(tgt, env, pid, elems1, base), PiecesEffect(tgt, env, pid, elems, base), d)
  }

  lemma GrownTwice(tgt: Target, env: Env, pid: nat, e0: seq<Arg>, e1: seq<Arg>, e2: seq<Arg>, base: u64, c: Effect,
                   d: Effect)
    requires Grown(tgt, env, pid, e0, e1, base, c) && Grown(tgt, env, pid, e1, e2, base, d)
    ensures Grown(tgt, env, pid, e0, e2, base, c + d)
  {
    hide PiecesEffect, LaidPieces;
    MergeAssoc(PiecesEffect(tgt, env, pid, e0, base), c, d);
  }

  lemma PadGrows(tgt: Target, env: Env, pid: nat, elems: seq<Arg>, n: nat, base: u64)
    requires AnyKnown(tgt) && LaidPieces(elems) && base + SizeSum(tgt, elems) + n <= TWO64
    ensures Grown(tgt, env, pid, elems, PadData(elems, n), base, BytesEffect(base + SizeSum(tgt, elems), ZeroData(n)))
  {
    hide PiecesEffect, LaidPieces, AppendData, BytesEffect, SizeSum;
    if n == 0 {
      assert ZeroData(0) == [];
      NoBytesEffect(base + SizeSum(tgt, elems));
      assert PiecesEffect(tgt, env, pid, elems, base) + map[] == PiecesEffect(tgt, env, pid, elems, base);
    } else {
      DataAdds(tgt, env, pid, elems, ZeroData(n), base);
    }
  }

  // ---- leaves ----

  lemma PlaceIs(base: u64, n: nat)
    requires base + n < TWO64
    ensures Place(Some(base), n) == Some(base + n)
  {
  }

  lemma LeafVisits(tgt: Target, a: Arg, base: u64, n: nat)
    requires a.DataArg? || a.ResultArg? || a.ConstArg? || (a.PointerArg? && a.res.None?)
    requires base + n + Size(tgt, a) <= TWO64
    ensures Visits(tgt, a, Some(base), n) == [Visit(a, Place(Some(base), n))]
    ensures Size(tgt, a) > 0 ==> Place(Some(base), n) == Some(base + n)
    ensures CopiedIn(tgt, a) ==> Size(tgt, a) > 0
  {
  }

  lemma PointerBytes(tgt: Target, env: Env, pid: nat, a: Arg)
    requires a.PointerArg? && GoodLeaf(a)
    ensures Writable(a) && ArgBytes(pid, ArgMeaning(tgt, env, a)) == LE(PhysicalAddr(tgt, a), CommonOf(tgt, a.typ).size)
  {
    hide LE, PhysicalAddr;
    var x := PhysicalAddr(tgt, a);
    assert Wrap64(x + 0 * pid) == x;
  }

  lemma DataBytes(tgt: Target, env: Env, pid: nat, a: Arg)
    requires a.DataArg? && GoodLeaf(a) && CommonOf(tgt, a.typ).dir != DirOut
    ensures |BytesOf(a.data)| == Size(tgt, a)
    ensures Writable(a) ==> ArgBytes(pid, ArgMeaning(tgt, env, a)) == BytesOf(a.data)
  {
  }

  /** The type of a squashed result. */
  lemma ResultBecomes(tgt: Target, a: Arg)
    requires a.ResultArg? && Laid(a) && Sized(tgt, a)
    ensures var b := SquashResult(a);
      && b.ResultArg? && Laid(b) && GoodLeaf(b) && CopiedIn(tgt, b) && Writable(b)
      && Size(tgt, b) == Size(tgt, a) == a.typ.c.size == b.typ.c.size > 0 && (TextArg(a) <==> TextArg(b))
  {
  }

  /** The effect of a squashed result. */
  lemma ResultEffect(tgt: Target, env: Env, pid: nat, a: Arg, base: u64, n: nat)
    requires a.ResultArg? && Laid(a) && Sized(tgt, a) && base + n + Size(tgt, a) <= TWO64
    ensures Effects(tgt, env, pid, Visits(tgt, SquashResult(a), Some(base), n)) ==
            BytesEffect(base + n, ResultBytes(tgt, env, a)) + Cleared(SquashedNul(Visit(a, Some(base + n))))
    ensures |ResultBytes(tgt, env, a)| == Size(tgt, a)
  {
    hide Laid, CopiedIn, BytesEffect, ArgMeaning, ArgBytes, SquashResult, GoodLeaf, Writable, TextArg, Size, Place;
    ResultBecomes(tgt, a);
    var b := SquashResult(a);
    var w := Visit(b, Some(base + n));
    PlaceIs(base, n);
    LeafMeaning(tgt, env, 0, b);
    PidFree(tgt, env, pid, b);
    OneVisit(tgt, env, pid, w);
    LeafVisits(tgt, b, base, n);
    hide Effects, Visits, IsBitfield, Cleared, ByteBits;
    assert Content(tgt, env, pid, w) == BytesEffect(base + n, ResultBytes(tgt, env, a));
  }

  lemma PidFree(tgt: Target, env: Env, pid: nat, b: Arg)
    requires b.ResultArg? && Writable(b)
    ensures ArgBytes(pid, ArgMeaning(tgt, env, b)) == ArgBytes(0, ArgMeaning(tgt, env, b))
  {
    hide CodeBytes, Adjust;
    var e := ArgMeaning(tgt, env, b);
    assert Wrap64(e.value + 0 * pid) == Wrap64(e.value + 0 * 0);
  }

  // ---- bitfield units ----

  /** Does some field set bit j? */
  predicate SetsBit(fs: seq<Arg>, j: nat)
    requires forall i :: 0 <= i < |fs| ==> IsBitfield(fs[i])
    decreases fs
  {
    fs != [] && (assert IsBitfield(fs[0]); BitOf(SquashedField(fs[0]), j) || SetsBit(fs[1..], j))
  }

  lemma {:induction false} UnitBitsSet(fs: seq<Arg>, acc: nat, j: nat)
    requires forall i :: 0 <= i < |fs| ==> IsBitfield(fs[i])
    ensures BitOf(UnitBits(fs, acc), j) == (BitOf(acc, j) || SetsBit(fs, j))
    decreases fs
  {
    hide BitOf, Or, SquashedField, IsBitfield;
    if fs != [] {
      assert IsBitfield(fs[0]);
      OrBit(acc, SquashedField(fs[0]), j);
      UnitBitsSet(fs[1..], Or(acc, SquashedField(fs[0])), j);
    }
  }

  predicate AtField(f: Arg, j: int)
    requires IsBitfield(f)
  {
    f.typ.bits.off <= j < f.typ.bits.off + f.typ.bits.len
  }

  lemma FieldElsewhere(f: Arg, j: nat)
    requires IsBitfield(f)
    ensures BitOf(SquashedField(f), j) == (AtField(f, j) && BitOf(SquashedValue(f).0, j - f.typ.bits.off))
  {
    FieldHoldsBits(SquashedValue(f).0, f.typ.bits.off, f.typ.bits.len, j);
  }

  /** A bit of no field is not set. */
  lemma {:induction false} SetsElsewhere(fs: seq<Arg>, j: nat)
    requires forall i :: 0 <= i < |fs| ==> IsBitfield(fs[i]) && !AtField(fs[i], j)
    ensures !SetsBit(fs, j)
    decreases fs
  {
    hide BitOf, SquashedField;
    if fs != [] {
      FieldElsewhere(fs[0], j);
      SetsElsewhere(fs[1..], j);
    }
  }

  /** A bit of one field only is set as that field sets it. */
  lemma {:induction false} SetsHere(fs: seq<Arg>, i: nat, j: nat)
    requires forall k :: 0 <= k < |fs| ==> IsBitfield(fs[k]) && (AtField(fs[k], j) <==> k == i)
    requires i < |fs| && AtField(fs[i], j)
    ensures SetsBit(fs, j) == BitOf(SquashedValue(fs[i]).0, j - fs[i].typ.bits.off)
    decreases fs
  {
    hide BitOf, SquashedField, SquashedValue;
    FieldElsewhere(fs[0], j);
    if i == 0 {
      SetsElsewhere(fs[1..], j);
    } else {
      SetsHere(fs[1..], i - 1, j);
    }
  }

  /** The last field of a unit appends its collected bits. */
  lemma {:induction false} SquashUnit(tgt: Target, unit: seq<Arg>, rest: seq<Arg>, elems: seq<Arg>, bits: nat,
                                      size: u64)
    requires GoodUnit(unit, size)
    ensures SquashFields(tgt, unit + rest, elems, bits) ==
            SquashFields(tgt, rest, AppendData(elems, LE(UnitBits(unit, bits), size)), 0)
    decreases unit
  {
    hide LE, AppendData, GoodField, SquashInto, Or, SquashedField;
    var f, all := unit[0], unit + rest;
    assert IsBitfield(f) && f.typ.c.size == size by { UnitHead(tgt, unit, size, None, 0); FieldSize(f, size); }
    var bits1 := Or(bits, SquashedField(f));
    assert all[0] == f && all[1..] == unit[1..] + rest;
    if |unit| > 1 {
      SquashUnit(tgt, unit[1..], rest, elems, bits1, size);
    } else {
      assert unit[1..] == [] && [] + rest == rest;
      assert UnitBits(unit[1..], bits1) == bits1;
    }
  }

  lemma FieldSize(f: Arg, size: u64)
    requires GoodField(f, size)
    ensures IsBitfield(f) && f.typ.c.size == size
  {
  }

  /** A visit of a bitfield: it clears nothing, and its content lies in its unit. */
  ghost predicate FieldVisit(tgt: Target, env: Env, pid: nat, v: Visit, bits: set<int>) {
    Content(tgt, env, pid, v).Keys <= bits && NulBits(tgt, v) == {} && SquashedNul(v) == {}
  }

  lemma FieldIsInside(tgt: Target, env: Env, pid: nat, f: Arg, size: u64, base: u64, off: nat)
    requires GoodField(f, size) && base + off + size <= TWO64
    ensures FieldVisit(tgt, env, pid, Visit(f, Place(Some(base), off)), ByteBits(base + off, size))
  {
    hide GoodSize, ConstFor, FieldEffect;
    PlaceIs(base, off);
  }

  lemma {:induction false} UnitInside(tgt: Target, env: Env, pid: nat, unit: seq<Arg>, size: u64, base: u64, off: nat,
                                      vs: seq<Visit>, bits: set<int>)
    requires GoodUnit(unit, size) && base + off + size <= TWO64
    requires vs == VisitsSeq(tgt, unit, Some(base), off) && bits == ByteBits(base + off, size)
    ensures forall i :: 0 <= i < |vs| ==> FieldVisit(tgt, env, pid, vs[i], bits)
    decreases unit
  {
    hide GoodField, VisitsSeq, FieldVisit, Place, ByteBits;
    UnitHead(tgt, unit, size, Some(base), off);
    FieldIsInside(tgt, env, pid, unit[0], size, base, off);
    if |unit| > 1 {
      UnitInside(tgt, env, pid, unit[1..], size, base, off, vs[1..], bits);
    }
  }

  lemma {:induction false} FieldMarksAre(tgt: Target, env: Env, pid: nat, e: Effect, vs: seq<Visit>)
    requires forall i :: 0 <= i < |vs| ==> FieldVisit(tgt, env, pid, vs[i], e.Keys)
    ensures var ms := FieldMarks(tgt, env, pid, e, vs);
      && Visited(ms) == vs && GoodMarks(tgt, env, pid, ms)
      && Whole(ms) == Inside(e, ContentBits(tgt, env, pid, vs)) && ContentBits(tgt, env, pid, vs) <= e.Keys
    decreases vs
  {
    hide Content, NulBits, SquashedNul, FieldVisit, GoodMark, Now;
    if vs != [] {
      var v, rest := vs[0], vs[1..];
      FieldMarksAre(tgt, env, pid, e, rest);
      var c := Content(tgt, env, pid, v).Keys;
      var k, ks := Mark(Some(v), Inside(e, c), map[], {}), FieldMarks(tgt, env, pid, e, rest);
      FieldMarkIs(tgt, env, pid, e, v);
      GoodJoin(tgt, env, pid, [k], ks);
      WholeSplit([k], ks);
      WholeOne(k);
      assert Visited([k] + ks) == [v] + rest == vs;
      InsideCat(e, c, ContentBits(tgt, env, pid, rest));
    } else {
      assert Inside(e, {}) == map[];
    }
  }

  lemma FieldMarkIs(tgt: Target, env: Env, pid: nat, e: Effect, v: Visit)
    requires FieldVisit(tgt, env, pid, v, e.Keys)
    ensures var c := Content(tgt, env, pid, v).Keys; var k := Mark(Some(v), Inside(e, c), map[], {});
      GoodMark(tgt, env, pid, k) && Now(k) == Inside(e, c) && c <= e.Keys
  {
    hide Content, NulBits, SquashedNul;
    assert map[] + Cleared({}) == map[];
    var k := Mark(Some(v), Inside(e, Content(tgt, env, pid, v).Keys), map[], {});
    assert Fill(k) == map[];
    assert k.s + map[] == k.s;
  }

  lemma InsideCat(e: Effect, a: set<int>, b: set<int>)
    ensures Inside(e, a) + Inside(e, b) == Inside(e, a + b)
  {
  }

  /** The marks of a unit store its collected bits. */
  lemma UnitMarksAre(tgt: Target, env: Env, pid: nat, unit: seq<Arg>, size: u64, base: u64, off: nat)
    requires GoodUnit(unit, size) && base + off + size <= TWO64
    ensures var ms := UnitMarks(tgt, env, pid, unit, size, base, off);
      && Visited(ms) == VisitsSeq(tgt, unit, Some(base), off) && GoodMarks(tgt, env, pid, ms)
      && Whole(ms) == BytesEffect(base + off, LE(UnitBits(unit, 0), size))
  {
    hide GoodUnit, UnitBits, LE, VisitsSeq, FieldMarks, ContentBits, BytesEffect, GoodMark, Now, ByteBits;
    hide Content, NulBits, SquashedNul;
    var e, vs := BytesEffect(base + off, LE(UnitBits(unit, 0), size)), VisitsSeq(tgt, unit, Some(base), off);
    UnitInside(tgt, env, pid, unit, size, base, off, vs, e.Keys);
    FieldMarksAre(tgt, env, pid, e, vs);
    var bits := ContentBits(tgt, env, pid, vs);
    var k := Mark(None, map[], Outside(e, bits), {});
    FillMarkIs(tgt, env, pid, Outside(e, bits));
    var ks := FieldMarks(tgt, env, pid, e, vs);
    GoodJoin(tgt, env, pid, [k], ks);
    WholeSplit([k], ks);
    WholeOne(k);
    assert [] + vs == vs;
    InsideOutside(e, bits);
  }

  lemma FillMarkIs(tgt: Target, env: Env, pid: nat, body: Effect)
    ensures var k := Mark(None, map[], body, {}); GoodMark(tgt, env, pid, k) && Now(k) == body
  {
    var k := Mark(None, map[], body, {});
    assert body + Cleared({}) == body;
    assert map[] + body == body;
  }

  lemma InsideOutside(e: Effect, bits: set<int>)
    ensures Outside(e, bits) + Inside(e, bits) == e
  {
  }
}
