/** Inputs on which squashing changes what a call finds in memory: one for each condition under which it
    does not. */
module SquashExamples {
  import opened ProgTypes
  import opened ExecFormat
  import opened ExecCompile
  import opened ExecMeaning
  import opened Memory
  import opened MemoryImage
  import opened Squash
  import opened SquashMarks
  import opened SquashImage
  import opened SquashMemory
  import opened SquashApart
  import opened SquashPlain

  function IntOf(size: u64, dir: Dir, format: Format): Type {
    IntT(Common("i", size, dir, false, false), KInt, Bits(format, 0, 0, false))
  }

  function PtrTo(t: Type): Type { PtrT(Common("p", 8, DirIn, false, false), t) }

  const KEY := StructKey("s", DirIn)
  const STRUCT := StructT("s", KEY)

  /** A 64-bit target with memory at 0 and a struct of the given fields. */
  ghost predicate HasStruct(tgt: Target, size: u64, fields: seq<Type>) {
    && AnyKnown(tgt) && tgt.ptrSize == 8 && tgt.dataOffset == 0
    && KEY in tgt.structs && tgt.structs[KEY] == StructDesc(Common("s", size, DirIn, false, false), fields, 0, false)
  }

  /** A pointer to the struct at address 0. */
  function ToStruct(inner: seq<Arg>): Arg { PointerArg(PtrTo(STRUCT), 0, 0, Some(GroupArg(STRUCT, inner))) }

  /** A pointer to one byte. */
  function ToByte(address: u64, x: u64): Arg {
    PointerArg(PtrTo(IntOf(1, DirIn, FormatNative)), address, 0, Some(ConstArg(IntOf(1, DirIn, FormatNative), x)))
  }

  lemma ToByteVisits(tgt: Target, address: u64, x: u64, base: u64, off: nat)
    requires tgt.dataOffset == 0 && x < 256
    ensures var a := ToByte(address, x);
      && PhysicalAddr(tgt, a) == address && Size(tgt, a) == 8 && Objects(tgt, a) == [Span(address, 1)]
      && Visits(tgt, a, Some(base), off) ==
         [Visit(a, Place(Some(base), off)), Visit(a.res.value, Some(address))]
  {
    var a := ToByte(address, x);
    assert Objects(tgt, a.res.value) == [];
    assert Visits(tgt, a.res.value, Some(address), 0) == [Visit(a.res.value, Some(address))];
  }

  lemma ByteSized(tgt: Target, address: u64, x: u64)
    requires tgt.ptrSize == 8
    ensures var a := ToByte(address, x); Laid(a) && Sized(tgt, a) && Size(tgt, a) == 8
  {
    var a := ToByte(address, x);
    assert Laid(a.res.value) && Sized(tgt, a.res.value);
  }

  lemma OneSized(tgt: Target, c: Arg)
    requires c.ConstArg? && GoodLeaf(c) && Sized(tgt, c)
    ensures LaidSeq([c]) && SizedSeq(tgt, [c]) && SizeSum(tgt, [c]) == Size(tgt, c)
  {
    assert [c][1..] == [] && LaidSeq([]) && SizedSeq(tgt, []) && SizeSum(tgt, []) == 0;
    assert Laid(c) && !IsBitfield(c);
  }

  lemma SquashedByte(tgt: Target, address: u64, x: byte, elems: seq<Arg>)
    requires tgt.ptrSize == 8
    ensures SquashInto(tgt, ToByte(address, x), elems) == elems + [Piece(AnyToByte(address, x))]
  {
    var int8 := ConstArg(IntOf(1, DirIn, FormatNative), x);
    assert LE(x, 1) == [x] + LE(x / 256, 0) == [x];
    assert SquashConst(tgt, int8) == [x];
    assert Chars([x]) == [x as char];
    assert SquashInto(tgt, int8, []) == AppendData([], [x]) == [BlobPiece([x as char])];
  }

  function AnyToByte(address: u64, x: byte): Arg {
    PointerArg(AnyPtr(8, "ANYPTR"), address, 0, Some(GroupArg(ANY_ARRAY, [BlobPiece([x as char])])))
  }

  // ---- text in front of something ----

  const DECIMAL := IntOf(20, DirIn, FormatStrDec)

  function TextBehind(): Arg { ToStruct([ToByte(28, 7), ConstArg(DECIMAL, 0)]) }

  lemma TextVisits(tgt: Target)
    requires HasStruct(tgt, 28, [PtrTo(IntOf(1, DirIn, FormatNative)), DECIMAL])
    ensures var a, p, c := TextBehind(), ToByte(28, 7), ConstArg(DECIMAL, 0);
      Visits(tgt, a, None, 0) == [Visit(a, None), Visit(a.res.value, Some(0)), Visit(p, Some(0)),
                                  Visit(p.res.value, Some(28)), Visit(c, Some(8))]
  {
    var a, p, c := TextBehind(), ToByte(28, 7), ConstArg(DECIMAL, 0);
    var g, inner := a.res.value, [p, c];
    ToByteVisits(tgt, 28, 7, 0, 0);
    assert inner[1..] == [c] && [c][1..] == [];
    assert Visits(tgt, c, Some(0), 8) == [Visit(c, Some(8))];
    assert VisitsSeq(tgt, [c], Some(0), 8) == [Visit(c, Some(8))];
    assert VisitsSeq(tgt, inner, Some(0), 0) == Visits(tgt, p, Some(0), 0) + VisitsSeq(tgt, [c], Some(0), 8);
    assert PhysicalAddr(tgt, a) == 0;
    assert Visits(tgt, g, Some(0), 0) == [Visit(g, Some(0))] + VisitsSeq(tgt, inner, Some(0), 0);
    assert Visits(tgt, a, None, 0) == [Visit(a, None)] + Visits(tgt, g, Some(0), 0);
  }

  lemma TextObjects(tgt: Target)
    requires HasStruct(tgt, 28, [PtrTo(IntOf(1, DirIn, FormatNative)), DECIMAL])
    ensures Objects(tgt, TextBehind()) == [Span(0, 28), Span(28, 1)]
  {
    var a, p, c := TextBehind(), ToByte(28, 7), ConstArg(DECIMAL, 0);
    var g, inner := a.res.value, [p, c];
    ToByteVisits(tgt, 28, 7, 0, 0);
    assert PhysicalAddr(tgt, a) == 0 && Size(tgt, g) == 28;
    assert inner[1..] == [c] && [c][1..] == [];
    assert ObjectsSeq(tgt, [c]) == [] && ObjectsSeq(tgt, inner) == Objects(tgt, p) + [];
    assert Objects(tgt, g) == [Span(28, 1)];
  }

  lemma TextLaid(tgt: Target)
    requires HasStruct(tgt, 28, [PtrTo(IntOf(1, DirIn, FormatNative)), DECIMAL])
    ensures Laid(TextBehind()) && Sized(tgt, TextBehind())
  {
    var a, p, c := TextBehind(), ToByte(28, 7), ConstArg(DECIMAL, 0);
    var inner := [p, c];
    assert inner[1..] == [c] && [c][1..] == [];
    ByteSized(tgt, 28, 7);
    OneSized(tgt, c);
    assert LaidSeq(inner) && Laid(a.res.value);
    assert SizedSeq(tgt, inner) && SizeSum(tgt, inner) == 28;
    assert Sized(tgt, a.res.value);
  }

  lemma TextApart()
    ensures Apart([Span(0, 28), Span(28, 1)])
  {
    var s := [Span(28, 1)];
    assert [Span(0, 28), Span(28, 1)][1..] == s && s[1..] == [];
    assert SpanBits(s) == ByteBits(28, 1) + {};
  }

  lemma TextClears(tgt: Target, env: Env, pid: nat, m: Mem, a: Arg, fld: string)
    requires AnyKnown(tgt) && a.PointerArg? && a.res.Some? && Laid(a) && Sized(tgt, a)
    requires UnitsApart(a) && Apart(Objects(tgt, a)) && PlainVisits(tgt, Visits(tgt, a, None, 0))
    requires var vs := Visits(tgt, a, None, 0);
      && |vs| == 5 && vs[3] == Visit(ConstArg(IntOf(1, DirIn, FormatNative), 7), Some(28))
      && vs[4] == Visit(ConstArg(DECIMAL, 0), Some(8))
    ensures var vs, ws := Visits(tgt, a, None, 0), Visits(tgt, SquashPtr(tgt, a, fld), None, 0);
      && WritableVisits(tgt, vs) && WritableVisits(tgt, ws)
      && !GetBit(Run(tgt, env, pid, m, vs), 8 * 28) && GetBit(Run(tgt, env, pid, m, ws), 8 * 28)
  {
    hide Run, GetBit, SquashPtr, Visits, Laid, Sized, Objects, Apart, Content, WritableVisits, IntOf, AnyKnown,
      UnitsApart;
    hide Nuls, SquashedNuls, PlainVisits;
    var vs := Visits(tgt, a, None, 0);
    SevenContent(tgt, env, pid, vs[3], 28);
    assert vs[3 + 1..] == [vs[4]];
    TextNuls(tgt, vs[4]);
    PlainBit(tgt, env, pid, a, fld, m, 3, 8 * 28);
  }

  lemma TextPlain(tgt: Target)
    requires HasStruct(tgt, 28, [PtrTo(IntOf(1, DirIn, FormatNative)), DECIMAL]) && Laid(TextBehind())
    ensures UnitsApart(TextBehind()) && PlainVisits(tgt, Visits(tgt, TextBehind(), None, 0))
  {
    TextVisits(tgt);
    var a, p, c := TextBehind(), ToByte(28, 7), ConstArg(DECIMAL, 0);
    var inner := [p, c];
    assert inner[1..] == [c] && [c][1..] == [];
    assert UnitsApart(p) && UnitsApartSeq([c]) && UnitsApartSeq(inner) && UnitsApart(a.res.value);
  }

  /** Formatted text in a struct right in front of another object: the original clears the first byte of
      that object, the squashed pointer does not. */
  lemma TextClearsNeighbour(tgt: Target, env: Env, pid: nat, m: Mem, fld: string)
    requires HasStruct(tgt, 28, [PtrTo(IntOf(1, DirIn, FormatNative)), DECIMAL])
    ensures var vs, ws := Visits(tgt, TextBehind(), None, 0), Visits(tgt, SquashPtr(tgt, TextBehind(), fld), None, 0);
      && Laid(TextBehind()) && Sized(tgt, TextBehind()) && Apart(Objects(tgt, TextBehind()))
      && WritableVisits(tgt, vs) && WritableVisits(tgt, ws)
      && !GetBit(Run(tgt, env, pid, m, vs), 8 * 28) && GetBit(Run(tgt, env, pid, m, ws), 8 * 28)
  {
    hide Run, GetBit, SquashPtr, Visits, Laid, Sized, Objects, Apart, WritableVisits, UnitsApart, PlainVisits;
    TextVisits(tgt);
    TextObjects(tgt);
    TextLaid(tgt);
    TextApart();
    TextPlain(tgt);
    TextClears(tgt, env, pid, m, TextBehind(), fld);
  }

  lemma TextNuls(tgt: Target, v: Visit)
    requires v == Visit(ConstArg(DECIMAL, 0), Some(8))
    ensures 8 * 28 in Nuls(tgt, [v]) && SquashedNuls([v]) == {}
  {
    assert [v][1..] == [];
    assert NulBits(tgt, v) == ByteBits(28, 1);
  }

  // ---- overlapping objects ----

  const OUT_BYTE := IntOf(1, DirOut, FormatNative)

  /** The pointer in the struct points to the output byte behind it. */
  function Overlapping(): Arg { ToStruct([ToByte(8, 7), ConstArg(OUT_BYTE, 0)]) }

  lemma OverlappingPieces(tgt: Target)
    requires HasStruct(tgt, 9, [PtrTo(IntOf(1, DirIn, FormatNative)), OUT_BYTE])
    ensures SquashInto(tgt, Overlapping().res.value, []) == AppendData([Piece(AnyToByte(8, 7))], [0])
  {
    var p, c := ToByte(8, 7), ConstArg(OUT_BYTE, 0);
    var inner, elems := [p, c], [Piece(AnyToByte(8, 7))];
    SquashedByte(tgt, 8, 7, []);
    assert [] + elems == elems && inner[1..] == [c] && [c][1..] == [];
    assert LE(0, 1) == [0] + LE(0, 0) == [0];
    assert SquashConst(tgt, c) == [0];
    assert SquashInto(tgt, c, elems) == AppendData(elems, [0]);
    assert SquashFields(tgt, [c], elems, 0) == SquashFields(tgt, [], AppendData(elems, [0]), 0);
    hide SquashInto, AppendData;
    assert SquashFields(tgt, inner, [], 0) == SquashFields(tgt, [c], SquashInto(tgt, p, []), 0);
    NoPad(tgt, inner);
  }

  lemma NoPad(tgt: Target, inner: seq<Arg>)
    requires KEY in tgt.structs && !tgt.structs[KEY].c.varlen
    ensures SquashInto(tgt, GroupArg(STRUCT, inner), []) == SquashFields(tgt, inner, [], 0)
  {
  }

  lemma OverlappingVisits(tgt: Target)
    requires HasStruct(tgt, 9, [PtrTo(IntOf(1, DirIn, FormatNative)), OUT_BYTE])
    ensures var a, p, c := Overlapping(), ToByte(8, 7), ConstArg(OUT_BYTE, 0);
      && Visits(tgt, a, None, 0) == [Visit(a, None), Visit(a.res.value, Some(0)), Visit(p, Some(0)),
                                     Visit(p.res.value, Some(8)), Visit(c, Some(8))]
      && PhysicalAddr(tgt, a) == 0
  {
    var a, p, c := Overlapping(), ToByte(8, 7), ConstArg(OUT_BYTE, 0);
    var g, inner := a.res.value, [p, c];
    ToByteVisits(tgt, 8, 7, 0, 0);
    assert inner[1..] == [c] && [c][1..] == [];
    assert Visits(tgt, c, Some(0), 8) == [Visit(c, Some(8))];
    assert VisitsSeq(tgt, [c], Some(0), 8) == [Visit(c, Some(8))];
    assert VisitsSeq(tgt, inner, Some(0), 0) == Visits(tgt, p, Some(0), 0) + VisitsSeq(tgt, [c], Some(0), 8);
    assert Visits(tgt, g, Some(0), 0) == [Visit(g, Some(0))] + VisitsSeq(tgt, inner, Some(0), 0);
    assert Visits(tgt, a, None, 0) == [Visit(a, None)] + Visits(tgt, g, Some(0), 0);
  }

  lemma OverlappingLaid(tgt: Target)
    requires HasStruct(tgt, 9, [PtrTo(IntOf(1, DirIn, FormatNative)), OUT_BYTE])
    ensures Laid(Overlapping()) && Sized(tgt, Overlapping())
  {
    var a, p, c := Overlapping(), ToByte(8, 7), ConstArg(OUT_BYTE, 0);
    var inner := [p, c];
    assert inner[1..] == [c] && [c][1..] == [];
    ByteSized(tgt, 8, 7);
    OneSized(tgt, c);
    assert LaidSeq(inner) && Laid(a.res.value);
    assert SizedSeq(tgt, inner) && SizeSum(tgt, inner) == 9;
    assert Sized(tgt, a.res.value);
  }

  lemma SevenContent(tgt: Target, env: Env, pid: nat, v: Visit, at: u64)
    requires v == Visit(ConstArg(IntOf(1, DirIn, FormatNative), 7), Some(at))
    ensures var c := Content(tgt, env, pid, v); 8 * at in c && c[8 * at]
    ensures NulBits(tgt, v) == {}
  {
    var a := v.arg;
    assert LE(7, 1) == [7] + LE(7 / 256, 0) == [7];
    assert ArgBytes(pid, ArgMeaning(tgt, env, a)) == [7];
    assert BitOf(7, 0);
  }

  /** The last two visits: the byte 7 at address 8, and an output byte there. */
  lemma ByteStays(tgt: Target, env: Env, pid: nat, vs: seq<Visit>)
    requires |vs| >= 2 && vs[|vs| - 2] == Visit(ConstArg(IntOf(1, DirIn, FormatNative), 7), Some(8))
    requires vs[|vs| - 1] == Visit(ConstArg(OUT_BYTE, 0), Some(8))
    ensures var e := Effects(tgt, env, pid, vs); 64 in e && e[64]
  {
    var n := |vs| - 2;
    var pre, v, w := vs[..n], vs[n], vs[n + 1];
    assert vs == pre + ([v] + [w]);
    assert Content(tgt, env, pid, w) == map[] && NulBits(tgt, w) == {};
    SevenContent(tgt, env, pid, v, 8);
    OneVisit(tgt, env, pid, v);
    OneVisit(tgt, env, pid, w);
    hide Effects, Content, NulBits;
    EffectsSplit(tgt, env, pid, pre, [v] + [w]);
    EffectsSplit(tgt, env, pid, [v], [w]);
  }

  lemma AnyByteLaid(tgt: Target, address: u64, x: byte)
    requires AnyKnown(tgt)
    ensures LaidPieces([Piece(AnyToByte(address, x))]) && SizeSum(tgt, [Piece(AnyToByte(address, x))]) == 8
  {
    var p := BlobPiece([x as char]);
    UnionLaid(p);
    assert [p][1..] == [] && LaidSeq([p]);
    assert Laid(AnyToByte(address, x));
    PieceSize(tgt, AnyToByte(address, x));
    assert [Piece(AnyToByte(address, x))][1..] == [];
  }

  lemma OverlappingObjects(tgt: Target)
    requires HasStruct(tgt, 9, [PtrTo(IntOf(1, DirIn, FormatNative)), OUT_BYTE])
    ensures !Apart(Objects(tgt, Overlapping()))
  {
    var a, p, c := Overlapping(), ToByte(8, 7), ConstArg(OUT_BYTE, 0);
    var inner := [p, c];
    ToByteVisits(tgt, 8, 7, 0, 0);
    assert PhysicalAddr(tgt, a) == 0 && Size(tgt, a.res.value) == 9;
    assert inner[1..] == [c] && [c][1..] == [];
    assert ObjectsSeq(tgt, [c]) == [] && ObjectsSeq(tgt, inner) == Objects(tgt, p) + [];
    assert Objects(tgt, a) == [Span(0, 9), Span(8, 1)];
    assert [Span(0, 9), Span(8, 1)][1..] == [Span(8, 1)];
    assert 64 in ByteBits(0, 9) && 64 in SpanBits([Span(8, 1)]);
  }

  /** An output byte is squashed to a zero, over whatever a pointer in front of it has put there. */
  lemma OverlapIsLost(tgt: Target, env: Env, pid: nat, m: Mem, fld: string)
    requires HasStruct(tgt, 9, [PtrTo(IntOf(1, DirIn, FormatNative)), OUT_BYTE])
    ensures var vs, ws := Visits(tgt, Overlapping(), None, 0), Visits(tgt, SquashPtr(tgt, Overlapping(), fld), None, 0);
      && Laid(Overlapping()) && Sized(tgt, Overlapping()) && !Apart(Objects(tgt, Overlapping()))
      && WritableVisits(tgt, vs) && WritableVisits(tgt, ws)
      && GetBit(Run(tgt, env, pid, m, vs), 64) && !GetBit(Run(tgt, env, pid, m, ws), 64)
  {
    hide Run, GetBit, Visits, Sized, WritableVisits, GoodVisits, Effects, LaidPieces, PiecesEffect, AppendData, SizeSum;
    hide SquashInto, CopiedIn, IsPiece, PhysicalAddr, Objects, Apart;
    var a, elems := Overlapping(), [Piece(AnyToByte(8, 7))];
    OverlappingVisits(tgt);
    OverlappingLaid(tgt);
    OverlappingObjects(tgt);
    OverlappingPieces(tgt);
    AnyByteLaid(tgt, 8, 7);
    DataAdds(tgt, env, pid, elems, [0], 0);
    var b, all := SquashPtr(tgt, a, fld), AppendData(elems, [0]);
    PointerBecomes(tgt, a, fld, all);
    GroupEffect(tgt, env, pid, all, 0);
    TopVisits(tgt, env, pid, b);
    var vs, ws := Visits(tgt, a, None, 0), Visits(tgt, b, None, 0);
    ByteStays(tgt, env, pid, vs);
    OneNul(8);
    LaidGood(tgt, a, None, 0);
    LaidGood(tgt, b, None, 0);
    RunIs(tgt, env, pid, vs, m);
    RunIs(tgt, env, pid, ws, m);
  }

  // ---- bits that belong to no field ----

  const NIBBLE := IntT(Common("n", 1, DirIn, false, false), KInt, Bits(FormatNative, 0, 4, false))

  lemma NibbleStored()
    ensures Get(CopyinMem(map[0 := 0xf0], 0, Copyin(0, Const(1, 0, 5, 0, 4, 0))), 0) == 0xf5
  {
    var m := map[0 := 0xf0];
    var s := Load(m, 0, 1);
    assert s == [0xf0] && Ordered(0, s) == s;
    assert s[1..] == [] && FromLE([]) == 0 && FromLE(s) == 0xf0;
    assert Pow2(4) == 16 && Pow2(0) == 1;
    assert SetBits(0xf0, 5, 0, 4) == 0xf5;
    assert LE(0xf5, 1) == [0xf5] + LE(0xf5 / 256, 0) == [0xf5];
    hide SetBits, LE, FromLE, Load, Pow2;
    assert Wrap64(5 + 0 * 0) == 5;
  }

  /** The rest of a bitfield unit is left alone by the original and cleared by the squashed pointer. */
  lemma RestOfUnitIsCleared(tgt: Target, env: Env)
    ensures var f, m := ConstArg(NIBBLE, 5), map[0 := 0xf0];
      && GoodUnit([f], 1) && LE(UnitBits([f], 0), 1) == [5]
      && Get(CopyinMem(m, 0, Copyin(0, ArgMeaning(tgt, env, f))), 0) == 0xf5
      && Get(CopyinMem(m, 0, Copyin(0, Data([5], false))), 0) == 5
  {
    var f := ConstArg(NIBBLE, 5);
    NibbleStored();
    assert ArgMeaning(tgt, env, f) == Const(1, 0, 5, 0, 4, 0);
    hide CopyinMem;
    NibbleUnit();
    StoredByte();
  }

  lemma NibbleUnit()
    ensures var f := ConstArg(NIBBLE, 5); GoodUnit([f], 1) && LE(UnitBits([f], 0), 1) == [5]
  {
    var f := ConstArg(NIBBLE, 5);
    assert [f][1..] == [];
    assert Pow2(4) == 16 && Pow2(0) == 1;
    assert SquashedField(f) == 5;
    assert LE(5, 1) == [5] + LE(5 / 256, 0) == [5];
    hide LE, SquashedField;
    assert UnitBits([f], 0) == UnitBits([], Or(0, 5)) == 5;
  }

  lemma StoredByte()
    ensures Get(CopyinMem(map[0 := 0xf0], 0, Copyin(0, Data([5], false))), 0) == 5
  {
  }

  // ---- defaults and byte order ----

  function ResourceOf(format: Format, default: u64): Type {
    ResourceT(Common("r", 2, DirIn, false, false), format, default)
  }

  lemma Defaults()
    ensures !SameDefault(ResourceOf(FormatNative, 0)) && SameDefault(ResourceOf(FormatNative, 0xffff))
  {
    TwoBytes(0);
    TwoBytes(0xffff);
    TwoBytes(ALL_ONES);
    assert CodeBytes(0, 0, 2)[0] != CodeBytes(0, ALL_ONES, 2)[0];
  }

  /** A reference that is not delivered: a default of zero is squashed to all ones, one that is all ones
      at its size stays what it is. */
  lemma UndeliveredChanges(tgt: Target, pid: nat, default: u64)
    requires default == 0 || default == 0xffff
    ensures var v := Visit(ResultArg(ResourceOf(FormatNative, default), 1, Some(0), 0, 0, 0), Some(0));
      LeafKept(tgt, map[], pid, v) <==> default == 0xffff
  {
    var v := Visit(ResultArg(ResourceOf(FormatNative, default), 1, Some(0), 0, 0, 0), Some(0));
    assert EmitsCopyin(tgt, v) && GoodLeaf(v.arg) && Sized(tgt, v.arg);
    hide LeafKept, SameDefault;
    Defaults();
    ResultSurvives(tgt, map[], pid, v);
  }

  lemma TwoBytes(v: nat)
    ensures LE(v, 2) == [v % 256, v / 256 % 256]
  {
    assert LE(v / 256, 1) == [v / 256 % 256] + LE(v / 256 / 256, 0);
  }

  /** A big-endian result loses its byte order: the squashed one sets the bytes in reverse. */
  lemma BigEndianResultChanges(tgt: Target, env: Env, pid: nat)
    ensures var a := ResultArg(ResourceOf(FormatBigEndian, 0), 1, None, 0, 0, 1);
      && GoodLeaf(a) && Sized(tgt, a)
      && ArgBytes(pid, ArgMeaning(tgt, env, a)) == [0, 1] && ResultBytes(tgt, env, a) == [1, 0]
  {
    TwoBytes(1);
    assert Reverse([1, 0]) == [0, 1];
  }

  const BIG_NIBBLE := IntT(Common("n", 2, DirIn, false, false), KInt, Bits(FormatBigEndian, 0, 4, false))

  lemma BigNibbleStored()
    ensures Get(CopyinMem(map[], 0, Copyin(0, Const(2, 1, 5, 0, 4, 0))), 1) == 5
  {
    var s := Load(map[], 0, 2);
    assert s == [0, 0] && Ordered(1, s) == [0, 0];
    assert [0, 0][1..] == [0] && [0][1..] == [] && FromLE([]) == 0;
    assert FromLE([0]) == 0 + 256 * FromLE([]) && FromLE([0, 0]) == 0 + 256 * FromLE([0]);
    assert Pow2(4) == 16 && Pow2(0) == 1;
    assert SetBits(0, 5, 0, 4) == 5;
    TwoBytes(5);
    assert Ordered(1, LE(5, 2)) == [0, 5];
    hide SetBits, LE, FromLE, Load, Pow2, Reverse;
    assert Wrap64(5 + 0 * 0) == 5;
  }

  lemma BigNibbleSquashed()
    ensures LE(SquashedField(ConstArg(BIG_NIBBLE, 5)), 2) == [0, 0]
  {
    TwoBytes(0);
    TwoBytes(5);
    TwoBytes(Swap(5, 2));
    SwapIsReverse(5, 2);
    assert Reverse([5, 0]) == [0, 5];
    hide Swap, LE;
    assert Swap(5, 2) % 256 == 0;
    assert Swap(5, 2) % 16 == 0;
    assert Pow2(4) == 16 && Pow2(0) == 1;
  }

  /** A big-endian bitfield loses its value: its bytes are swapped before its bits are cut out. */
  lemma BigEndianBitfieldChanges(tgt: Target, env: Env)
    ensures var f := ConstArg(BIG_NIBBLE, 5);
      && Get(CopyinMem(map[], 0, Copyin(0, ArgMeaning(tgt, env, f))), 1) == 5
      && LE(SquashedField(f), 2) == [0, 0]
  {
    assert ArgMeaning(tgt, env, ConstArg(BIG_NIBBLE, 5)) == Const(2, 1, 5, 0, 4, 0);
    hide CopyinMem, LE, SquashedField;
    BigNibbleStored();
    BigNibbleSquashed();
  }
}
