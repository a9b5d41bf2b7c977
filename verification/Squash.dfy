/** Squashing a pointer: its pointee is rewritten as an array of untyped pieces, data blobs, pointers
    and results. Each piece list grows at its end; adjacent data goes into one blob. */
module Squash {
  import opened ProgTypes
  import opened ExecFormat
  import opened ExecCompile
  import opened ExecMeaning
  import opened Memory
  import opened MemoryImage

  function Chars(s: seq<byte>): (t: seq<char>)
    ensures |t| == |s| && BytesOf(t) == s
  {
    seq(|s|, i requires 0 <= i < |s| => s[i] as char)
  }

  function Piece(a: Arg): Arg { UnionArg(ANY_UNION, a) }

  function BlobPiece(data: seq<char>): Arg { Piece(DataArg(ANY_BLOB, data, 0)) }

  predicate EndsInBlob(elems: seq<Arg>) {
    elems != [] && elems[|elems| - 1].UnionArg? && elems[|elems| - 1].option.DataArg?
  }

  /** Appends bytes to the last blob, or to a new one. */
  function AppendData(elems: seq<Arg>, s: seq<byte>): seq<Arg> {
    if EndsInBlob(elems) then
      var n := |elems| - 1;
      var blob := elems[n].option;
      elems[n := elems[n].(option := blob.(data := blob.data + Chars(s)))]
    else elems + [BlobPiece(Chars(s))]
  }

  // ---- byte order ----

  function Shr(v: nat, k: nat): nat { if k == 0 then v else Shr(v / 2, k - 1) }

  /** Byte k of a number. */
  function ByteOf(v: nat, k: nat): byte { Shr(v, 8 * k) % 256 }

  function Shl(v: nat, k: nat): nat { Pow2(k) * v }

  function Swap16(v: nat): nat { Or(Or(0, Shl(ByteOf(v, 1), 0)), Shl(ByteOf(v, 0), 8)) }

  function Swap32(v: nat): nat {
    Or(Or(Or(Or(0, Shl(ByteOf(v, 3), 0)), Shl(ByteOf(v, 2), 8)), Shl(ByteOf(v, 1), 16)), Shl(ByteOf(v, 0), 24))
  }

  function Swap64(v: nat): nat {
    var low := Or(Or(Or(Or(0, Shl(ByteOf(v, 7), 0)), Shl(ByteOf(v, 6), 8)), Shl(ByteOf(v, 5), 16)),
                  Shl(ByteOf(v, 4), 24));
    Or(Or(Or(Or(low, Shl(ByteOf(v, 3), 32)), Shl(ByteOf(v, 2), 40)), Shl(ByteOf(v, 1), 48)), Shl(ByteOf(v, 0), 56))
  }

  /** The bytes of a word in reverse; the source panics at other sizes. */
  function Swap(v: nat, size: nat): nat {
    if size == 2 then Swap16(v) else if size == 4 then Swap32(v) else if size == 8 then Swap64(v) else v
  }

  lemma {:induction false} PowSum(a: nat, b: nat)
    ensures Pow2(a + b) == Pow2(a) * Pow2(b)
  {
    if a > 0 {
      PowSum(a - 1, b);
      Doubled(Pow2(a - 1), Pow2(b));
    }
  }

  lemma Doubled(p: nat, q: nat)
    ensures 2 * (p * q) == 2 * p * q
  {
  }

  lemma ShiftByte(v: nat, k: nat)
    ensures Shr(v, 8 + k) == Shr(v / 256, k)
  {
    assert Shr(v, 8 + k) == Shr(v / 2, 7 + k) == Shr(v / 2 / 2, 6 + k);
    assert Shr(v / 4, 6 + k) == Shr(v / 8, 5 + k) == Shr(v / 16, 4 + k);
    assert Shr(v / 16, 4 + k) == Shr(v / 32, 3 + k) == Shr(v / 64, 2 + k);
    assert Shr(v / 64, 2 + k) == Shr(v / 128, 1 + k) == Shr(v / 256, k);
  }

  lemma {:induction false} LEByte(v: nat, n: nat, k: nat)
    requires k < n
    ensures LE(v, n)[k] == ByteOf(v, k)
    decreases n
  {
    if k > 0 {
      LEByte(v / 256, n - 1, k - 1);
      ShiftByte(v, 8 * (k - 1));
    }
  }

  /** The bytes of s, each shifted to its place and joined by or. */
  function OrBytes(s: seq<byte>, n: nat): nat
    requires n <= |s|
  {
    if n == 0 then 0 else Or(OrBytes(s, n - 1), Shl(s[n - 1], 8 * (n - 1)))
  }

  lemma {:induction false} FromLESnoc(s: seq<byte>, x: byte)
    ensures FromLE(s + [x]) == FromLE(s) + Pow2(8 * |s|) * x
  {
    if s == [] {
      assert FromLE([x]) == x + 256 * FromLE([]);
      assert [] + [x] == [x];
    } else {
      var rest := s[1..];
      FromLESnoc(rest, x);
      assert (s + [x])[0] == s[0] && (s + [x])[1..] == rest + [x];
      PowSum(8, 8 * |rest|);
      assert Pow2(8) == 256;
      Scaled(Pow2(8 * |rest|), x);
    }
  }

  lemma Scaled(p: nat, x: nat)
    ensures 256 * (p * x) == 256 * p * x
  {
  }

  lemma {:induction false} PowBytes(n: nat)
    ensures Pow256(n) == Pow2(8 * n)
  {
    if n > 0 {
      PowBytes(n - 1);
      PowSum(8, 8 * (n - 1));
      assert Pow2(8) == 256;
    }
  }

  lemma NoBytes()
    ensures FromLE([]) == 0
  {
  }

  lemma {:induction false} OrBytesIs(s: seq<byte>, n: nat)
    requires n <= |s|
    ensures OrBytes(s, n) == FromLE(s[..n])
  {
    hide Pow2, Or, FromLE;
    if n > 0 {
      OrBytesIs(s, n - 1);
      assert s[..n] == s[..n - 1] + [s[n - 1]];
      FromLESnoc(s[..n - 1], s[n - 1]);
      PowBytes(n - 1);
      OrIsSum(FromLE(s[..n - 1]), 8 * (n - 1), s[n - 1]);
    } else {
      assert s[..0] == [];
      NoBytes();
    }
  }

  lemma {:induction false} ToFromLE(s: seq<byte>)
    ensures LE(FromLE(s), |s|) == s
  {
    if s != [] {
      ToFromLE(s[1..]);
      var v := FromLE(s[1..]);
      assert (s[0] + 256 * v) % 256 == s[0] && (s[0] + 256 * v) / 256 == v;
    }
  }

  /** The shifts of a byte swap put the bytes in reverse. */
  lemma SwapIsReverse(v: nat, size: nat)
    requires size == 2 || size == 4 || size == 8
    ensures LE(Swap(v, size), size) == Reverse(LE(v, size))
  {
    hide Pow2, Or, ByteOf, Shl, LE, FromLE, Reverse;
    var s := Reverse(LE(v, size));
    forall k | 0 <= k < size
      ensures s[k] == ByteOf(v, size - 1 - k)
    {
      LEByte(v, size, size - 1 - k);
    }
    assert OrBytes(s, 0) == 0 && OrBytes(s, 1) == Or(0, Shl(s[0], 8 * 0));
    assert OrBytes(s, 2) == Or(Or(0, Shl(s[0], 0)), Shl(s[1], 8));
    if size >= 4 {
      assert OrBytes(s, 4) == Or(Or(OrBytes(s, 2), Shl(s[2], 16)), Shl(s[3], 24));
    }
    if size == 8 {
      assert OrBytes(s, 6) == Or(Or(OrBytes(s, 4), Shl(s[4], 32)), Shl(s[5], 40));
      assert OrBytes(s, 8) == Or(Or(OrBytes(s, 6), Shl(s[6], 48)), Shl(s[7], 56));
    }
    OrBytesIs(s, size);
    assert s[..size] == s;
    ToFromLE(s);
  }

  // ---- the pieces of a tree ----

  /** The value and format a constant is squashed to. */
  function SquashedValue(a: Arg): (nat, u64)
    requires a.ConstArg?
  {
    var v := ConstValue(a).0;
    if !a.typ.IntT? then (v, 0)
    else if a.typ.kind.KCsum? then (0xabcd_ef12_3456_7890, 0)
    else if a.typ.bits.format == FormatBigEndian then (Swap(v, a.typ.c.size), 0)
    else (v, FormatCode(a.typ.bits.format))
  }

  /** A bitfield's contribution to its unit. */
  function SquashedField(a: Arg): nat
    requires IsBitfield(a)
  {
    Field(SquashedValue(a).0, a.typ.bits.off, a.typ.bits.len)
  }

  function ZeroData(n: nat): (s: seq<byte>)
    ensures |s| == n
  {
    seq<byte>(n, _ => 0)
  }

  function SquashConst(tgt: Target, a: Arg): seq<byte>
    requires a.ConstArg?
  {
    var size := CommonOf(tgt, a.typ).size;
    if IsPad(a.typ) then ZeroData(size)
    else
      var (v, code) := SquashedValue(a);
      CodeBytes(code, v, size)
  }

  /** A result keeps its reference and becomes one of the untyped results of its size or format. */
  function SquashResult(a: Arg): Arg
    requires a.ResultArg?
  {
    if !a.typ.ResourceT? then a
    else
      a.(typ := match a.typ.format
                case FormatStrDec => ANY_RESDEC
                case FormatStrHex => ANY_RESHEX
                case FormatStrOct => ANY_RESOCT
                case _ => if a.typ.c.size == 2 then ANY_RES16 else if a.typ.c.size == 4 then ANY_RES32 else ANY_RES64)
  }

  /** The padding that the alignment attribute of a struct of variable length asks for. */
  function GroupPad(tgt: Target, a: Arg): nat
    requires a.GroupArg?
  {
    if a.typ.StructT? && CommonOf(tgt, a.typ).varlen && Desc(tgt, a.typ.key).align != 0 then
      var rem := SizeSum(tgt, a.inner) % Desc(tgt, a.typ.key).align;
      if rem != 0 then Desc(tgt, a.typ.key).align - rem else 0
    else 0
  }

  function UnionPad(tgt: Target, a: Arg): nat
    requires a.UnionArg?
  {
    if CommonOf(tgt, a.typ).varlen || Size(tgt, a) < Size(tgt, a.option) then 0 else Size(tgt, a) - Size(tgt, a.option)
  }

  function PadData(elems: seq<Arg>, n: nat): seq<Arg> { if n == 0 then elems else AppendData(elems, ZeroData(n)) }

  /** Appends the pieces of a tree. */
  function SquashInto(tgt: Target, a: Arg, elems: seq<Arg>): seq<Arg>
    decreases a, 1
  {
    match a
    case ConstArg(_, _) => AppendData(elems, SquashConst(tgt, a))
    case ResultArg(_, _, _, _, _, _) => elems + [Piece(SquashResult(a))]
    case PointerArg(typ, _, _, res) =>
      if res.Some? then elems + [Piece(SquashPtr(tgt, a, ""))]
      else AppendData(elems, LE(PhysicalAddr(tgt, a), CommonOf(tgt, typ).size))
    case UnionArg(_, option) => PadData(SquashInto(tgt, option, elems), UnionPad(tgt, a))
    case DataArg(typ, data, _) =>
      if CommonOf(tgt, typ).dir == DirOut then PadData(elems, Size(tgt, a)) else AppendData(elems, BytesOf(data))
    case GroupArg(_, inner) => PadData(SquashFields(tgt, inner, elems, 0), GroupPad(tgt, a))
  }

  /** The pointer with its pointee squashed; `fld` keeps the field name of the pointer if not empty. */
  function SquashPtr(tgt: Target, a: Arg, fld: string): Arg
    requires a.PointerArg? && a.res.Some?
    decreases a, 0
  {
    PointerArg(MakeAnyPtrType(tgt, CommonOf(tgt, a.typ).size, fld), a.address, a.vmaSize,
               Some(GroupArg(ANY_ARRAY, SquashInto(tgt, a.res.value, []))))
  }

  /** Squashes fields; bitfields are collected and appended with the last field of their unit. */
  function SquashFields(tgt: Target, fields: seq<Arg>, elems: seq<Arg>, bits: nat): seq<Arg>
    decreases fields
  {
    if fields == [] then elems
    else
      var f := fields[0];
      if IsBitfield(f) then
        var bits1 := Or(bits, SquashedField(f));
        if BitfieldMiddle(f.typ) then SquashFields(tgt, fields[1..], elems, bits1)
        else SquashFields(tgt, fields[1..], AppendData(elems, LE(bits1, f.typ.c.size)), 0)
      else SquashFields(tgt, fields[1..], SquashInto(tgt, f, elems), bits)
  }

  // ---- sizes ----

  ghost predicate AnyKnown(tgt: Target) { ANY_KEY in tgt.structs && tgt.structs[ANY_KEY] == AnyDesc(tgt) }

  /** The sizes at which a constant or a result can be squashed. */
  predicate SquashSize(format: Format, csum: bool, size: nat) {
    csum || match format
            case FormatNative => true
            case FormatBigEndian => size == 2 || size == 4 || size == 8
            case FormatStrDec => size == 20
            case FormatStrHex => size == 18
            case FormatStrOct => size == 23
  }

  /** Trees that are squashed without an early panic and whose types declare the sizes of their parts:
      a struct or union of fixed size has that size. Values, directions and delivered results do not
      matter, nor do checksums, per-process values and byte order. */
  predicate Sized(tgt: Target, a: Arg)
    decreases a, 0
  {
    match a
    case ConstArg(typ, _) =>
      && typ.IntT? && typ.bits.len == 0 && !typ.bits.middle
      && (IsPad(typ) || SquashSize(typ.bits.format, typ.kind.KCsum?, typ.c.size))
    case ResultArg(typ, _, _, _, _, _) =>
      && typ.ResourceT? && SquashSize(typ.format, false, typ.c.size)
      && (typ.format == FormatNative ==> typ.c.size == 2 || typ.c.size == 4 || typ.c.size == 8)
    case PointerArg(typ, _, vmaSize, res) =>
      res.Some? ==>
        && vmaSize == 0 && (CommonOf(tgt, typ).size == tgt.ptrSize || CommonOf(tgt, typ).size == 8)
        && Sized(tgt, res.value)
    case DataArg(typ, data, outSize) => CommonOf(tgt, typ).dir == DirOut || data != [] || outSize == 0
    case UnionArg(_, option) => Sized(tgt, option) && Size(tgt, option) <= Size(tgt, a)
    case GroupArg(typ, inner) =>
      && SizedSeq(tgt, inner) && (CommonOf(tgt, typ).varlen || SizeSum(tgt, inner) == CommonOf(tgt, typ).size)
  }

  predicate SizedSeq(tgt: Target, args: seq<Arg>)
    decreases args
  {
    || args == []
    || (SizedSeq(tgt, args[1..])
        && if IsBitfield(args[0]) then SquashSize(args[0].typ.bits.format, args[0].typ.kind.KCsum?, args[0].typ.c.size)
           else !BitfieldMiddle(args[0].typ) && Sized(tgt, args[0]))
  }

  /** Pieces: untyped unions, blobs of the generic type. */
  predicate Pieces(elems: seq<Arg>) { forall i :: 0 <= i < |elems| ==> IsPiece(elems[i]) }

  predicate IsPiece(a: Arg) {
    && a.UnionArg? && a.typ == ANY_UNION
    && (a.option.DataArg? ==> a.option == DataArg(ANY_BLOB, a.option.data, 0))
  }

  lemma PieceSize(tgt: Target, a: Arg)
    requires AnyKnown(tgt)
    ensures Size(tgt, Piece(a)) == Size(tgt, a) && !BitfieldMiddle(ANY_UNION) && !IsBitfield(Piece(a))
  {
    assert CommonOf(tgt, ANY_UNION).varlen;
  }

  lemma AddPiece(tgt: Target, elems: seq<Arg>, a: Arg)
    requires AnyKnown(tgt) && Pieces(elems) && IsPiece(Piece(a))
    ensures Pieces(elems + [Piece(a)]) && SizeSum(tgt, elems + [Piece(a)]) == SizeSum(tgt, elems) + Size(tgt, a)
  {
    hide Size, IsPiece;
    PieceSize(tgt, a);
    SizeSumSplit(tgt, elems, [Piece(a)]);
    assert [Piece(a)][1..] == [] && SizeSum(tgt, []) == 0;
  }

  lemma BlobSize(tgt: Target, data: seq<char>)
    ensures Size(tgt, DataArg(ANY_BLOB, data, 0)) == |data| && IsPiece(BlobPiece(data))
  {
  }

  /** The last piece is a blob, behind other pieces. */
  lemma LastBlob(elems: seq<Arg>, s: seq<byte>) returns (pre: seq<Arg>, data: seq<char>)
    requires Pieces(elems) && EndsInBlob(elems)
    ensures Pieces(pre) && elems == pre + [BlobPiece(data)]
      && AppendData(elems, s) == pre + [BlobPiece(data + Chars(s))]
  {
    var n := |elems| - 1;
    pre, data := elems[..n], elems[n].option.data;
    assert IsPiece(elems[n]);
  }

  lemma AppendSize(tgt: Target, elems: seq<Arg>, s: seq<byte>)
    requires AnyKnown(tgt) && Pieces(elems)
    ensures Pieces(AppendData(elems, s)) && SizeSum(tgt, AppendData(elems, s)) == SizeSum(tgt, elems) + |s|
  {
    hide Pieces, Size, IsPiece;
    if EndsInBlob(elems) {
      var pre, data := LastBlob(elems, s);
      BlobSize(tgt, data);
      BlobSize(tgt, data + Chars(s));
      AddPiece(tgt, pre, DataArg(ANY_BLOB, data, 0));
      AddPiece(tgt, pre, DataArg(ANY_BLOB, data + Chars(s), 0));
    } else {
      BlobSize(tgt, Chars(s));
      AddPiece(tgt, elems, DataArg(ANY_BLOB, Chars(s), 0));
    }
  }

  lemma PadSize(tgt: Target, elems: seq<Arg>, n: nat)
    requires AnyKnown(tgt) && Pieces(elems)
    ensures Pieces(PadData(elems, n)) && SizeSum(tgt, PadData(elems, n)) == SizeSum(tgt, elems) + n
  {
    hide Pieces, AppendData;
    if n > 0 {
      AppendSize(tgt, elems, ZeroData(n));
    }
  }

  lemma ConstSize(tgt: Target, a: Arg)
    requires a.ConstArg? && Sized(tgt, a)
    ensures |SquashConst(tgt, a)| == Size(tgt, a)
  {
    hide Swap, ConstValue, LE, Digits;
  }

  lemma ResultSize(tgt: Target, a: Arg)
    requires a.ResultArg? && Sized(tgt, a)
    ensures Size(tgt, SquashResult(a)) == Size(tgt, a) && IsPiece(Piece(SquashResult(a)))
  {
  }

  lemma PadSizes(tgt: Target, a: Arg)
    requires Sized(tgt, a)
    ensures a.UnionArg? ==> Size(tgt, a) == Size(tgt, a.option) + UnionPad(tgt, a)
    ensures a.GroupArg? ==> Size(tgt, a) == SizeSum(tgt, a.inner) + GroupPad(tgt, a)
  {
  }

  /** The pieces of a tree are as long as the tree. */
  lemma {:induction false} SquashIntoSize(tgt: Target, a: Arg, elems: seq<Arg>)
    requires AnyKnown(tgt) && Sized(tgt, a) && Pieces(elems)
    ensures Pieces(SquashInto(tgt, a, elems))
    ensures SizeSum(tgt, SquashInto(tgt, a, elems)) == SizeSum(tgt, elems) + Size(tgt, a)
    decreases a, 1
  {
    hide Pieces, AppendData, SquashConst, SquashResult, UnionPad, GroupPad, PadData, LE, SizeSum;
    PadSizes(tgt, a);
    match a
    case ConstArg(_, _) =>
      ConstSize(tgt, a);
      AppendSize(tgt, elems, SquashConst(tgt, a));
    case ResultArg(_, _, _, _, _, _) =>
      ResultSize(tgt, a);
      AddPiece(tgt, elems, SquashResult(a));
    case PointerArg(typ, _, _, res) =>
      if res.Some? {
        AddPiece(tgt, elems, SquashPtr(tgt, a, ""));
      } else {
        AppendSize(tgt, elems, LE(PhysicalAddr(tgt, a), CommonOf(tgt, typ).size));
      }
    case UnionArg(_, option) =>
      SquashIntoSize(tgt, option, elems);
      PadSize(tgt, SquashInto(tgt, option, elems), UnionPad(tgt, a));
    case DataArg(typ, data, _) =>
      if CommonOf(tgt, typ).dir == DirOut {
        PadSize(tgt, elems, Size(tgt, a));
      } else {
        AppendSize(tgt, elems, BytesOf(data));
      }
    case GroupArg(_, inner) =>
      SquashFieldsSize(tgt, inner, elems, 0);
      PadSize(tgt, SquashFields(tgt, inner, elems, 0), GroupPad(tgt, a));
  }

  lemma {:induction false} SquashFieldsSize(tgt: Target, fields: seq<Arg>, elems: seq<Arg>, bits: nat)
    requires AnyKnown(tgt) && SizedSeq(tgt, fields) && Pieces(elems)
    ensures Pieces(SquashFields(tgt, fields, elems, bits))
    ensures SizeSum(tgt, SquashFields(tgt, fields, elems, bits)) == SizeSum(tgt, elems) + SizeSum(tgt, fields)
    decreases fields
  {
    hide Pieces, AppendData, SquashInto, Or, LE, SquashedField, Sized;
    if fields != [] {
      var f, rest := fields[0], fields[1..];
      if IsBitfield(f) {
        var bits1 := Or(bits, SquashedField(f));
        if BitfieldMiddle(f.typ) {
          SquashFieldsSize(tgt, rest, elems, bits1);
        } else {
          AppendSize(tgt, elems, LE(bits1, f.typ.c.size));
          SquashFieldsSize(tgt, rest, AppendData(elems, LE(bits1, f.typ.c.size)), 0);
        }
      } else {
        SquashIntoSize(tgt, f, elems);
        SquashFieldsSize(tgt, rest, SquashInto(tgt, f, elems), bits);
      }
    }
  }

  /** Squashing a pointer keeps the address and the size of what it points to. */
  lemma SquashKeepsSize(tgt: Target, a: Arg, fld: string)
    requires AnyKnown(tgt) && a.PointerArg? && a.res.Some? && Sized(tgt, a)
    ensures var b := SquashPtr(tgt, a, fld);
      && b.address == a.address && Size(tgt, b) == Size(tgt, a)
      && b.res.Some? && Size(tgt, b.res.value) == Size(tgt, a.res.value)
  {
    SquashIntoSize(tgt, a.res.value, []);
    assert SizeSum(tgt, []) == 0;
  }
}
