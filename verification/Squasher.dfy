/** Squashing as it runs: the list of pieces is extended in place while the pointee is traversed. */
module Squasher {
  import opened ProgTypes
  import opened ExecFormat
  import opened ExecCompile
  import opened Memory
  import opened MemoryImage
  import opened Squash

  class Elems {
    var elems: seq<Arg>

    constructor ()
      ensures elems == []
    {
      elems := [];
    }

    /** Makes the last piece a blob. */
    method EnsureDataElem()
      modifies this
      ensures EndsInBlob(elems)
      ensures elems == if EndsInBlob(old(elems)) then old(elems) else old(elems) + [BlobPiece([])]
    {
      if |elems| == 0 || !(elems[|elems| - 1].UnionArg? && elems[|elems| - 1].option.DataArg?) {
        elems := elems + [BlobPiece([])];
      }
    }

    method Append(s: seq<byte>)
      modifies this
      ensures elems == AppendData(old(elems), s)
    {
      EnsureDataElem();
      var n := |elems| - 1;
      var blob := elems[n].option;
      elems := elems[n := elems[n].(option := blob.(data := blob.data + Chars(s)))];
      assert [] + Chars(s) == Chars(s);
    }

    method Pad(n: nat)
      modifies this
      ensures elems == PadData(old(elems), n)
    {
      if n != 0 {
        Append(ZeroData(n));
      }
    }

    method SquashPtrImpl(tgt: Target, a: Arg)
      modifies this
      ensures elems == SquashInto(tgt, a, old(elems))
      decreases a, 1
    {
      match a
      case ConstArg(_, _) => Append(SquashConst(tgt, a));
      case ResultArg(_, _, _, _, _, _) => elems := elems + [Piece(SquashResult(a))];
      case PointerArg(typ, _, _, res) =>
        if res.Some? {
          var ptr := SquashPointer(tgt, a, "");
          elems := elems + [Piece(ptr)];
        } else {
          var addr: nat := PhysicalAddr(tgt, a);
          var size := CommonOf(tgt, typ).size;
          var s: seq<byte> := [];
          for i := 0 to size
            modifies {}
            invariant |s| == i && s + LE(addr, size - i) == LE(PhysicalAddr(tgt, a), size)
          {
            s := s + [addr % 256];
            addr := addr / 256;
          }
          assert LE(addr, 0) == [] && s == LE(PhysicalAddr(tgt, a), size);
          Append(s);
        }
      case UnionArg(_, option) =>
        SquashPtrImpl(tgt, option);
        Pad(UnionPad(tgt, a));
      case DataArg(typ, data, _) =>
        if CommonOf(tgt, typ).dir == DirOut {
          Pad(Size(tgt, a));
        } else {
          Append(BytesOf(data));
        }
      case GroupArg(_, inner) =>
        SquashGroup(tgt, inner);
        Pad(GroupPad(tgt, a));
    }

    method SquashGroup(tgt: Target, fields: seq<Arg>)
      modifies this
      ensures elems == SquashFields(tgt, fields, old(elems), 0)
      decreases fields, 0
    {
      hide Or, SquashedField, SquashInto, AppendData, LE;
      var bits: nat := 0;
      for i := 0 to |fields|
        invariant SquashFields(tgt, fields[i..], elems, bits) == SquashFields(tgt, fields, old(elems), 0)
      {
        var f := fields[i];
        assert fields[i..][0] == f && fields[i..][1..] == fields[i + 1..];
        if IsBitfield(f) {
          bits := Or(bits, SquashedField(f));
          if !BitfieldMiddle(f.typ) {
            Append(LE(bits, f.typ.c.size));
            bits := 0;
          }
        } else {
          SquashPtrImpl(tgt, f);
        }
      }
      assert fields[|fields|..] == [];
    }
  }

  /** Squashes what a pointer points to. */
  method SquashPointer(tgt: Target, a: Arg, fld: string) returns (b: Arg)
    requires a.PointerArg? && a.res.Some?
    ensures b == SquashPtr(tgt, a, fld)
    decreases a, 0
  {
    var e := new Elems();
    e.SquashPtrImpl(tgt, a.res.value);
    b := PointerArg(MakeAnyPtrType(tgt, CommonOf(tgt, a.typ).size, fld), a.address, a.vmaSize,
                    Some(GroupArg(ANY_ARRAY, e.elems)));
  }
}
