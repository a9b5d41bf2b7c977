/** The serializer as it runs: text is appended to a buffer and names are given to results on the way.
    Every method writes what the printing functions say. */
module Serializer {
  import opened ProgTypes
  import opened Numbers
  import opened DataText
  import opened Validation
  import opened Printer

  class Writer {
    const tgt: Target
    /** The results that others refer to. */
    const used: set<nat>
    var buf: string
    var vars: map<nat, nat>
    var varSeq: nat

    constructor (tgt: Target, used: set<nat>)
      ensures this.tgt == tgt && this.used == used && buf == "" && Names() == Vars(map[], 0)
    {
      this.tgt, this.used, buf, vars, varSeq := tgt, used, "", map[], 0;
    }

    function Names(): Vars
      reads this
    {
      Vars(vars, varSeq)
    }

    method Put(s: string)
      modifies this`buf
      ensures buf == old(buf) + s
    {
      buf := buf + s;
    }

    method AllocVar(id: nat) returns (n: nat)
      modifies this`vars, this`varSeq
      ensures n == old(varSeq) && Names() == Alloc(old(Names()), id)
    {
      n := varSeq;
      varSeq := varSeq + 1;
      vars := vars[id := n];
    }

    method PutArg(a: Arg)
      modifies this`buf, this`vars, this`varSeq
      ensures var (s, vs) := PrintArg(tgt, used, a, old(Names())); buf == old(buf) + s && Names() == vs
      decreases a, 0
    {
      hide Hex, Dec, IsDefault, PrintData, PrintInner, PrintResult, PrintAddr;
      match a
      case ConstArg(_, val) => Put(Hex(val));
      case PointerArg(_, _, _, _) => PutPointer(a);
      case DataArg(typ, _, _) =>
        if typ.BufferT? {
          PutData(a);
        }
      case GroupArg(typ, inner) => PutGroup(a);
      case UnionArg(_, option) =>
        ghost var names := Names();
        Put("@" + FieldName(option.typ));
        if !IsDefault(tgt, used, option) {
          Put("=");
          PutArg(option);
          Cat3(old(buf), "@" + FieldName(option.typ), "=", PrintArg(tgt, used, option, names).0);
        }
      case ResultArg(_, id, ref, opDiv, opAdd, val) =>
        if id in used {
          var n := AllocVar(id);
          Put("<" + VarName(n) + "=>");
          Cat2(old(buf), "<" + VarName(n) + "=>", PrintResult(a, Names()));
        } else {
          Cat2(old(buf), "", PrintResult(a, Names()));
        }
        Put(PrintResult(a, Names()));
    }

    method PutPointer(a: Arg)
      requires a.PointerArg?
      modifies this`buf, this`vars, this`varSeq
      ensures var (s, vs) := PrintArg(tgt, used, a, old(Names())); buf == old(buf) + s && Names() == vs
      decreases a, -1
    {
      hide Hex, Dec, IsDefault, PrintAddr;
      if IsSpecial(a) {
        Put(Hex(a.address));
        return;
      }
      ghost var names, head := Names(), "&" + PrintAddr(a);
      Put("&" + PrintAddr(a));
      if a.res.Some? && IsDefault(tgt, used, a.res.value) && !IsAnyPtr(a.typ) {
        return;
      }
      Put("=");
      if IsAnyPtr(a.typ) {
        Put("ANY=");
      }
      ghost var any, s := if IsAnyPtr(a.typ) then "ANY=" else "",
        if a.res.None? then "nil" else PrintArg(tgt, used, a.res.value, names).0;
      Cat4(old(buf), head, "=", any, s);
      if a.res.None? {
        Put("nil");
      } else {
        PutArg(a.res.value);
      }
    }

    method PutData(a: Arg)
      requires a.DataArg? && a.typ.BufferT?
      modifies this`buf
      ensures buf == old(buf) + PrintData(a)
    {
      hide Dec, DataLiteral;
      if a.typ.c.dir == DirOut {
        Put("\"\"/" + Dec(DataSize(a)));
        return;
      }
      var data := a.data;
      while |data| >= 2 && data[|data| - 1] == ZERO_BYTE && data[|data| - 2] == ZERO_BYTE
        invariant StripZeros(data) == StripZeros(a.data)
        decreases |data|
      {
        data := data[..|data| - 1];
      }
      if a.typ.c.varlen && |data| + 8 >= |a.data| {
        data := a.data;
      }
      Cat2(buf, DataLiteral(data, IsReadableType(a.typ)),
           if a.typ.c.varlen && |a.data| != |data| then "/" + Dec(|a.data|) else "");
      Put(DataLiteral(data, IsReadableType(a.typ)));
      if a.typ.c.varlen && |a.data| != |data| {
        Put("/" + Dec(|a.data|));
      }
    }

    /** Trailing defaults are dropped from structs and from arrays of fixed length. */
    method PutGroup(a: Arg)
      requires a.GroupArg?
      modifies this`buf, this`vars, this`varSeq
      ensures var (s, vs) := PrintArg(tgt, used, a, old(Names())); buf == old(buf) + s && Names() == vs
      decreases a, -1
    {
      hide IsDefault, PrintInner;
      ghost var names := Names();
      Put(if a.typ.StructT? then "{" else "[");
      var n := LastShown(a.inner, FixedInner(a.typ));
      assert a.inner[..n] == Shown(tgt, used, a);
      PutInner(a.inner[..n]);
      Put(if a.typ.StructT? then "}" else "]");
      ghost var s := PrintInner(tgt, used, a.inner[..n], names).0;
      Cat3(old(buf), "{", s, "}");
      Cat3(old(buf), "[", s, "]");
    }

    /** How many members are printed. */
    method LastShown(args: seq<Arg>, fixed: bool) returns (n: nat)
      ensures n == if fixed then Cut(tgt, used, args) else |args|
    {
      n := |args|;
      if fixed {
        assert args[..n] == args;
        while n > 0 && IsDefault(tgt, used, args[n - 1])
          invariant n <= |args| && Cut(tgt, used, args[..n]) == Cut(tgt, used, args)
        {
          assert args[..n][..n - 1] == args[..n - 1];
          n := n - 1;
        }
      }
    }

    /** The members of a group or the arguments of a call: padding is skipped, and whatever is not the
        very first is preceded by a comma. */
    method PutInner(args: seq<Arg>)
      modifies this`buf, this`vars, this`varSeq
      ensures var (s, vs) := PrintInner(tgt, used, args, old(Names())); buf == old(buf) + s && Names() == vs
      decreases args, 2
    {
      hide PrintArg;
      for i := 0 to |args|
        invariant var (s, vs) := if i == 0 then PrintInner(tgt, used, args, Names())
          else PrintTail(tgt, used, args[i..], Names());
          (buf + s, vs) == (old(buf) + PrintInner(tgt, used, args, old(Names())).0,
                            PrintInner(tgt, used, args, old(Names())).1)
      {
        assert args[i..][0] == args[i] && args[i..][1..] == args[i + 1..];
        ghost var before, names := buf, Names();
        if !IsPad(args[i].typ) {
          if i != 0 {
            Put(", ");
          }
          PutArg(args[i]);
        }
        ghost var s := PrintTail(tgt, used, args[i + 1..], Names()).0;
        ghost var t := PrintArg(tgt, used, args[i], names).0;
        assert before + (t + s) == before + t + s && before + (", " + t + s) == before + ", " + t + s;
      }
      assert args[|args|..] == [] && buf + "" == buf;
    }

    method PutCall(c: Call)
      modifies this`buf, this`vars, this`varSeq
      ensures var (s, vs) := PrintCall(tgt, used, c, old(Names())); buf == old(buf) + s && Names() == vs
    {
      hide Dec, PrintInner;
      ghost var ret := if RetUsed(used, c) then VarName(varSeq) + " = " else "";
      if RetUsed(used, c) {
        var n := AllocVar(c.ret.value.id);
        Put(VarName(n) + " = ");
      }
      ghost var names, name := Names(), if c.meta < |tgt.syscalls| then tgt.syscalls[c.meta].name else "";
      Cat5(old(buf), ret, name, "(", PrintInner(tgt, used, c.args, names).0, ")");
      Put(if c.meta < |tgt.syscalls| then tgt.syscalls[c.meta].name else "");
      Put("(");
      PutInner(c.args);
      Put(")");
    }
  }

  lemma Cat2(o: string, a: string, b: string)
    ensures o + a + b == o + (a + b) && o + "" == o
  {
  }

  lemma Cat3(o: string, a: string, b: string, c: string)
    ensures o + a + b + c == o + (a + b + c)
  {
  }

  lemma Cat4(o: string, a: string, b: string, c: string, d: string)
    ensures o + a + b + c + d == o + (a + b + c + d) && o + a + b + "" == o + a + b
  {
  }

  lemma Cat5(o: string, a: string, b: string, c: string, d: string, e: string)
    ensures o + a + b + c + d + e == o + (a + b + c + d + e) && o + "" == o
  {
  }

  /** The text of a program. */
  method SerializeProg(tgt: Target, p: Prog) returns (text: string)
    ensures text == Serialize(tgt, p)
  {
    hide PrintCall;
    var w := new Writer(tgt, RefsCalls(p.calls));
    for i := 0 to |p.calls|
      invariant fresh(w) && w.tgt == tgt && w.used == RefsCalls(p.calls)
      invariant w.buf + JoinLines(PrintLines(tgt, w.used, p.calls[i..], w.Names())) == Serialize(tgt, p)
    {
      assert p.calls[i..][0] == p.calls[i] && p.calls[i..][1..] == p.calls[i + 1..];
      ghost var before, names := w.buf, w.Names();
      w.PutCall(p.calls[i]);
      w.Put("\n");
      ghost var line, rest := PrintCall(tgt, w.used, p.calls[i], names).0,
        PrintLines(tgt, w.used, p.calls[i + 1..], w.Names());
      assert ([line] + rest)[1..] == rest;
      assert before + (line + "\n" + JoinLines(rest)) == before + line + "\n" + JoinLines(rest);
    }
    assert p.calls[|p.calls|..] == [] && w.buf + "" == w.buf;
    text := w.buf;
  }
}
