/** The serialiser for the executor: it writes words into a fixed buffer and, once something does not
    fit, only remembers that. */
module ExecWriter {
  import opened ProgTypes
  import opened ExecFormat
  import opened ExecCompile
  import opened ExecIndices

  class ExecContext {
    const buffer: array<byte>
    var pos: nat
    var eof: bool
    var infos: Infos
    var copyoutSeq: nat
    /** Everything written so far, whether or not it fitted. */
    ghost var out: Pattern

    constructor (buffer: array<byte>)
      ensures this.buffer == buffer && Valid() && out == [] && infos == map[] && copyoutSeq == 0
    {
      this.buffer, pos, eof, infos, copyoutSeq, out := buffer, 0, false, map[], 0, [];
    }

    ghost predicate Valid()
      reads this, buffer
    {
      if eof then |out| > buffer.Length && pos <= buffer.Length
      else pos == |out| <= buffer.Length && Matches(buffer[..], out)
    }

    /** The words of the buffer change, the tables do not. */
    twostate predicate Appended(new p: Pattern)
      reads this, buffer
    {
      Valid() && out == old(out) + p && infos == old(infos) && copyoutSeq == old(copyoutSeq)
    }

    /** Writes bytes followed by padding that is left as it is. */
    method Put(bytes: seq<byte>, padding: nat)
      requires Valid()
      modifies this`pos, this`eof, this`out, buffer
      ensures Appended(Exactly(bytes) + seq(padding, _ => None))
    {
      var size := |bytes| + padding;
      ghost var p := Exactly(bytes) + seq(padding, _ => None);
      if buffer.Length - pos < size {
        eof := true;
      } else {
        var start := pos;
        ghost var before := buffer[..];
        for i := 0 to |bytes|
          modifies buffer
          invariant forall j :: 0 <= j < buffer.Length ==> buffer[j] == if start <= j < start + i then bytes[j - start]
            else before[j]
        {
          buffer[start + i] := bytes[i];
        }
        pos := pos + size;
        if !eof {
          MatchesAppend(before, buffer[..], out, p);
        }
      }
      out := out + p;
    }

    method Write(v: u64)
      requires Valid()
      modifies this`pos, this`eof, this`out, buffer
      ensures Appended(Word(v))
    {
      var bytes: seq<byte> := [];
      var rest: nat := v;
      for i := 0 to 8
        invariant |bytes| == i && bytes + LE(rest, 8 - i) == LE(v, 8)
      {
        bytes := bytes + [rest % 256];
        rest := rest / 256;
      }
      assert LE(rest, 0) == [] && bytes == LE(v, 8);
      Put(bytes, 0);
      assert Exactly(bytes) + seq(0, _ => None) == Word(v);
    }

    method WriteConstArg(a: ExecArg)
      requires Valid() && a.Const? && FitsArg(a)
      modifies this`pos, this`eof, this`out, buffer
      ensures Appended(EncArg(a))
    {
      hide Word, Matches;
      Write(0);
      Write(a.size + a.format * 0x100 + a.bfOff * 0x1_0000 + a.bfLen * 0x100_0000 + a.pidStride * 0x1_0000_0000);
      Write(a.value);
      Assoc4(old(out), Word(0), Word(ConstMeta(a)), Word(a.value));
    }

    method WriteResultArg(a: ExecArg)
      requires Valid() && a.Result? && FitsArg(a)
      modifies this`pos, this`eof, this`out, buffer
      ensures Appended(EncArg(a))
    {
      hide Word, Matches;
      Write(1);
      Write(a.size + a.format * 0x100);
      Write(a.index);
      Write(a.divOp);
      Write(a.addOp);
      Write(a.default);
      Assoc4(old(out), Word(1), Word(a.size + a.format * 0x100), Word(a.index));
      Assoc4(old(out) + (Word(1) + (Word(a.size + a.format * 0x100) + Word(a.index))), Word(a.divOp), Word(a.addOp),
             Word(a.default));
      Assoc7(old(out), Word(1), Word(a.size + a.format * 0x100), Word(a.index),
             Word(a.divOp) + (Word(a.addOp) + Word(a.default)));
    }

    method WriteData(a: ExecArg)
      requires Valid() && a.Data? && FitsArg(a)
      modifies this`pos, this`eof, this`out, buffer
      ensures Appended(EncArg(a))
    {
      hide Word, Matches;
      var flags := |a.data|;
      if a.readable {
        flags := flags + READABLE;
      }
      var pad := 8 - |a.data| % 8;
      if pad == 8 {
        pad := 0;
      }
      Write(2);
      Write(flags);
      Put(a.data, pad);
      Assoc4(old(out), Word(2), Word(flags), Blob(a.data));
    }

    method WriteCsum(a: ExecArg)
      requires Valid() && a.Csum? && FitsArg(a)
      modifies this`pos, this`eof, this`out, buffer
      ensures Appended(EncArg(a))
    {
      hide Word, Matches, Exactly;
      Write(3);
      Write(a.size);
      Write(0);
      Assoc4(old(out), Word(3), Word(a.size), Word(0));
      Write(|a.chunks|);
      ghost var start := out;
      for i := 0 to |a.chunks|
        invariant Valid() && infos == old(infos) && copyoutSeq == old(copyoutSeq)
        invariant out + EncChunks(a.chunks[i..]) == start + EncChunks(a.chunks)
      {
        var c := a.chunks[i];
        ghost var before := out;
        Write(c.kind);
        Write(c.value);
        Write(c.size);
        ghost var rest := EncChunks(a.chunks[i + 1..]);
        assert a.chunks[i..][0] == c && a.chunks[i..][1..] == a.chunks[i + 1..];
        Assoc5(before, Word(c.kind), Word(c.value), Word(c.size), rest);
      }
      assert EncChunks(a.chunks[|a.chunks|..]) == [];
      Assoc7(old(out), Word(3), Word(a.size), Word(0), Word(|a.chunks|) + EncChunks(a.chunks));
      Assoc3(old(out) + (Word(3) + (Word(a.size) + Word(0))), Word(|a.chunks|), EncChunks(a.chunks));
    }

    method WriteExecArg(a: ExecArg)
      requires Valid() && FitsArg(a)
      modifies this`pos, this`eof, this`out, buffer
      ensures Appended(EncArg(a))
    {
      hide EncArg;
      match a
      case Const(_, _, _, _, _, _) => WriteConstArg(a);
      case Result(_, _, _, _, _, _) => WriteResultArg(a);
      case Data(_, _) => WriteData(a);
      case Csum(_, _) => WriteCsum(a);
    }

    method WriteArg(tgt: Target, a: Arg)
      requires Valid() && Writable(a) && FitsArg(ArgOf(tgt, KnownIndex(infos, RefOf(a)), a))
      modifies this`pos, this`eof, this`out, buffer
      ensures Appended(EncArg(ArgOf(tgt, KnownIndex(infos, RefOf(a)), a)))
    {
      hide EncArg;
      if a.UnionArg? {
        WriteArg(tgt, a.option);
      } else {
        WriteExecArg(ArgOf(tgt, KnownIndex(infos, RefOf(a)), a));
      }
    }

    method WriteCopyinInstr(c: Copyin)
      requires Valid() && FitsArg(c.arg)
      modifies this`pos, this`eof, this`out, buffer
      ensures Appended(EncCopyin(c))
    {
      hide Word, EncArg, Matches;
      Write(INSTR_COPYIN);
      Write(c.addr);
      WriteExecArg(c.arg);
      Assoc4(old(out), Word(INSTR_COPYIN), Word(c.addr), EncArg(c.arg));
    }

    /** Copies in every visited argument that has a value, and remembers where used results lie. */
    method WriteCopyin(tgt: Target, used: set<nat>, vs: seq<Visit>)
      requires Valid() && WritableVisits(tgt, vs) && FitsCopyins(Copyins(tgt, used, infos, vs).0)
      modifies this, buffer
      ensures Valid() && copyoutSeq == old(copyoutSeq)
      ensures var r := Copyins(tgt, used, old(infos), vs); out == old(out) + EncCopyins(r.0) && infos == r.1
    {
      hide ArgOf, EncCopyin, EmitsCopyin, FitsArg, Matches;
      ghost var all := Copyins(tgt, used, infos, vs);
      for i := 0 to |vs|
        invariant Valid() && copyoutSeq == old(copyoutSeq)
        invariant WritableVisits(tgt, vs[i..]) && FitsCopyins(Copyins(tgt, used, infos, vs[i..]).0)
        invariant Copyins(tgt, used, infos, vs[i..]).1 == all.1
        invariant out + EncCopyins(Copyins(tgt, used, infos, vs[i..]).0) == old(out) + EncCopyins(all.0)
      {
        var v := vs[i];
        assert vs[i..][0] == v && vs[i..][1..] == vs[i + 1..];
        CopyinsHead(tgt, used, infos, vs[i..]);
        infos := Located(used, infos, v);
        if EmitsCopyin(tgt, v) {
          ghost var before := out;
          var c := Copyin(v.addr.value, ArgOf(tgt, KnownIndex(infos, RefOf(v.arg)), v.arg));
          ghost var rest := Copyins(tgt, used, infos, vs[i + 1..]).0;
          EncCopyinsHead(c, rest);
          WriteCopyinInstr(c);
          Assoc3(before, EncCopyin(c), EncCopyins(rest));
        }
      }
      assert vs[|vs|..] == [];
    }

    method WriteCopyins(cs: seq<Copyin>)
      requires Valid() && FitsCopyins(cs)
      modifies this`pos, this`eof, this`out, buffer
      ensures Appended(EncCopyins(cs))
    {
      hide EncCopyin, Matches;
      for i := 0 to |cs|
        invariant Valid() && infos == old(infos) && copyoutSeq == old(copyoutSeq)
        invariant FitsCopyins(cs[i..]) && out + EncCopyins(cs[i..]) == old(out) + EncCopyins(cs)
      {
        ghost var before := out;
        assert cs[i..] == [cs[i]] + cs[i + 1..];
        EncCopyinsHead(cs[i], cs[i + 1..]);
        WriteCopyinInstr(cs[i]);
        Assoc3(before, EncCopyin(cs[i]), EncCopyins(cs[i + 1..]));
      }
      assert cs[|cs|..] == [];
    }

    /** Gives every used result of the visited arguments the next copyout index. */
    method WriteCopyout(tgt: Target, used: set<nat>, vs: seq<Visit>)
      requires Valid()
      modifies this, buffer
      ensures Valid()
      ensures var r := Copyouts(tgt, used, old(infos), old(copyoutSeq), vs);
        out == old(out) + EncCopyouts(r.0) && infos == r.1 && copyoutSeq == r.2
    {
      hide Word, Matches, Size;
      ghost var all := Copyouts(tgt, used, infos, copyoutSeq, vs);
      for i := 0 to |vs|
        invariant Valid()
        invariant var r := Copyouts(tgt, used, infos, copyoutSeq, vs[i..]);
          r.1 == all.1 && r.2 == all.2 && out + EncCopyouts(r.0) == old(out) + EncCopyouts(all.0)
      {
        var a := vs[i].arg;
        assert vs[i..][0] == vs[i] && vs[i..][1..] == vs[i + 1..];
        if Used(used, a) {
          var info := if a.id in infos then infos[a.id] else Info(0, 0, false);
          if !info.ret {
            ghost var before := out;
            var c := Copyout(Wrap64(copyoutSeq), info.addr, Wrap64(Size(tgt, a)));
            infos := infos[a.id := info.(idx := Wrap64(copyoutSeq))];
            copyoutSeq := copyoutSeq + 1;
            ghost var rest := Copyouts(tgt, used, infos, copyoutSeq, vs[i + 1..]).0;
            WriteCopyoutInstr(c);
            EncCopyoutsHead(c, rest);
            Assoc3(before, EncCopyout(c), EncCopyouts(rest));
          }
        }
      }
      assert vs[|vs|..] == [];
    }

    method WriteCopyoutInstr(c: Copyout)
      requires Valid()
      modifies this`pos, this`eof, this`out, buffer
      ensures Appended(EncCopyout(c))
    {
      hide Word, Matches;
      Write(INSTR_COPYOUT);
      Write(c.index);
      Write(c.addr);
      Write(c.size);
      Assoc5(old(out), Word(INSTR_COPYOUT), Word(c.index), Word(c.addr), Word(c.size));
    }

    method WriteArgs(tgt: Target, args: seq<Arg>)
      requires Valid() && (forall i :: 0 <= i < |args| ==> Writable(args[i])) && FitsArgs(CallArgs(tgt, infos, args))
      modifies this`pos, this`eof, this`out, buffer
      ensures Appended(EncArgs(CallArgs(tgt, infos, args)))
    {
      hide ArgOf, EncArg, FitsArg, Matches;
      ghost var es := CallArgs(tgt, infos, args);
      for i := 0 to |args|
        invariant Valid() && infos == old(infos) && copyoutSeq == old(copyoutSeq)
        invariant FitsArgs(es[i..]) && out + EncArgs(es[i..]) == old(out) + EncArgs(es)
      {
        ghost var before := out;
        assert es[i..] == [es[i]] + es[i + 1..];
        EncArgsHead(es[i], es[i + 1..]);
        WriteArg(tgt, args[i]);
        Assoc3(before, EncArg(es[i]), EncArgs(es[i + 1..]));
      }
      assert es[|args|..] == [];
    }

    method SerializeCall(tgt: Target, used: set<nat>, c: Call, csums: seq<Copyin>, ghost n: nat)
      requires Valid() && WritableCall(tgt, c) && FitsCall(CompileCall(tgt, used, infos, copyoutSeq, c, csums).0, n)
      modifies this, buffer
      ensures Valid()
      ensures var r := CompileCall(tgt, used, old(infos), old(copyoutSeq), c, csums);
        out == old(out) + EncCall(r.0, n) && infos == r.1 && copyoutSeq == r.2
    {
      hide Copyins, Copyouts, CallVisits, EncCopyins, EncCopyouts, EncArgs, Word, CallArgs, Matches;
      ghost var call := CompileCall(tgt, used, infos, copyoutSeq, c, csums).0;
      var vs := CallVisits(tgt, c);
      ghost var cins := Copyins(tgt, used, infos, vs).0;
      EncCopyinsSplit(cins, csums);
      WriteCopyin(tgt, used, vs);
      WriteCopyins(csums);
      Write(c.meta);
      if RetUsed(used, c) {
        infos := infos[c.ret.value.id := Info(0, Wrap64(copyoutSeq), true)];
        Write(Wrap64(copyoutSeq));
        copyoutSeq := copyoutSeq + 1;
      } else {
        Write(NO_COPYOUT);
      }
      Write(|c.args|);
      WriteArgs(tgt, c.args);
      WriteCopyout(tgt, used, vs);
      CallLayout(old(out), EncCopyins(cins), EncCopyins(csums), Word(c.meta), Word(call.index), Word(|c.args|),
                 EncArgs(call.args), EncCopyouts(call.copyout));
    }
  }

  /** Serialises a program into the buffer: it succeeds exactly if the whole encoding fits, and then
      the buffer starts with the encoding of the compiled calls. */
  method SerializeForExec(tgt: Target, used: set<nat>, cs: seq<Call>, csums: seq<seq<Copyin>>, buffer: array<byte>)
    returns (size: nat, ok: bool)
    requires |csums| == |cs| && (forall i :: 0 <= i < |cs| ==> WritableCall(tgt, cs[i]))
    requires FitsCalls(Compiled(tgt, used, cs, csums), |tgt.syscalls|)
    modifies buffer
    ensures var all := EncProg(Compiled(tgt, used, cs, csums), |tgt.syscalls|);
      ok == (|all| <= buffer.Length) && (ok ==> size == |all| && Matches(buffer[..size], all))
  {
    hide WritableCall, FitsCall, CompileCall, EncCall, Matches, Word;
    ghost var n := |tgt.syscalls|;
    ghost var calls := Compiled(tgt, used, cs, csums);
    var w := new ExecContext(buffer);
    for i := 0 to |cs|
      invariant w.Valid() && w.buffer == buffer && fresh(w)
      invariant var rest := CompileCalls(tgt, used, w.infos, w.copyoutSeq, cs[i..], csums[i..]);
        FitsCalls(rest, n) && w.out + EncCalls(rest, n) == EncCalls(calls, n)
    {
      ghost var before, first := w.out, CompileCall(tgt, used, w.infos, w.copyoutSeq, cs[i], csums[i]);
      assert cs[i..][0] == cs[i] && cs[i..][1..] == cs[i + 1..] && csums[i..][0] == csums[i]
        && csums[i..][1..] == csums[i + 1..];
      ghost var rest := CompileCalls(tgt, used, first.1, first.2, cs[i + 1..], csums[i + 1..]);
      EncCallsHead(first.0, rest, n);
      w.SerializeCall(tgt, used, cs[i], csums[i], n);
      Assoc3(before, EncCall(first.0, n), EncCalls(rest, n));
    }
    assert cs[|cs|..] == [];
    assert w.out == EncCalls(calls, n);
    w.Write(INSTR_EOF);
    assert w.out == EncProg(calls, n);
    MatchesCut(buffer[..], w.pos, w.out);
    assert buffer[..][..w.pos] == buffer[..w.pos];
    size, ok := w.pos, !w.eof;
  }

  lemma MatchesCut(data: seq<byte>, n: nat, p: Pattern)
    requires n <= |data|
    ensures Matches(data, p) && |p| == n ==> Matches(data[..n], p)
  {
  }

  lemma EncArgsHead(a: ExecArg, rest: seq<ExecArg>)
    requires FitsArgs([a] + rest)
    ensures FitsArg(a) && FitsArgs(rest) && EncArgs([a] + rest) == EncArg(a) + EncArgs(rest)
  {
    var all := [a] + rest;
    assert all[0] == a && all[1..] == rest;
    assert forall i :: 0 <= i < |rest| ==> rest[i] == all[i + 1];
  }

  lemma EncCallsHead(c: ExecCall, rest: seq<ExecCall>, n: nat)
    requires FitsCalls([c] + rest, n)
    ensures FitsCall(c, n) && FitsCalls(rest, n) && EncCalls([c] + rest, n) == EncCall(c, n) + EncCalls(rest, n)
  {
    hide FitsCall, EncCall;
    var all := [c] + rest;
    assert all[0] == c && all[1..] == rest;
    assert forall i :: 0 <= i < |rest| ==> rest[i] == all[i + 1];
  }

  lemma {:induction false} EncCopyinsSplit(a: seq<Copyin>, b: seq<Copyin>)
    requires FitsCopyins(a + b)
    ensures FitsCopyins(a) && FitsCopyins(b) && EncCopyins(a + b) == EncCopyins(a) + EncCopyins(b)
  {
    hide FitsArg, EncCopyin;
    assert forall i :: 0 <= i < |a| ==> a[i] == (a + b)[i];
    assert forall i :: 0 <= i < |b| ==> b[i] == (a + b)[|a| + i];
    if a == [] {
      assert a + b == b && EncCopyins(a) == [];
    } else {
      assert (a + b)[0] == a[0] && (a + b)[1..] == a[1..] + b;
      EncCopyinsSplit(a[1..], b);
      Assoc3(EncCopyin(a[0]), EncCopyins(a[1..]), EncCopyins(b));
    }
  }

  lemma CallLayout(o: Pattern, cins: Pattern, csums: Pattern, meta: Pattern, index: Pattern, count: Pattern,
                   args: Pattern, couts: Pattern)
    ensures o + cins + csums + meta + index + count + args + couts ==
      o + (cins + csums + (meta + (index + (count + (args + couts)))))
  {
  }

  lemma Assoc3(o: Pattern, a: Pattern, b: Pattern)
    ensures o + a + b == o + (a + b)
  {
  }

  lemma Assoc4(o: Pattern, a: Pattern, b: Pattern, c: Pattern)
    ensures o + a + b + c == o + (a + (b + c))
  {
  }

  lemma Assoc5(o: Pattern, a: Pattern, b: Pattern, c: Pattern, d: Pattern)
    ensures o + a + b + c + d == o + (a + (b + (c + d)))
  {
  }

  lemma Assoc7(o: Pattern, a: Pattern, b: Pattern, c: Pattern, d: Pattern)
    ensures o + (a + (b + c)) + d == o + (a + (b + (c + d)))
  {
  }

  lemma EncCopyinsHead(c: Copyin, rest: seq<Copyin>)
    requires FitsCopyins([c] + rest)
    ensures FitsArg(c.arg) && FitsCopyins(rest) && EncCopyins([c] + rest) == EncCopyin(c) + EncCopyins(rest)
  {
    var all := [c] + rest;
    assert all[0] == c && all[1..] == rest;
    assert forall i :: 0 <= i < |rest| ==> rest[i] == all[i + 1];
  }

  lemma EncCopyoutsHead(c: Copyout, rest: seq<Copyout>)
    ensures EncCopyouts([c] + rest) == EncCopyout(c) + EncCopyouts(rest)
  {
    assert ([c] + rest)[1..] == rest;
  }

  lemma CopyinsHead(tgt: Target, used: set<nat>, infos: Infos, vs: seq<Visit>)
    requires vs != [] && WritableVisits(tgt, vs)
    ensures WritableVisits(tgt, vs[1..]) && (EmitsCopyin(tgt, vs[0]) ==> vs[0].addr.Some? && Writable(vs[0].arg))
    ensures var infos0 := Located(used, infos, vs[0]);
      var all, rest := Copyins(tgt, used, infos, vs), Copyins(tgt, used, infos0, vs[1..]);
      all.1 == rest.1 && all.0 == if EmitsCopyin(tgt, vs[0])
        then [Copyin(vs[0].addr.value, ArgOf(tgt, KnownIndex(infos0, RefOf(vs[0].arg)), vs[0].arg))] + rest.0
          else rest.0
  {
    hide ArgOf;
  }

  lemma MatchesAppend(before: seq<byte>, after: seq<byte>, out: Pattern, p: Pattern)
    requires |before| == |after| && Matches(before, out) && |out| + |p| <= |after|
    requires after[..|out|] == before[..|out|]
    requires forall i :: 0 <= i < |p| && p[i].Some? ==> after[|out| + i] == p[i].value
    ensures Matches(after, out + p)
  {
    forall i | 0 <= i < |out + p| && (out + p)[i].Some?
      ensures after[i] == (out + p)[i].value
    {
      if i < |out| {
        assert after[i] == after[..|out|][i] == before[..|out|][i];
      } else {
        assert (out + p)[i] == p[i - |out|];
      }
    }
  }
}
