/** The decoder of the executor format as it runs: it consumes its data and accumulates calls in
    place. Every method does what the state transformer of the format says. */
module ExecReader {
  import opened ProgTypes
  import opened ExecFormat

  class ExecDecoder {
    var data: seq<byte>
    var err: bool
    var numVars: u64
    var vars: seq<u64>
    var call: ExecCall
    var calls: seq<ExecCall>

    constructor (data: seq<byte>)
      ensures State() == Decoder(data, false, 0, [], NO_CALL, [])
    {
      this.data, err, numVars, vars, call, calls := data, false, 0, [], NO_CALL, [];
    }

    ghost function State(): Decoder
      reads this
    {
      Decoder(data, err, numVars, vars, call, calls)
    }

    method Read() returns (v: u64)
      modifies this
      ensures (v, State()) == ExecFormat.Read(old(State()))
    {
      if |data| < 8 {
        err := true;
      }
      if err {
        return 0;
      }
      var sum, scale: nat := 0, 1;
      ghost var first := data[..8];
      for i := 0 to 8
        modifies {}
        invariant scale == Pow256(i) && sum + scale * FromLE(first[i..]) == FromLE(first)
      {
        assert first[i..][0] == data[i] && first[i..][1..] == first[i + 1..];
        PowNext(i, FromLE(first[i + 1..]), data[i]);
        sum := sum + scale * data[i];
        scale := scale * 256;
      }
      assert first[8..] == [];
      WordRange();
      v := sum;
      data := data[8..];
    }

    method ReadBlob(size: nat) returns (blob: seq<byte>)
      modifies this
      ensures (blob, State()) == ExecFormat.ReadBlob(old(State()), size)
    {
      var padded := (size + 7) / 8 * 8;
      if |data| < padded {
        err := true;
      }
      if err {
        return [];
      }
      blob := data[..size];
      data := data[padded..];
    }

    method SetVar(index: u64, default: u64)
      modifies this`vars
      ensures vars == Touch(old(vars), index, default)
    {
      while |vars| <= index
        invariant |vars| >= |old(vars)| && vars == old(vars) + seq(|vars| - |old(vars)|, _ => 0)
        invariant |vars| == |old(vars)| || |vars| <= index + 1
      {
        vars := vars + [0];
      }
      vars := vars[index := default];
    }

    method ReadChunks(n: nat) returns (chunks: seq<Chunk>)
      modifies this
      ensures (chunks, State()) == ExecFormat.ReadChunks(old(State()), n)
      decreases n
    {
      hide ExecFormat.Read;
      chunks := [];
      ghost var start := State();
      assert [] + ExecFormat.ReadChunks(start, n).0 == ExecFormat.ReadChunks(start, n).0;
      for i := 0 to n
        invariant var rest := ExecFormat.ReadChunks(State(), n - i); var all := ExecFormat.ReadChunks(start, n);
          chunks + rest.0 == all.0 && rest.1 == all.1
      {
        ghost var before, rest0 := chunks, ExecFormat.ReadChunks(State(), n - i);
        var kind := Read();
        var value := Read();
        var size := Read();
        chunks := chunks + [Chunk(kind, value, size)];
        ghost var rest := ExecFormat.ReadChunks(State(), n - i - 1);
        assert rest0 == ([Chunk(kind, value, size)] + rest.0, rest.1);
        assert before + ([Chunk(kind, value, size)] + rest.0) == chunks + rest.0;
      }
      assert chunks + [] == chunks;
    }

    method ReadArg() returns (arg: Option<ExecArg>)
      modifies this
      ensures (arg, State()) == ExecFormat.ReadArg(old(State()))
    {
      hide ExecFormat.Read, ExecFormat.ReadChunks, ExecFormat.ReadBlob, Touch;
      var typ := Read();
      if typ == 0 {
        var meta := Read();
        var value := Read();
        return Some(Const(meta % 0x100, meta / 0x100 % 0x100, value, meta / 0x1_0000 % 0x100, meta / 0x100_0000 % 0x100,
                          meta / 0x1_0000_0000));
      } else if typ == 1 {
        var meta := Read();
        var index := Read();
        var divOp := Read();
        var addOp := Read();
        var default := Read();
        SetVar(index, default);
        return Some(Result(meta % 0x100, meta / 0x100 % 0x100, index, divOp, addOp, default));
      } else if typ == 2 {
        var flags := Read();
        var blob := ReadBlob(flags % READABLE);
        return Some(Data(blob, flags >= READABLE));
      } else if typ == 3 {
        var size := Read();
        var kind := Read();
        if kind == 0 {
          var n := Read();
          var chunks := ReadChunks(n);
          return Some(Csum(size, chunks));
        }
      }
      err := true;
      return None;
    }

    method CommitCall()
      modifies this
      ensures State() == Commit(old(State()))
    {
      if call.meta.None? {
        return;
      }
      if call.index != NO_COPYOUT && numVars < call.index + 1 {
        numVars := call.index + 1;
      }
      ghost var total, held := CallVars(old(numVars), call), call;
      for i := 0 to |call.copyout|
        modifies this`numVars
        invariant call == held && CopyoutVars(numVars, call.copyout[i..]) == total
      {
        assert call.copyout[i..][0] == call.copyout[i] && call.copyout[i..][1..] == call.copyout[i + 1..];
        if numVars < Wrap64(call.copyout[i].index + 1) {
          numVars := Wrap64(call.copyout[i].index + 1);
        }
      }
      assert call.copyout[|call.copyout|..] == [];
      calls := calls + [call];
      call := NO_CALL;
    }

    method ReadCallArgs(n: nat) returns (stop: bool)
      modifies this
      ensures (State(), stop) == ExecFormat.ReadCallArgs(old(State()), n)
      decreases n
    {
      hide ExecFormat.ReadArg;
      ghost var start := State();
      for i := 0 to n
        invariant ExecFormat.ReadCallArgs(State(), n - i) == ExecFormat.ReadCallArgs(start, n)
      {
        var arg := ReadArg();
        if arg.None? || !(arg.value.Const? || arg.value.Result?) {
          err := true;
          return true;
        }
        call := call.(args := call.args + [arg.value]);
      }
      return false;
    }

    /** One instruction. */
    method Step(n: nat) returns (stop: bool)
      modifies this
      ensures (State(), stop) == ExecFormat.Step(old(State()), n)
    {
      hide ExecFormat.Read, ExecFormat.ReadArg, ExecFormat.ReadCallArgs, Commit;
      var instr := Read();
      if instr == INSTR_COPYIN {
        CommitCall();
        var addr := Read();
        var arg := ReadArg();
        if arg.Some? {
          call := call.(copyin := call.copyin + [Copyin(addr, arg.value)]);
        } else {
          err := true;
        }
        return false;
      } else if instr == INSTR_COPYOUT {
        var index := Read();
        var addr := Read();
        var size := Read();
        call := call.(copyout := call.copyout + [Copyout(index, addr, size)]);
        return false;
      } else if instr == INSTR_EOF {
        CommitCall();
        return true;
      }
      CommitCall();
      if instr >= n {
        err := true;
        return true;
      }
      call := call.(meta := Some(instr));
      var index := Read();
      call := call.(index := index);
      var count := Read();
      stop := ReadCallArgs(count);
    }

    method Parse(n: nat)
      modifies this
      ensures State() == ExecFormat.Parse(old(State()), n)
    {
      hide ExecFormat.Step;
      ghost var start := State();
      while !err
        invariant ExecFormat.Parse(State(), n) == ExecFormat.Parse(start, n)
        decreases if err then 0 else 1, |data|
      {
        StepProgress(State(), n);
        var stop := Step(n);
        if stop {
          return;
        }
      }
    }
  }

  lemma StepProgress(d: Decoder, n: nat)
    ensures var r := ExecFormat.Step(d, n); r.1 || r.0.err || |r.0.data| < |d.data|
  {
  }

  lemma PowNext(i: nat, rest: nat, b: nat)
    ensures Pow256(i) * (b + 256 * rest) == Pow256(i) * b + (Pow256(i) * 256) * rest && Pow256(i + 1) == Pow256(i) * 256
  {
    var p := Pow256(i);
    assert p * (256 * rest) == (p * 256) * rest;
    assert p * (b + 256 * rest) == p * b + p * (256 * rest);
  }

  method Deserialize(data: seq<byte>, n: nat) returns (r: Option<(seq<ExecCall>, seq<u64>)>)
    ensures r == DeserializeExec(data, n)
  {
    var dec := new ExecDecoder(data);
    dec.Parse(n);
    if dec.err || |dec.vars| != dec.numVars {
      return None;
    }
    return Some((dec.calls, dec.vars));
  }
}
