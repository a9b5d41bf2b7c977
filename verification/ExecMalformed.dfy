/** What the decoder rejects: programs that are cut off anywhere, unknown system calls, and arguments of an unknown
    kind or in the wrong place. More data behind a program never changes how it is decoded. */
module ExecMalformed {
  import opened ProgTypes
  import opened ExecFormat
  import opened ExecRoundTrip

  /** The decoder with more data behind. */
  function More(d: Decoder, y: seq<byte>): Decoder { d.(data := d.data + y) }

  lemma ReadMore(d: Decoder, y: seq<byte>)
    requires !Read(d).1.err
    ensures !d.err && Read(More(d, y)) == (Read(d).0, More(Read(d).1, y))
  {
    assert (d.data + y)[..8] == d.data[..8] && (d.data + y)[8..] == d.data[8..] + y;
  }

  lemma ReadBlobMore(d: Decoder, size: nat, y: seq<byte>)
    requires !ReadBlob(d, size).1.err
    ensures !d.err && ReadBlob(More(d, y), size) == (ReadBlob(d, size).0, More(ReadBlob(d, size).1, y))
  {
    var padded := (size + 7) / 8 * 8;
    assert (d.data + y)[..size] == d.data[..size] && (d.data + y)[padded..] == d.data[padded..] + y;
  }

  lemma {:induction false} ReadChunksMore(d: Decoder, n: nat, y: seq<byte>)
    requires !ReadChunks(d, n).1.err
    ensures !d.err && ReadChunks(More(d, y), n) == (ReadChunks(d, n).0, More(ReadChunks(d, n).1, y))
    decreases n
  {
    hide Read;
    if n > 0 {
      var d1 := Read(d).1;
      var d2 := Read(d1).1;
      var d3 := Read(d2).1;
      ReadChunksMore(d3, n - 1, y);
      ReadMore(d2, y);
      ReadMore(d1, y);
      ReadMore(d, y);
    }
  }

  lemma ReadArgMore(d: Decoder, y: seq<byte>)
    requires !ReadArg(d).1.err
    ensures !d.err && ReadArg(d).0.Some? && ReadArg(More(d, y)) == (ReadArg(d).0, More(ReadArg(d).1, y))
  {
    hide Read, ReadBlob, ReadChunks, Touch;
    var (typ, d1) := Read(d);
    var d2 := Read(d1).1;
    if typ == 0 {
      ReadMore(d2, y);
      ReadMore(d1, y);
    } else if typ == 1 {
      var d3 := Read(d2).1;
      var d4 := Read(d3).1;
      var d5 := Read(d4).1;
      ReadMore(d5, y);
      ReadMore(d4, y);
      ReadMore(d3, y);
      ReadMore(d2, y);
      ReadMore(d1, y);
    } else if typ == 2 {
      ReadBlobMore(d2, Read(d1).0 % READABLE, y);
      ReadMore(d1, y);
    } else {
      var d3 := Read(d2).1;
      var (n, d4) := Read(d3);
      ReadChunksMore(d4, n, y);
      ReadMore(d3, y);
      ReadMore(d2, y);
      ReadMore(d1, y);
    }
    ReadMore(d, y);
  }

  lemma {:induction false} CallArgsMore(d: Decoder, n: nat, y: seq<byte>)
    requires !ReadCallArgs(d, n).0.err
    ensures !d.err && ReadCallArgs(More(d, y), n) == (More(ReadCallArgs(d, n).0, y), ReadCallArgs(d, n).1)
    decreases n
  {
    hide ReadArg;
    if n > 0 {
      var (arg, d1) := ReadArg(d);
      CallArgsMore(d1.(call := d1.call.(args := d1.call.args + [arg.value])), n - 1, y);
      ReadArgMore(d, y);
    }
  }

  lemma CommitMore(d: Decoder, y: seq<byte>)
    ensures Commit(More(d, y)) == More(Commit(d), y) && Commit(d).err == d.err
  {
    hide CallVars;
  }

  lemma StepMore(d: Decoder, n: nat, y: seq<byte>)
    requires !Step(d, n).0.err
    ensures !d.err && Step(More(d, y), n) == (More(Step(d, n).0, y), Step(d, n).1)
  {
    hide Read, ReadArg, ReadCallArgs, Commit;
    var (instr, d1) := Read(d);
    CommitMore(d1, y);
    if instr == INSTR_COPYIN {
      var d2 := Read(Commit(d1)).1;
      ReadArgMore(d2, y);
      ReadMore(Commit(d1), y);
    } else if instr == INSTR_COPYOUT {
      var d2 := Read(d1).1;
      var d3 := Read(d2).1;
      ReadMore(d3, y);
      ReadMore(d2, y);
      ReadMore(d1, y);
    } else if instr != INSTR_EOF {
      var d2 := Commit(d1);
      var (index, d3) := Read(d2.(call := d2.call.(meta := Some(instr))));
      var (count, d4) := Read(d3.(call := d3.call.(index := index)));
      CallArgsMore(d4, count, y);
      ReadMore(d3.(call := d3.call.(index := index)), y);
      ReadMore(d2.(call := d2.call.(meta := Some(instr))), y);
    }
    ReadMore(d, y);
  }

  /** Once decoding has ended without an error, data behind is left unread. */
  lemma {:induction false} ParseMore(d: Decoder, n: nat, y: seq<byte>)
    requires !Parse(d, n).err
    ensures Parse(More(d, y), n) == More(Parse(d, n), y)
    decreases if d.err then 0 else 1, |d.data|
  {
    hide Step;
    var (d1, stop) := Step(d, n);
    if !stop {
      ParseMore(d1, n, y);
    }
    StepMore(d, n, y);
  }

  function Start(data: seq<byte>): Decoder { Decoder(data, false, 0, [], NO_CALL, []) }

  /** A program that is cut off anywhere is rejected. */
  lemma CutOffFails(data: seq<byte>, n: nat, cs: seq<ExecCall>, k: nat)
    requires FitsCalls(cs, n) && Matches(data, EncProg(cs, n)) && k < |EncProg(cs, n)|
    ensures DeserializeExec(data[..k], n) == None
  {
    hide Parse, EncProg, Matches;
    MatchesLength(data, EncProg(cs, n));
    ParseProg(Start(data), n, cs);
    var short, rest := data[..k], data[k..];
    assert short + rest == data;
    if !Parse(Start(short), n).err {
      ParseMore(Start(short), n, rest);
    }
  }

  lemma MatchesLength(data: seq<byte>, p: Pattern)
    requires Matches(data, p)
    ensures |p| <= |data|
  {
  }

  /** What follows a program behind its end is not looked at. */
  lemma BehindTheEnd(data: seq<byte>, n: nat, y: seq<byte>)
    requires DeserializeExec(data, n).Some?
    ensures DeserializeExec(data + y, n) == DeserializeExec(data, n)
  {
    hide Parse;
    ParseMore(Start(data), n, y);
  }

  lemma {:induction false} ParseCalls(d: Decoder, n: nat, cs: seq<ExecCall>, rest: Pattern) returns (d1: Decoder)
    requires FitsCalls(cs, n) && At(d, EncCalls(cs, n) + rest) && (d.call == NO_CALL || d.call.meta.Some?)
    ensures Parse(d, n) == Parse(d1, n) && At(d1, rest)
    decreases cs
  {
    hide Matches, EncCall, Parse, CallVars, CallArgVars;
    if cs == [] {
      assert EncCalls(cs, n) + rest == rest;
      d1 := d;
    } else {
      Assoc(EncCall(cs[0], n), EncCalls(cs[1..], n), rest);
      ParseCall(d, n, cs[0], EncCalls(cs[1..], n) + rest);
      var d0 := Skip(Commit(d), |EncCall(cs[0], n)|).(vars := CallArgVars(d.vars, cs[0]), call := cs[0]);
      d1 := ParseCalls(d0, n, cs[1..], rest);
    }
  }

  /** An unknown instruction behind any calls makes the program rejected, and so does an argument of an unknown kind, an
      unknown kind of checksum, or a blob or a checksum that is passed. */
  lemma UnknownCallFails(data: seq<byte>, n: nat, cs: seq<ExecCall>, x: u64, rest: Pattern)
    requires FitsCalls(cs, n) && n <= x < INSTR_COPYOUT && Matches(data, EncCalls(cs, n) + (Word(x) + rest))
    ensures DeserializeExec(data, n) == None
  {
    hide Matches, EncCalls, Word, Read, Commit;
    var d := ParseCalls(Start(data), n, cs, Word(x) + rest);
    ReadWord(d, x, rest);
  }

  lemma UnknownArgFails(d: Decoder, x: u64, rest: Pattern)
    requires x > 3 && At(d, Word(x) + rest)
    ensures ReadArg(d).0 == None && ReadArg(d).1.err
  {
    hide Matches, Word, Read, ReadChunks, ReadBlob;
    ReadWord(d, x, rest);
  }

  lemma UnknownChecksumFails(d: Decoder, size: u64, kind: u64, rest: Pattern)
    requires kind != 0 && At(d, Word(3) + (Word(size) + (Word(kind) + rest)))
    ensures ReadArg(d).0 == None && ReadArg(d).1.err
  {
    hide Matches, Word, Read, ReadChunks, ReadBlob;
    ReadWord(d, 3, Word(size) + (Word(kind) + rest));
    ReadNext(d, 8, size, Word(kind) + rest);
    ReadNext(d, 16, kind, rest);
  }

  /** A call takes only constants and results. */
  lemma PassedBlobFails(d: Decoder, a: ExecArg, n: nat, rest: Pattern)
    requires n > 0 && FitsArg(a) && (a.Data? || a.Csum?) && At(d, EncArg(a) + rest)
    ensures ReadCallArgs(d, n).0.err
  {
    hide Matches, EncArg, ReadArg;
    BackArg(d, a, rest);
  }
}
