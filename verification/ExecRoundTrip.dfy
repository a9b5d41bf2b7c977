/** Decoding is the inverse of encoding: from any buffer that starts with the encoding of a list of
    calls the decoder recovers exactly these calls. */
module ExecRoundTrip {
  import opened ProgTypes
  import opened ExecFormat

  /** The decoder is about to read something that starts with p. */
  ghost predicate At(d: Decoder, p: Pattern) { !d.err && Matches(d.data, p) }

  function Skip(d: Decoder, k: nat): Decoder
    requires k <= |d.data|
  {
    d.(data := d.data[k..])
  }

  lemma SkipSkip(d: Decoder, j: nat, k: nat)
    requires j + k <= |d.data|
    ensures Skip(Skip(d, j), k) == Skip(d, j + k)
  {
    assert d.data[j..][k..] == d.data[j + k..];
  }

  lemma Assoc(a: Pattern, b: Pattern, c: Pattern)
    ensures a + b + c == a + (b + c)
  {
  }

  lemma ReadWord(d: Decoder, v: u64, rest: Pattern)
    requires At(d, Word(v) + rest)
    ensures |d.data| >= 8 && Read(d) == (v, Skip(d, 8)) && At(Skip(d, 8), rest)
  {
    MatchesSplit(d.data, Word(v), rest);
    MatchesExactly(d.data, LE(v, 8));
    WordRoundTrip(v);
  }

  /** Reading word v, k bytes on. */
  lemma ReadNext(d: Decoder, k: nat, v: u64, rest: Pattern)
    requires k <= |d.data| && At(Skip(d, k), Word(v) + rest)
    ensures k + 8 <= |d.data| && Read(Skip(d, k)) == (v, Skip(d, k + 8)) && At(Skip(d, k + 8), rest)
  {
    ReadWord(Skip(d, k), v, rest);
    SkipSkip(d, k, 8);
  }

  /** The variables after an argument has been read. */
  function ArgVars(vars: seq<u64>, a: ExecArg): seq<u64> {
    if a.Result? then Touch(vars, a.index, a.default) else vars
  }

  lemma BackConst(d: Decoder, a: ExecArg, rest: Pattern)
    requires a.Const? && FitsArg(a) && At(d, EncArg(a) + rest)
    ensures |d.data| >= 24 && ReadArg(d) == (Some(a), Skip(d, 24)) && At(Skip(d, 24), rest)
  {
    hide Read, Word, Matches;
    var meta := ConstMeta(a);
    Assoc(Word(0), Word(meta) + Word(a.value), rest);
    Assoc(Word(meta), Word(a.value), rest);
    ReadWord(d, 0, Word(meta) + (Word(a.value) + rest));
    ReadNext(d, 8, meta, Word(a.value) + rest);
    ReadNext(d, 16, a.value, rest);
    MetaFields(a);
  }

  lemma MetaFields(a: ExecArg)
    requires a.Const? && FitsArg(a)
    ensures var m := ConstMeta(a);
      m % 0x100 == a.size && m / 0x100 % 0x100 == a.format && m / 0x1_0000 % 0x100 == a.bfOff &&
      m / 0x100_0000 % 0x100 == a.bfLen && m / 0x1_0000_0000 == a.pidStride
  {
    var m := ConstMeta(a);
    var m4 := a.pidStride;
    var m3 := a.bfLen + 0x100 * m4;
    var m2 := a.bfOff + 0x100 * m3;
    var m1 := a.format + 0x100 * m2;
    assert m == a.size + 0x100 * m1;
    assert m / 0x100 == m1 && m1 / 0x100 == m2 && m2 / 0x100 == m3 && m3 / 0x100 == m4;
  }

  lemma BackResult(d: Decoder, a: ExecArg, rest: Pattern)
    requires a.Result? && FitsArg(a) && At(d, EncArg(a) + rest)
    ensures |d.data| >= 48 && ReadArg(d) == (Some(a), Skip(d, 48).(vars := Touch(d.vars, a.index, a.default)))
      && At(Skip(d, 48), rest)
  {
    hide Read, Word, Matches, Touch;
    var meta := a.size + a.format * 0x100;
    var w5 := Word(a.default);
    var w4 := Word(a.addOp) + w5;
    var w3 := Word(a.divOp) + w4;
    var w2 := Word(a.index) + w3;
    Assoc(Word(1), Word(meta) + w2, rest);
    Assoc(Word(meta), w2, rest);
    Assoc(Word(a.index), w3, rest);
    Assoc(Word(a.divOp), w4, rest);
    Assoc(Word(a.addOp), w5, rest);
    ReadWord(d, 1, Word(meta) + (w2 + rest));
    ReadNext(d, 8, meta, w2 + rest);
    ReadNext(d, 16, a.index, w3 + rest);
    ReadNext(d, 24, a.divOp, w4 + rest);
    ReadNext(d, 32, a.addOp, w5 + rest);
    ReadNext(d, 40, a.default, rest);
  }

  lemma BackBlob(d: Decoder, s: seq<byte>, rest: Pattern)
    requires At(d, Blob(s) + rest)
    ensures |Blob(s)| <= |d.data| && ReadBlob(d, |s|) == (s, Skip(d, |Blob(s)|)) && At(Skip(d, |Blob(s)|), rest)
  {
    MatchesSplit(d.data, Blob(s), rest);
    MatchesSplit(d.data, Exactly(s), seq(Padding(|s|), _ => None));
    MatchesExactly(d.data, s);
  }

  lemma BackData(d: Decoder, a: ExecArg, rest: Pattern)
    requires a.Data? && FitsArg(a) && At(d, EncArg(a) + rest)
    ensures var k := |EncArg(a)|; k <= |d.data| && ReadArg(d) == (Some(a), Skip(d, k)) && At(Skip(d, k), rest)
  {
    hide Read, Word, Matches, ReadBlob, Blob;
    var flags := |a.data| + if a.readable then READABLE else 0;
    var blob := Blob(a.data);
    Assoc(Word(2), Word(flags) + blob, rest);
    Assoc(Word(flags), blob, rest);
    ReadWord(d, 2, Word(flags) + (blob + rest));
    ReadNext(d, 8, flags, blob + rest);
    BackBlob(Skip(d, 16), a.data, rest);
    SkipSkip(d, 16, |blob|);
    assert flags % READABLE == |a.data|;
  }

  lemma {:induction false} BackChunks(d: Decoder, chunks: seq<Chunk>, rest: Pattern)
    requires At(d, EncChunks(chunks) + rest)
    ensures var k := |EncChunks(chunks)|;
      k <= |d.data| && ReadChunks(d, |chunks|) == (chunks, Skip(d, k)) && At(Skip(d, k), rest)
    decreases chunks
  {
    hide Read, Word, Matches;
    if chunks == [] {
      assert EncChunks(chunks) + rest == rest && d.data[0..] == d.data;
    } else {
      var c, tail := chunks[0], EncChunks(chunks[1..]);
      var w2 := Word(c.size) + tail;
      var w1 := Word(c.value) + w2;
      Assoc(Word(c.kind), w1, rest);
      Assoc(Word(c.value), w2, rest);
      Assoc(Word(c.size), tail, rest);
      ReadWord(d, c.kind, w1 + rest);
      ReadNext(d, 8, c.value, w2 + rest);
      ReadNext(d, 16, c.size, tail + rest);
      BackChunks(Skip(d, 24), chunks[1..], rest);
      SkipSkip(d, 24, |tail|);
      assert c == Chunk(c.kind, c.value, c.size) && [c] + chunks[1..] == chunks;
    }
  }

  lemma BackCsum(d: Decoder, a: ExecArg, rest: Pattern)
    requires a.Csum? && FitsArg(a) && At(d, EncArg(a) + rest)
    ensures var k := |EncArg(a)|; k <= |d.data| && ReadArg(d) == (Some(a), Skip(d, k)) && At(Skip(d, k), rest)
  {
    hide Read, Word, Matches, ReadChunks, EncChunks;
    var w4 := EncChunks(a.chunks);
    var w3 := Word(|a.chunks|) + w4;
    var w2 := Word(0) + w3;
    Assoc(Word(3), Word(a.size) + w2, rest);
    Assoc(Word(a.size), w2, rest);
    Assoc(Word(0), w3, rest);
    Assoc(Word(|a.chunks|), w4, rest);
    ReadWord(d, 3, Word(a.size) + (w2 + rest));
    ReadNext(d, 8, a.size, w2 + rest);
    ReadNext(d, 16, 0, w3 + rest);
    ReadNext(d, 24, |a.chunks|, w4 + rest);
    BackChunks(Skip(d, 32), a.chunks, rest);
    SkipSkip(d, 32, |w4|);
  }

  function AfterArg(d: Decoder, a: ExecArg): Decoder
    requires FitsArg(a) && |EncArg(a)| <= |d.data|
  {
    Skip(d, |EncArg(a)|).(vars := ArgVars(d.vars, a))
  }

  /** Every argument is read back. */
  lemma BackArg(d: Decoder, a: ExecArg, rest: Pattern)
    requires FitsArg(a) && At(d, EncArg(a) + rest)
    ensures |EncArg(a)| <= |d.data| && ReadArg(d) == (Some(a), AfterArg(d, a)) && At(AfterArg(d, a), rest)
  {
    hide Read, Word, Matches, ReadArg, Touch, Blob, EncChunks;
    match a
    case Const(_, _, _, _, _, _) => BackConst(d, a, rest);
    case Result(_, _, _, _, _, _) => BackResult(d, a, rest);
    case Data(_, _) => BackData(d, a, rest);
    case Csum(_, _) => BackCsum(d, a, rest);
  }

  // ---- instructions ----

  function ArgsVars(vars: seq<u64>, args: seq<ExecArg>): seq<u64>
    decreases args
  {
    if args == [] then vars else ArgsVars(ArgVars(vars, args[0]), args[1..])
  }

  lemma {:induction false} BackArgs(d: Decoder, args: seq<ExecArg>, rest: Pattern)
    requires FitsArgs(args) && At(d, EncArgs(args) + rest)
    requires forall i :: 0 <= i < |args| ==> args[i].Const? || args[i].Result?
    ensures var k := |EncArgs(args)|;
      && k <= |d.data|
      && var d1 := Skip(d, k).(vars := ArgsVars(d.vars, args), call := d.call.(args := d.call.args + args));
        ReadCallArgs(d, |args|) == (d1, false) && At(d1, rest)
    decreases args
  {
    hide ReadArg, EncArg, Matches, ArgVars;
    if args == [] {
      assert EncArgs(args) + rest == rest && d.data[0..] == d.data;
      assert d.call.args + [] == d.call.args;
    } else {
      Assoc(EncArg(args[0]), EncArgs(args[1..]), rest);
      BackArg(d, args[0], EncArgs(args[1..]) + rest);
      var d1 := AfterArg(d, args[0]);
      var d2 := d1.(call := d1.call.(args := d1.call.args + [args[0]]));
      BackArgs(d2, args[1..], rest);
      SkipSkip(d, |EncArg(args[0])|, |EncArgs(args[1..])|);
      assert d.call.args + [args[0]] + args[1..] == d.call.args + args;
    }
  }

  lemma StepCopyin(d: Decoder, n: nat, c: Copyin, rest: Pattern)
    requires FitsArg(c.arg) && At(d, EncCopyin(c) + rest)
    ensures var k := |EncCopyin(c)|;
      && k <= |d.data|
      && var d0 := Commit(d);
        var d1 := Skip(d0, k).(vars := ArgVars(d.vars, c.arg), call := d0.call.(copyin := d0.call.copyin + [c]));
        Step(d, n) == (d1, false) && At(d1, rest)
  {
    hide Read, ReadArg, Word, EncArg, Matches, ArgVars, CallVars;
    Assoc(Word(INSTR_COPYIN), Word(c.addr) + EncArg(c.arg), rest);
    Assoc(Word(c.addr), EncArg(c.arg), rest);
    ReadWord(d, INSTR_COPYIN, Word(c.addr) + (EncArg(c.arg) + rest));
    var d0 := Commit(d);
    assert Commit(Skip(d, 8)) == Skip(d0, 8);
    ReadNext(d0, 8, c.addr, EncArg(c.arg) + rest);
    BackArg(Skip(d0, 16), c.arg, rest);
    SkipSkip(d0, 16, |EncArg(c.arg)|);
  }

  lemma StepCopyout(d: Decoder, n: nat, c: Copyout, rest: Pattern)
    requires At(d, EncCopyout(c) + rest)
    ensures |d.data| >= 32 && |EncCopyout(c)| == 32
    ensures var d1 := Skip(d, 32).(call := d.call.(copyout := d.call.copyout + [c]));
      Step(d, n) == (d1, false) && At(d1, rest)
  {
    hide Read, Word, Matches;
    var w3 := Word(c.size);
    var w2 := Word(c.addr) + w3;
    var w1 := Word(c.index) + w2;
    Assoc(Word(INSTR_COPYOUT), w1, rest);
    Assoc(Word(c.index), w2, rest);
    Assoc(Word(c.addr), w3, rest);
    ReadWord(d, INSTR_COPYOUT, w1 + rest);
    ReadNext(d, 8, c.index, w2 + rest);
    ReadNext(d, 16, c.addr, w3 + rest);
    ReadNext(d, 24, c.size, rest);
  }

  lemma StepCall(d: Decoder, n: nat, c: ExecCall, rest: Pattern)
    requires FitsCall(c, n) && At(d, Word(c.meta.value) + (Word(c.index) + (Word(|c.args|) + (EncArgs(c.args) + rest))))
    ensures var k := 24 + |EncArgs(c.args)|;
      && k <= |d.data|
      && var d0 := Commit(d);
        var d1 := Skip(d0, k).(vars := ArgsVars(d.vars, c.args),
                               call := d0.call.(meta := c.meta, index := c.index, args := d0.call.args + c.args));
        Step(d, n) == (d1, false) && At(d1, rest)
  {
    hide Read, Word, Matches, EncArgs, ReadCallArgs, ArgsVars, CallVars;
    var w3 := EncArgs(c.args) + rest;
    var w2 := Word(|c.args|) + w3;
    var w1 := Word(c.index) + w2;
    ReadWord(d, c.meta.value, w1);
    var d0 := Commit(d);
    assert Commit(Skip(d, 8)) == Skip(d0, 8);
    var e := d0.(call := d0.call.(meta := c.meta));
    ReadNext(e, 8, c.index, w2);
    var f := e.(call := e.call.(index := c.index));
    ReadNext(f, 16, |c.args|, w3);
    BackArgs(Skip(f, 24), c.args, rest);
    SkipSkip(f, 24, |EncArgs(c.args)|);
  }

  /** Whatever cannot continue a finished call first records it. */
  lemma ParseCommits(d: Decoder, n: nat)
    requires !d.err && |d.data| >= 8 && Read(d).0 != INSTR_COPYOUT
    ensures Parse(d, n) == Parse(Commit(d), n)
  {
    hide ReadArg, ReadCallArgs, CallVars;
    var (instr, d1) := Read(d);
    assert Read(Commit(d)) == (instr, Commit(d1));
    assert Commit(Commit(d1)) == Commit(d1);
    assert Step(d, n) == Step(Commit(d), n);
  }

  function CopyinVars(vars: seq<u64>, cs: seq<Copyin>): seq<u64>
    decreases cs
  {
    if cs == [] then vars else CopyinVars(ArgVars(vars, cs[0].arg), cs[1..])
  }

  lemma {:induction false} ParseCopyins(d: Decoder, n: nat, cs: seq<Copyin>, rest: Pattern)
    requires FitsCopyins(cs) && At(d, EncCopyins(cs) + rest) && d.call.meta.None?
    ensures var k := |EncCopyins(cs)|;
      && k <= |d.data|
      && var d1 := Skip(d, k).(vars := CopyinVars(d.vars, cs), call := d.call.(copyin := d.call.copyin + cs));
        Parse(d, n) == Parse(d1, n) && At(d1, rest)
    decreases cs
  {
    hide Step, EncCopyin, Matches, ArgVars;
    if cs == [] {
      assert EncCopyins(cs) + rest == rest && d.data[0..] == d.data;
      assert d.call.copyin + [] == d.call.copyin;
    } else {
      Assoc(EncCopyin(cs[0]), EncCopyins(cs[1..]), rest);
      StepCopyin(d, n, cs[0], EncCopyins(cs[1..]) + rest);
      var d1 := Step(d, n).0;
      ParseCopyins(d1, n, cs[1..], rest);
      SkipSkip(d, |EncCopyin(cs[0])|, |EncCopyins(cs[1..])|);
      assert d.call.copyin + [cs[0]] + cs[1..] == d.call.copyin + cs;
    }
  }

  lemma {:induction false} ParseCopyouts(d: Decoder, n: nat, cs: seq<Copyout>, rest: Pattern)
    requires At(d, EncCopyouts(cs) + rest)
    ensures var k := |EncCopyouts(cs)|;
      && k <= |d.data|
      && var d1 := Skip(d, k).(call := d.call.(copyout := d.call.copyout + cs));
        Parse(d, n) == Parse(d1, n) && At(d1, rest)
    decreases cs
  {
    hide Step, EncCopyout, Matches;
    if cs == [] {
      assert EncCopyouts(cs) + rest == rest && d.data[0..] == d.data;
      assert d.call.copyout + [] == d.call.copyout;
    } else {
      Assoc(EncCopyout(cs[0]), EncCopyouts(cs[1..]), rest);
      StepCopyout(d, n, cs[0], EncCopyouts(cs[1..]) + rest);
      var d1 := Step(d, n).0;
      ParseCopyouts(d1, n, cs[1..], rest);
      SkipSkip(d, |EncCopyout(cs[0])|, |EncCopyouts(cs[1..])|);
      assert d.call.copyout + [cs[0]] + cs[1..] == d.call.copyout + cs;
    }
  }

  /** The first word of an encoded call does not continue the call before. */
  lemma CallStarts(d: Decoder, n: nat, c: ExecCall, rest: Pattern)
    requires FitsCall(c, n) && At(d, EncCall(c, n) + rest)
    ensures |d.data| >= 8 && Read(d).0 != INSTR_COPYOUT
  {
    hide Read, Word, Matches, EncArgs, EncArg, EncCopyouts;
    var tail := Word(c.index) + (Word(|c.args|) + (EncArgs(c.args) + EncCopyouts(c.copyout)));
    if c.copyin == [] {
      assert EncCall(c, n) == Word(c.meta.value) + tail;
      Assoc(Word(c.meta.value), tail, rest);
      ReadWord(d, c.meta.value, tail + rest);
    } else {
      var w := Word(c.copyin[0].addr) + EncArg(c.copyin[0].arg);
      var more := EncCopyins(c.copyin[1..]);
      var end := Word(c.meta.value) + tail;
      assert EncCall(c, n) == Word(INSTR_COPYIN) + w + more + end;
      Assoc(Word(INSTR_COPYIN) + w, more, end);
      Assoc(Word(INSTR_COPYIN), w, more + end);
      Assoc(Word(INSTR_COPYIN), w + (more + end), rest);
      ReadWord(d, INSTR_COPYIN, w + (more + end) + rest);
    }
  }

  function CallArgVars(vars: seq<u64>, c: ExecCall): seq<u64> { ArgsVars(CopyinVars(vars, c.copyin), c.args) }

  /** A whole call: the call before it is recorded and this one is held. */
  lemma ParseCall(d: Decoder, n: nat, c: ExecCall, rest: Pattern)
    requires FitsCall(c, n) && At(d, EncCall(c, n) + rest) && (d.call == NO_CALL || d.call.meta.Some?)
    ensures var k := |EncCall(c, n)|;
      && k <= |d.data|
      && var d1 := Skip(Commit(d), k).(vars := CallArgVars(d.vars, c), call := c);
        Parse(d, n) == Parse(d1, n) && At(d1, rest)
  {
    CallStarts(d, n, c, rest);
    ParseCommits(d, n);
    hide Matches, EncCall, Parse, CallArgVars, CallVars, Read;
    ParseFirst(Commit(d), n, c, rest);
  }

  lemma EncCallShape(c: ExecCall, n: nat, rest: Pattern)
    requires FitsCall(c, n)
    ensures EncCall(c, n) + rest ==
      EncCopyins(c.copyin) +
      (Word(c.meta.value) + (Word(c.index) + (Word(|c.args|) + (EncArgs(c.args) + (EncCopyouts(c.copyout) + rest)))))
    ensures |EncCall(c, n)| == |EncCopyins(c.copyin)| + (24 + |EncArgs(c.args)|) + |EncCopyouts(c.copyout)|
  {
    hide Word, EncArgs, EncCopyins, EncCopyouts;
    var w4 := EncCopyouts(c.copyout);
    var w3 := EncArgs(c.args) + w4;
    var w2 := Word(|c.args|) + w3;
    var w1 := Word(c.index) + w2;
    Assoc(EncCopyins(c.copyin), Word(c.meta.value) + w1, rest);
    Assoc(Word(c.meta.value), w1, rest);
    Assoc(Word(c.index), w2, rest);
    Assoc(Word(|c.args|), w3, rest);
    Assoc(EncArgs(c.args), w4, rest);
  }

  lemma ParseFirst(d: Decoder, n: nat, c: ExecCall, rest: Pattern)
    requires FitsCall(c, n) && At(d, EncCall(c, n) + rest) && d.call == NO_CALL
    ensures var k := |EncCall(c, n)|;
      && k <= |d.data|
      && var d1 := Skip(d, k).(vars := CallArgVars(d.vars, c), call := c);
        Parse(d, n) == Parse(d1, n) && At(d1, rest)
  {
    hide Matches, Word, EncCall, EncArgs, EncCopyins, EncCopyouts, Parse, Step, CopyinVars, ArgsVars, FitsArgs,
      FitsCopyins;
    EncCallShape(c, n, rest);
    var tail := EncCopyouts(c.copyout) + rest;
    var body := Word(c.meta.value) + (Word(c.index) + (Word(|c.args|) + (EncArgs(c.args) + tail)));
    ParseCopyins(d, n, c.copyin, body);
    var k1, k2 := |EncCopyins(c.copyin)|, 24 + |EncArgs(c.args)|;
    var d1 := Skip(d, k1).(vars := CopyinVars(d.vars, c.copyin), call := NO_CALL.(copyin := c.copyin));
    assert [] + c.copyin == c.copyin && [] + c.args == c.args && [] + c.copyout == c.copyout;
    StepCall(d1, n, c, tail);
    var d2 := Skip(d1, k2).(vars := CallArgVars(d.vars, c), call := c.(copyout := []));
    ParseStep(d1, n);
    ParseCopyouts(d2, n, c.copyout, rest);
    SkipSkip(d, k1, k2);
    SkipSkip(d, k1 + k2, |EncCopyouts(c.copyout)|);
  }

  lemma ParseStep(d: Decoder, n: nat)
    requires !d.err && !Step(d, n).1
    ensures Parse(d, n) == Parse(Step(d, n).0, n)
  {
  }

  // ---- programs ----

  /** The variables after all references of a program, each set to the last default. */
  function ProgVars(vars: seq<u64>, cs: seq<ExecCall>): seq<u64>
    decreases cs
  {
    if cs == [] then vars else ProgVars(CallArgVars(vars, cs[0]), cs[1..])
  }

  /** One more than the largest index a program assigns. */
  function ProgNumVars(numVars: u64, cs: seq<ExecCall>): u64
    decreases cs
  {
    if cs == [] then numVars else ProgNumVars(CallVars(numVars, cs[0]), cs[1..])
  }

  lemma ParseEnd(d: Decoder, n: nat)
    requires At(d, Word(INSTR_EOF) + [])
    ensures |d.data| >= 8 && Parse(d, n) == Skip(Commit(d), 8)
  {
    hide Matches, Word, Read, CallVars;
    ReadWord(d, INSTR_EOF, []);
  }

  lemma {:induction false} ParseProg(d: Decoder, n: nat, cs: seq<ExecCall>)
    requires FitsCalls(cs, n) && At(d, EncProg(cs, n)) && (d.call == NO_CALL || d.call.meta.Some?)
    ensures var d0, d1 := Commit(d), Parse(d, n);
      !d1.err && d1.calls == d0.calls + cs && d1.vars == ProgVars(d.vars, cs)
        && d1.numVars == ProgNumVars(d0.numVars, cs) && |d1.data| == |d.data| - |EncProg(cs, n)|
    decreases cs
  {
    hide Matches, EncCall, CallVars, CallArgVars, Word, Parse;
    if cs == [] {
      assert EncProg(cs, n) == Word(INSTR_EOF) + [];
      ParseEnd(d, n);
      assert Commit(d).calls + [] == Commit(d).calls;
    } else {
      Assoc(EncCall(cs[0], n), EncCalls(cs[1..], n), Word(INSTR_EOF));
      ParseCall(d, n, cs[0], EncProg(cs[1..], n));
      var d1 := Skip(Commit(d), |EncCall(cs[0], n)|).(vars := CallArgVars(d.vars, cs[0]), call := cs[0]);
      ParseProg(d1, n, cs[1..]);
      assert Commit(d).calls + [cs[0]] + cs[1..] == Commit(d).calls + cs;
    }
  }

  /** From a buffer that starts with the encoding of these calls, the decoder returns them, unless
      the largest assigned index is not the largest referenced one. */
  lemma ExecRoundTrips(data: seq<byte>, n: nat, cs: seq<ExecCall>)
    requires FitsCalls(cs, n) && Matches(data, EncProg(cs, n))
    ensures DeserializeExec(data, n) ==
      if |ProgVars([], cs)| == ProgNumVars(0, cs) then Some((cs, ProgVars([], cs))) else None
  {
    ParseProg(Decoder(data, false, 0, [], NO_CALL, []), n, cs);
    assert [] + cs == cs;
  }
}
