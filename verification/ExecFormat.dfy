/** The bytecode that the executor runs: instructions as little-endian 64-bit words, and the decoder
    of that format as a state transformer.

    A blob is padded to whole words without clearing the padding, so an encoding is a pattern of
    bytes in which padding is left open. */
module ExecFormat {
  import opened ProgTypes

  type byte = x: int | 0 <= x < 256

  type Pattern = seq<Option<byte>>

  const INSTR_EOF: u64 := 0xffff_ffff_ffff_ffff
  const INSTR_COPYIN: u64 := 0xffff_ffff_ffff_fffe
  const INSTR_COPYOUT: u64 := 0xffff_ffff_ffff_fffd
  const NO_COPYOUT: u64 := 0xffff_ffff_ffff_ffff
  const READABLE: u64 := 0x8000_0000_0000_0000

  datatype Chunk = Chunk(kind: u64, value: u64, size: u64)

  datatype ExecArg =
    | Const(size: u64, format: u64, value: u64, bfOff: u64, bfLen: u64, pidStride: u64)
    | Result(size: u64, format: u64, index: u64, divOp: u64, addOp: u64, default: u64)
    | Data(data: seq<byte>, readable: bool)
    | Csum(size: u64, chunks: seq<Chunk>)

  datatype Copyin = Copyin(addr: u64, arg: ExecArg)

  datatype Copyout = Copyout(index: u64, addr: u64, size: u64)

  /** A call with its memory setup; `meta` is absent while only copyins have been read. */
  datatype ExecCall = ExecCall(meta: Option<nat>, index: u64, args: seq<ExecArg>, copyin: seq<Copyin>,
                               copyout: seq<Copyout>)

  const NO_CALL := ExecCall(None, 0, [], [], [])

  // ---- words ----

  function Pow256(n: nat): (p: nat)
    ensures p > 0
  {
    if n == 0 then 1 else 256 * Pow256(n - 1)
  }

  /** The n low bytes of v, least significant first. */
  function LE(v: nat, n: nat): (s: seq<byte>)
    ensures |s| == n
  {
    if n == 0 then [] else [v % 256] + LE(v / 256, n - 1)
  }

  function FromLE(s: seq<byte>): (v: nat)
    ensures v < Pow256(|s|)
  {
    if s == [] then 0 else s[0] + 256 * FromLE(s[1..])
  }

  lemma {:induction false} FromToLE(v: nat, n: nat)
    requires v < Pow256(n)
    ensures FromLE(LE(v, n)) == v
  {
    if n > 0 {
      FromToLE(v / 256, n - 1);
      assert LE(v, n)[1..] == LE(v / 256, n - 1);
    }
  }

  lemma WordRange()
    ensures Pow256(8) == TWO64
  {
    assert Pow256(4) == 0x1_0000_0000;
    assert Pow256(8) == 256 * 256 * 256 * 256 * Pow256(4);
  }

  lemma WordRoundTrip(v: u64)
    ensures FromLE(LE(v, 8)) == v
  {
    WordRange();
    FromToLE(v, 8);
  }

  // ---- patterns ----

  function Exactly(s: seq<byte>): (p: Pattern)
    ensures |p| == |s|
  {
    seq(|s|, i requires 0 <= i < |s| => Some(s[i]))
  }

  function Word(v: u64): (p: Pattern)
    ensures |p| == 8
  {
    Exactly(LE(v, 8))
  }

  function Padding(n: nat): nat { (8 - n % 8) % 8 }

  /** A blob is followed by open padding. */
  function Blob(s: seq<byte>): (p: Pattern)
    ensures |p| == |s| + Padding(|s|)
  {
    Exactly(s) + seq(Padding(|s|), _ => None)
  }

  /** Does the data start with the pattern? */
  ghost predicate Matches(data: seq<byte>, p: Pattern) {
    |p| <= |data| && forall i :: 0 <= i < |p| && p[i].Some? ==> data[i] == p[i].value
  }

  lemma MatchesSplit(data: seq<byte>, p: Pattern, q: Pattern)
    requires Matches(data, p + q)
    ensures Matches(data, p) && Matches(data[|p|..], q)
  {
    forall i | 0 <= i < |p| && p[i].Some?
      ensures data[i] == p[i].value
    {
      assert (p + q)[i] == p[i];
    }
    forall i | 0 <= i < |q| && q[i].Some?
      ensures data[|p|..][i] == q[i].value
    {
      assert (p + q)[|p| + i] == q[i];
    }
  }

  lemma MatchesExactly(data: seq<byte>, s: seq<byte>)
    requires Matches(data, Exactly(s))
    ensures data[..|s|] == s
  {
    forall i | 0 <= i < |s|
      ensures data[i] == s[i]
    {
      assert Exactly(s)[i] == Some(s[i]);
    }
  }

  // ---- encoding ----

  function ConstMeta(a: ExecArg): nat
    requires a.Const?
  {
    a.size + a.format * 0x100 + a.bfOff * 0x1_0000 + a.bfLen * 0x100_0000 + a.pidStride * 0x1_0000_0000
  }

  /** The fields fit the bits the format has for them. */
  predicate FitsArg(a: ExecArg) {
    match a
    case Const(size, format, _, bfOff, bfLen, pidStride) =>
      size < 0x100 && format < 0x100 && bfOff < 0x100 && bfLen < 0x100 && pidStride < 0x1_0000_0000
    case Result(size, format, _, _, _, _) => size < 0x100 && format < 0x100
    case Data(data, _) => |data| < READABLE
    case Csum(_, chunks) => |chunks| < TWO64
  }

  function EncChunks(chunks: seq<Chunk>): Pattern {
    if chunks == [] then []
    else Word(chunks[0].kind) + (Word(chunks[0].value) + (Word(chunks[0].size) + EncChunks(chunks[1..])))
  }

  function EncArg(a: ExecArg): Pattern
    requires FitsArg(a)
  {
    match a
    case Const(_, _, value, _, _, _) => Word(0) + (Word(ConstMeta(a)) + Word(value))
    case Result(size, format, index, divOp, addOp, default) =>
      Word(1) + (Word(size + format * 0x100) + (Word(index) + (Word(divOp) + (Word(addOp) + Word(default)))))
    case Data(data, readable) =>
      Word(2) + (Word(|data| + if readable then READABLE else 0) + Blob(data))
    case Csum(size, chunks) => Word(3) + (Word(size) + (Word(0) + (Word(|chunks|) + EncChunks(chunks))))
  }

  predicate FitsArgs(args: seq<ExecArg>) { forall i :: 0 <= i < |args| ==> FitsArg(args[i]) }

  function EncArgs(args: seq<ExecArg>): Pattern
    requires FitsArgs(args)
  {
    if args == [] then [] else EncArg(args[0]) + EncArgs(args[1..])
  }

  function EncCopyin(c: Copyin): Pattern
    requires FitsArg(c.arg)
  {
    Word(INSTR_COPYIN) + (Word(c.addr) + EncArg(c.arg))
  }

  predicate FitsCopyins(cs: seq<Copyin>) { forall i :: 0 <= i < |cs| ==> FitsArg(cs[i].arg) }

  function EncCopyins(cs: seq<Copyin>): Pattern
    requires FitsCopyins(cs)
  {
    if cs == [] then [] else EncCopyin(cs[0]) + EncCopyins(cs[1..])
  }

  function EncCopyout(c: Copyout): Pattern {
    Word(INSTR_COPYOUT) + (Word(c.index) + (Word(c.addr) + Word(c.size)))
  }

  function EncCopyouts(cs: seq<Copyout>): Pattern {
    if cs == [] then [] else EncCopyout(cs[0]) + EncCopyouts(cs[1..])
  }

  /** Calls take constants and results; n is the number of known system calls. */
  predicate FitsCall(c: ExecCall, n: nat) {
    && c.meta.Some? && c.meta.value < n <= INSTR_COPYOUT && |c.args| < TWO64
    && FitsCopyins(c.copyin) && FitsArgs(c.args)
    && forall i :: 0 <= i < |c.args| ==> c.args[i].Const? || c.args[i].Result?
  }

  function EncCall(c: ExecCall, n: nat): Pattern
    requires FitsCall(c, n)
  {
    EncCopyins(c.copyin) +
    (Word(c.meta.value) + (Word(c.index) + (Word(|c.args|) + (EncArgs(c.args) + EncCopyouts(c.copyout)))))
  }

  predicate FitsCalls(cs: seq<ExecCall>, n: nat) { forall i :: 0 <= i < |cs| ==> FitsCall(cs[i], n) }

  function EncCalls(cs: seq<ExecCall>, n: nat): Pattern
    requires FitsCalls(cs, n)
  {
    if cs == [] then [] else EncCall(cs[0], n) + EncCalls(cs[1..], n)
  }

  function EncProg(cs: seq<ExecCall>, n: nat): Pattern
    requires FitsCalls(cs, n)
  {
    EncCalls(cs, n) + Word(INSTR_EOF)
  }

  // ---- decoding ----

  datatype Decoder = Decoder(
    data: seq<byte>, err: bool, numVars: u64, vars: seq<u64>, call: ExecCall, calls: seq<ExecCall>)

  function Read(d: Decoder): (r: (u64, Decoder))
    ensures |r.1.data| <= |d.data| && (d.err ==> r.1.err) && (!r.1.err ==> |r.1.data| < |d.data|)
  {
    if d.err || |d.data| < 8 then (0, d.(err := true))
    else
      WordRange();
      (FromLE(d.data[..8]), d.(data := d.data[8..]))
  }

  function ReadBlob(d: Decoder, size: nat): (seq<byte>, Decoder) {
    var padded := (size + 7) / 8 * 8;
    if d.err || |d.data| < padded then ([], d.(err := true))
    else (d.data[..size], d.(data := d.data[padded..]))
  }

  /** Grows the variables up to the index and gives it the default. */
  function Touch(vars: seq<u64>, index: u64, default: u64): seq<u64> {
    (if |vars| <= index then vars + seq(index + 1 - |vars|, _ => 0) else vars)[index := default]
  }

  function ReadChunks(d: Decoder, n: nat): (r: (seq<Chunk>, Decoder))
    ensures |r.1.data| <= |d.data| && (d.err ==> r.1.err)
    decreases n
  {
    if n == 0 then ([], d)
    else
      var (kind, d1) := Read(d);
      var (value, d2) := Read(d1);
      var (size, d3) := Read(d2);
      var (rest, d4) := ReadChunks(d3, n - 1);
      ([Chunk(kind, value, size)] + rest, d4)
  }

  /** An argument, or None for an unknown kind. */
  function ReadArg(d: Decoder): (r: (Option<ExecArg>, Decoder))
    ensures |r.1.data| <= |d.data| && (d.err ==> r.1.err)
  {
    var (typ, d1) := Read(d);
    if typ == 0 then
      var (meta, d2) := Read(d1);
      var (value, d3) := Read(d2);
      (Some(Const(meta % 0x100, meta / 0x100 % 0x100, value, meta / 0x1_0000 % 0x100, meta / 0x100_0000 % 0x100,
                  meta / 0x1_0000_0000)), d3)
    else if typ == 1 then
      var (meta, d2) := Read(d1);
      var (index, d3) := Read(d2);
      var (divOp, d4) := Read(d3);
      var (addOp, d5) := Read(d4);
      var (default, d6) := Read(d5);
      (Some(Result(meta % 0x100, meta / 0x100 % 0x100, index, divOp, addOp, default)),
       d6.(vars := Touch(d6.vars, index, default)))
    else if typ == 2 then
      var (flags, d2) := Read(d1);
      var (data, d3) := ReadBlob(d2, flags % READABLE);
      (Some(Data(data, flags >= READABLE)), d3)
    else if typ == 3 then
      var (size, d2) := Read(d1);
      var (kind, d3) := Read(d2);
      if kind == 0 then
        var (n, d4) := Read(d3);
        var (chunks, d5) := ReadChunks(d4, n);
        (Some(Csum(size, chunks)), d5)
      else (None, d3.(err := true))
    else (None, d1.(err := true))
  }

  function Max(a: u64, b: u64): u64 { if a < b then b else a }

  function CopyoutVars(numVars: u64, cs: seq<Copyout>): u64
    decreases cs
  {
    if cs == [] then numVars else CopyoutVars(Max(numVars, Wrap64(cs[0].index + 1)), cs[1..])
  }

  /** One more than the largest result index that a call assigns. */
  function CallVars(numVars: u64, c: ExecCall): u64 {
    CopyoutVars(if c.index != NO_COPYOUT then Max(numVars, c.index + 1) else numVars, c.copyout)
  }

  /** A finished call is recorded when the next instruction that cannot belong to it comes. */
  function Commit(d: Decoder): Decoder {
    if d.call.meta.None? then d
    else d.(numVars := CallVars(d.numVars, d.call), calls := d.calls + [d.call], call := NO_CALL)
  }

  /** Reads n call arguments; a blob or a checksum is an error there. */
  function ReadCallArgs(d: Decoder, n: nat): (r: (Decoder, bool))
    ensures |r.0.data| <= |d.data| && (d.err ==> r.0.err) && (r.1 ==> r.0.err)
    decreases n
  {
    if n == 0 then (d, false)
    else
      var (arg, d1) := ReadArg(d);
      if arg.Some? && (arg.value.Const? || arg.value.Result?)
      then ReadCallArgs(d1.(call := d1.call.(args := d1.call.args + [arg.value])), n - 1)
      else (d1.(err := true), true)
  }

  /** One instruction; the flag says that decoding stops. n is the number of known system calls. */
  function Step(d: Decoder, n: nat): (r: (Decoder, bool))
    ensures r.1 || r.0.err || |r.0.data| < |d.data|
  {
    var (instr, d1) := Read(d);
    if instr == INSTR_COPYIN then
      var (addr, d2) := Read(Commit(d1));
      var (arg, d3) := ReadArg(d2);
      if arg.Some? then (d3.(call := d3.call.(copyin := d3.call.copyin + [Copyin(addr, arg.value)])), false)
      else (d3.(err := true), false)
    else if instr == INSTR_COPYOUT then
      var (index, d2) := Read(d1);
      var (addr, d3) := Read(d2);
      var (size, d4) := Read(d3);
      (d4.(call := d4.call.(copyout := d4.call.copyout + [Copyout(index, addr, size)])), false)
    else if instr == INSTR_EOF then (Commit(d1), true)
    else if instr >= n then (Commit(d1).(err := true), true)
    else
      var d2 := Commit(d1);
      var (index, d3) := Read(d2.(call := d2.call.(meta := Some(instr))));
      var (count, d4) := Read(d3.(call := d3.call.(index := index)));
      ReadCallArgs(d4, count)
  }

  function Parse(d: Decoder, n: nat): Decoder
    decreases if d.err then 0 else 1, |d.data|
  {
    if d.err then d
    else
      var (d1, stop) := Step(d, n);
      if stop then d1 else Parse(d1, n)
  }

  function DeserializeExec(data: seq<byte>, n: nat): Option<(seq<ExecCall>, seq<u64>)> {
    var d := Parse(Decoder(data, false, 0, [], NO_CALL, []), n);
    if d.err || |d.vars| != d.numVars then None else Some((d.calls, d.vars))
  }
}
