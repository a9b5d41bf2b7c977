/** Programs through the bytecode and back as a whole, the executor's limit on results, and a program
    that the decoder rejects. */
module ExecWhole {
  import opened ProgTypes
  import opened Validation
  import opened CanonicalForm
  import opened ExecFormat
  import opened ExecRoundTrip
  import opened ExecCompile
  import opened ExecIndices
  import opened ExecDecode
  import ExecWriter
  import ExecReader

  ghost predicate OnlyChecksums(csums: seq<seq<Copyin>>) {
    forall i, j :: 0 <= i < |csums| && 0 <= j < |csums[i]| ==> csums[i][j].arg.Csum?
  }

  lemma ValidWritable(tgt: Target, p: Prog)
    requires Valid(tgt, p) && Passable(p)
    ensures Compilable(tgt, RefsCalls(p.calls), p.calls)
    ensures forall i :: 0 <= i < |p.calls| ==> WritableCall(tgt, p.calls[i])
  {
    hide WritableCall, Valid, Passable;
    ValidCompiles(tgt, p);
    RefersBackWritable(tgt, RefsCalls(p.calls), p.calls, {});
  }

  /** The instructions of the program fit their words. */
  ghost predicate FitsProg(tgt: Target, p: Prog, csums: seq<seq<Copyin>>)
    requires Valid(tgt, p) && Passable(p) && |csums| == |p.calls|
  {
    ValidWritable(tgt, p);
    FitsCalls(Compiled(tgt, RefsCalls(p.calls), p.calls, csums), |tgt.syscalls|)
  }

  /** A valid program whose references target earlier calls is serialised exactly if the buffer is large
      enough, and then decoded to its compiled calls exactly if its last used result is passed. */
  method SerializeAndDecode(tgt: Target, p: Prog, csums: seq<seq<Copyin>>, buffer: array<byte>)
    returns (ok: bool, r: Option<(seq<ExecCall>, seq<u64>)>)
    requires Valid(tgt, p) && Passable(p) && |csums| == |p.calls| && OnlyChecksums(csums)
    requires FitsProg(tgt, p, csums)
    modifies buffer
    ensures forall i :: 0 <= i < |p.calls| ==> WritableCall(tgt, p.calls[i])
    ensures var calls := Compiled(tgt, RefsCalls(p.calls), p.calls, csums);
      && ok == (|EncProg(calls, |tgt.syscalls|)| <= buffer.Length)
      && (ok ==> r == if LastPassed(tgt, RefsCalls(p.calls), p.calls) then Some((calls, ProgVars([], calls))) else None)
  {
    hide WritableCall, Valid, Passable, Compiled, FitsCalls, DeserializeExec, LastPassed, EncProg, ProgVars, Compilable;
    ValidWritable(tgt, p);
    var used := RefsCalls(p.calls);
    var size;
    size, ok := ExecWriter.SerializeForExec(tgt, used, p.calls, csums, buffer);
    r := None;
    if ok {
      r := ExecReader.Deserialize(buffer[..size], |tgt.syscalls|);
      ExecDecodes(tgt, used, p.calls, csums, buffer[..size]);
    }
  }

  // ---- the limit on results ----

  /** How many results the executor can hold. */
  const MAX_COMMANDS: nat := 1000

  /** Every index that the instructions assign or refer to is below the limit. */
  ghost predicate WithinLimit(calls: seq<ExecCall>) {
    && (forall j :: 0 <= j < |Assigned(calls)| ==> Assigned(calls)[j] < MAX_COMMANDS)
    && forall x :: x in Referenced(calls) ==> x < MAX_COMMANDS
  }

  /** The executor can hold all results of a program exactly if it uses no more than the limit. */
  lemma LimitIff(tgt: Target, used: set<nat>, cs: seq<Call>, csums: seq<seq<Copyin>>)
    requires |csums| == |cs| && Compilable(tgt, used, cs) && OnlyChecksums(csums)
    ensures forall i :: 0 <= i < |cs| ==> WritableCall(tgt, cs[i])
    ensures WithinLimit(Compiled(tgt, used, cs, csums)) <==> |AllDefiners(tgt, used, cs)| <= MAX_COMMANDS
  {
    var ds := AllDefiners(tgt, used, cs);
    IndicesDense(tgt, used, cs, csums);
    CompiledMeant(tgt, used, cs, csums);
    PassedAreDefined(tgt, used, cs, {});
    MeantReferenced(tgt, used, Positions(ds), cs, csums);
    PositionsLast(ds);
    hide Compiled, MeantCalls, AllDefiners, AllPassed, RefersBack, Referenced, Assigned, WritableCall, Positions;
    var calls := Compiled(tgt, used, cs, csums);
    forall x | x in Referenced(calls)
      ensures x < |ds|
    {
      var r :| r in AllPassed(tgt, cs) && x == NumberOf(Positions(ds), Some(r));
      assert r in ToSet(ds);
    }
    if |ds| > MAX_COMMANDS {
      assert Assigned(calls)[MAX_COMMANDS] == MAX_COMMANDS;
    }
  }

  // ---- a program that is rejected ----

  const MADE := ResourceT(Common("r", 8, DirOut, false, false), FormatNative, 0)
  const CELL := ResourceT(Common("x", 8, DirOut, false, false), FormatNative, 0)
  const TO_CELL := PtrT(Common("p", 8, DirIn, false, false), CELL)

  /** Two system calls: one returns a resource, one fills in a resource behind a pointer. */
  function Calls2(): seq<Syscall> { [Syscall("make", [], Some(MADE)), Syscall("fill", [TO_CELL], None)] }

  /** The second call's output cell refers to the result of the first. */
  function Rejected(): Prog {
    Prog([Call(0, [], Some(ResultArg(MADE, 0, None, 0, 0, 0))),
          Call(1, [PointerArg(TO_CELL, 0, 0, Some(ResultArg(CELL, 1, Some(0), 0, 0, 0)))], None)])
  }

  lemma RejectedVisits(tgt: Target)
    ensures var c0, c1 := Rejected().calls[0], Rejected().calls[1];
      && CallVisits(tgt, c0) == [Visit(c0.ret.value, None)]
      && CallVisits(tgt, c1) == [Visit(c1.args[0], None),
                                 Visit(c1.args[0].res.value, Some(PhysicalAddr(tgt, c1.args[0])))]
  {
    hide PhysicalAddr;
    var c0, c1 := Rejected().calls[0], Rejected().calls[1];
    assert VisitsSeq(tgt, [], None, 0) == [];
    assert Visits(tgt, c0.ret.value, None, 0) == [Visit(c0.ret.value, None)];
    assert CallVisits(tgt, c0) == Visits(tgt, c0.ret.value, None, 0) + VisitsSeq(tgt, [], None, 0);
    var a := c1.args[0];
    var to := PhysicalAddr(tgt, a);
    assert Visits(tgt, a.res.value, Some(to), 0) == [Visit(a.res.value, Some(to))];
    assert Visits(tgt, a, None, 0) == [Visit(a, None)] + Visits(tgt, a.res.value, Some(to), 0);
    assert [a][1..] == [] && VisitsSeq(tgt, [], None, Advance(tgt, a, 0)) == [];
    assert CallVisits(tgt, c1) == [] + VisitsSeq(tgt, [a], None, 0);
  }

  lemma RejectedValid(tgt: Target)
    requires tgt.syscalls == Calls2() && MaxMem(tgt) >= 8 && |tgt.specialPointers| > 0
    ensures Valid(tgt, Rejected())
  {
    var p := Rejected();
    var c0, c1 := p.calls[0], p.calls[1];
    var a := c1.args[0];
    var nothing: set<nat> := {};
    assert p.calls[1..] == [c1] && [c1][1..] == [] && [a][1..] == [];
    assert nothing + {0} == {0} && {0} + {1} == {0, 1};
    assert ValidateSeq(tgt, [], [], {}) == Some({});
    assert ValidateBody(tgt, c0.ret.value, {0}) == Some({0});
    assert ValidateArg(tgt, c0.ret.value, MADE, {}) == Some({0});
    assert ValidateCall(tgt, c0, {}) == Some({0});
    assert ValidateBody(tgt, a.res.value, {0, 1}) == Some({0, 1});
    assert ValidateArg(tgt, a.res.value, CELL, {0}) == Some({0, 1});
    assert ValidAddress(tgt, a);
    assert ValidateArg(tgt, a, TO_CELL, {0}) == Some({0, 1});
    assert ValidateSeq(tgt, [a], [TO_CELL], {0}) == Some({0, 1});
    assert ValidateCall(tgt, c1, {0}) == Some({0, 1});
    assert ValidateCalls(tgt, [c1], {0}) == ValidateCalls(tgt, [], {0, 1});
  }

  lemma RejectedPassable()
    ensures Passable(Rejected()) && RefsCalls(Rejected().calls) == {0}
  {
    var p := Rejected();
    var c0, c1 := p.calls[0], p.calls[1];
    var a := c1.args[0];
    assert p.calls[1..] == [c1] && [c1][1..] == [] && [a][1..] == [];
    assert IdsSeq([]) == [] && Ids(a) == [1] && IdsSeq([a]) == [1];
    assert IdsCall(c0) == [0] && IdsCall(c1) == [1];
    assert IdsCalls([c1]) == [1] && IdsCalls(p.calls) == [0, 1];
    assert RefsSeq([a]) == {0} && RefsSeq([]) == {};
    assert EarlierRefs([c1], {0});
    var none: set<nat> := {};
    assert none + (set id | id in IdsCall(p.calls[0])) == {0};
    assert RefsSeq(p.calls[0].args) <= none && EarlierRefs(p.calls[1..], none + (set id | id in IdsCall(p.calls[0])));
    assert EarlierRefs(p.calls, none);
    assert RefsCalls([c1]) == {0};
    hide RefsSeq, Ids, IdsSeq, NoStraySizes;
    RejectedSizes();
  }

  lemma RejectedSizes()
    ensures forall i :: 0 <= i < |Rejected().calls| ==> NoStraySizes(Rejected().calls[i].args)
  {
    var a := Rejected().calls[1].args[0];
    assert NoStraySizes([]) && NoStraySize(a.res.value) && NoStraySize(a);
    assert [a][1..] == [] && NoStraySizes([a]);
  }

  lemma RejectedPassesNothing(tgt: Target)
    ensures var cs := Rejected().calls; AllDefiners(tgt, {0}, cs) == [0] && AllPassed(tgt, cs) == {}
    ensures !LastPassed(tgt, {0}, Rejected().calls)
  {
    RejectedVisits(tgt);
    hide CallVisits, PhysicalAddr;
    var cs := Rejected().calls;
    var c0, c1 := cs[0], cs[1];
    var vs0, vs1 := CallVisits(tgt, c0), CallVisits(tgt, c1);
    assert cs[1..] == [c1] && [c1][1..] == [];
    assert vs0[1..] == [] && vs1[1..] == [vs1[1]] && [vs1[1]][1..] == [];
    assert Definers({0}, []) == [] && Definers({0}, vs0) == [0];
    assert Definers({0}, [vs1[1]]) == [] && Definers({0}, vs1) == [];
    assert AllDefiners(tgt, {0}, [c1]) == [] + AllDefiners(tgt, {0}, []);
    assert PassedRefs(tgt, c0) == {} && PassedRefs(tgt, c1) == {};
    assert AllPassed(tgt, [c1]) == {};
  }

  /** The program is valid and serialised, but the decoder reports an error for its bytes. */
  lemma DecoderRejects(tgt: Target, data: seq<byte>)
    requires tgt.syscalls == Calls2() && MaxMem(tgt) >= 8 && |tgt.specialPointers| > 0
    ensures var p := Rejected();
      && Valid(tgt, p) && Passable(p) && (forall i :: 0 <= i < |p.calls| ==> WritableCall(tgt, p.calls[i]))
      && var calls := Compiled(tgt, RefsCalls(p.calls), p.calls, [[], []]);
      FitsCalls(calls, 2) && (Matches(data, EncProg(calls, 2)) ==> DeserializeExec(data, 2) == None)
  {
    hide WritableCall, Valid, Passable, Compiled, FitsCalls, DeserializeExec, LastPassed, EncProg, ProgVars, Compilable;
    hide RefsCalls, Matches;
    var p := Rejected();
    RejectedValid(tgt);
    RejectedPassable();
    ValidWritable(tgt, p);
    RejectedFits(tgt);
    RejectedPassesNothing(tgt);
    if Matches(data, EncProg(Compiled(tgt, {0}, p.calls, [[], []]), 2)) {
      ExecDecodes(tgt, {0}, p.calls, [[], []], data);
    }
  }

  lemma RejectedFits(tgt: Target)
    requires forall i :: 0 <= i < |Rejected().calls| ==> WritableCall(tgt, Rejected().calls[i])
    ensures FitsCalls(Compiled(tgt, {0}, Rejected().calls, [[], []]), 2)
  {
    RejectedVisits(tgt);
    hide CallVisits, PhysicalAddr, WritableCall;
    var cs := Rejected().calls;
    var c0, c1 := cs[0], cs[1];
    var first := CompileCall(tgt, {0}, map[], 0, c0, []);
    var none: seq<seq<Copyin>> := [[], []];
    assert cs[1..] == [c1] && [c1][1..] == [] && none[1..] == [[]] && none[1..][1..] == [];
    NoCopyins(tgt, {0}, map[], CallVisits(tgt, c0));
    NoCopyins(tgt, {0}, first.1, CallVisits(tgt, c1));
    var second := CompileCall(tgt, {0}, first.1, first.2, c1, []);
    assert first.0.copyin == [] && second.0.copyin == [];
    assert first.0.args == [] && |second.0.args| == 1;
    hide CompileCall;
    assert CompileCalls(tgt, {0}, first.1, first.2, [c1], [[]]) ==
      [second.0] + CompileCalls(tgt, {0}, second.1, second.2, [], []);
  }

  lemma {:induction false} NoCopyins(tgt: Target, used: set<nat>, infos: Infos, vs: seq<Visit>)
    requires forall i :: 0 <= i < |vs| ==> !EmitsCopyin(tgt, vs[i])
    ensures WritableVisits(tgt, vs) && Copyins(tgt, used, infos, vs).0 == []
    decreases vs
  {
    if vs != [] {
      NoCopyins(tgt, used, Located(used, infos, vs[0]), vs[1..]);
    }
  }
}
