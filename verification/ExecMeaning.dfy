/** Compilation preserves meaning. The executor keeps results by copyout index and resolves
    references when it starts a call; calls may finish late, in any order, or never. Whatever the
    schedule and the outcomes, each call sees the same memory setup and arguments as when every
    reference is read directly from the result it names. */
module ExecMeaning {
  import opened ProgTypes
  import opened Validation
  import opened ExecFormat
  import opened ExecCompile
  import opened ExecIndices
  import opened CanonicalForm

  /** What a finished call delivers: nothing after a failure, otherwise its return value and what
      could be read at its copyout addresses. */
  datatype Outcome = Failed | Done(ret: u64, outs: seq<Option<u64>>)

  datatype Event = Start(i: nat) | Finish(i: nat, outcome: Outcome)

  /** What the system sees of a call: memory writes and arguments, with all references resolved. */
  datatype Seen = Seen(meta: Option<nat>, writes: seq<Copyin>, args: seq<ExecArg>)

  function Out(outcome: Outcome, j: nat): Option<u64> {
    if outcome.Done? && j < |outcome.outs| then outcome.outs[j] else None
  }

  /** A delivered value is divided and shifted; without one the default counts. */
  function Adjust(value: Option<u64>, divOp: u64, addOp: u64, default: u64): u64 {
    if value.None? then default
    else Wrap64((if divOp != 0 then value.value / divOp else value.value) + addOp)
  }

  // ---- the executor ----

  type Results = map<u64, u64>

  function Stored(results: Results, i: u64): Option<u64> { if i in results then Some(results[i]) else None }

  function Resolve(results: Results, a: ExecArg): ExecArg {
    if a.Result? then Const(a.size, a.format, Adjust(Stored(results, a.index), a.divOp, a.addOp, a.default), 0, 0, 0)
      else a
  }

  /** A reference to a delivered result is passed as the quotient of the result, which is the result itself without
      a divisor, plus the addend; a reference to one that was not delivered as the default of its type. */
  lemma ResolvedIs(results: Results, a: ExecArg) returns (q: nat)
    requires a.Result?
    ensures Resolve(results, a) == Const(a.size, a.format, Resolve(results, a).value, 0, 0, 0)
    ensures a.index !in results ==> Resolve(results, a).value == a.default
    ensures a.index in results ==>
      && (if a.divOp == 0 then q == results[a.index] else q * a.divOp <= results[a.index] < (q + 1) * a.divOp)
      && Resolve(results, a).value == (q + a.addOp) % TWO64
  {
    q := 0;
    if a.index in results {
      q := if a.divOp != 0 then results[a.index] / a.divOp else results[a.index];
      Quotient(results[a.index], a.divOp);
    }
  }

  lemma Quotient(v: nat, d: nat)
    ensures d != 0 ==> v / d >= 0 && v / d * d <= v < (v / d + 1) * d
  {
    if d != 0 {
      var q, r := v / d, v % d;
      assert v == q * d + r && r < d;
      assert (q + 1) * d == q * d + d;
    }
  }

  function ResolveCopyins(results: Results, cs: seq<Copyin>): (r: seq<Copyin>)
    ensures |r| == |cs|
  {
    seq(|cs|, i requires 0 <= i < |cs| => Copyin(cs[i].addr, Resolve(results, cs[i].arg)))
  }

  function StartExec(results: Results, c: ExecCall): Seen {
    Seen(c.meta, ResolveCopyins(results, c.copyin),
         seq(|c.args|, i requires 0 <= i < |c.args| => Resolve(results, c.args[i])))
  }

  /** Copyouts j, j+1, and so on of a finished call. */
  function StoreOuts(results: Results, outs: seq<Copyout>, outcome: Outcome, j: nat): Results
    decreases outs
  {
    if outs == [] then results
    else
      var v := Out(outcome, j);
      StoreOuts(if v.Some? then results[outs[0].index := v.value] else results, outs[1..], outcome, j + 1)
  }

  function FinishExec(results: Results, c: ExecCall, outcome: Outcome): Results {
    if outcome.Failed? then results
    else StoreOuts(if c.index != NO_COPYOUT then results[c.index := outcome.ret] else results, c.copyout, outcome, 0)
  }

  predicate InRange(events: seq<Event>, n: nat) { forall k :: 0 <= k < |events| ==> events[k].i < n }

  function RunExec(cs: seq<ExecCall>, events: seq<Event>, results: Results): seq<Seen>
    requires InRange(events, |cs|)
    decreases events
  {
    if events == [] then []
    else
      match events[0]
      case Start(i) => [StartExec(results, cs[i])] + RunExec(cs, events[1..], results)
      case Finish(i, outcome) => RunExec(cs, events[1..], FinishExec(results, cs[i], outcome))
  }

  // ---- the program itself ----

  /** Delivered values by result. */
  type Env = map<nat, u64>

  function Value(env: Env, id: nat): Option<u64> { if id in env then Some(env[id]) else None }

  /** The argument with its reference read from the result it names. */
  function ArgMeaning(tgt: Target, env: Env, a: Arg): ExecArg
    requires Writable(a)
  {
    if a.UnionArg? then ArgMeaning(tgt, env, a.option)
    else if a.ResultArg? && a.ref.Some? then
      Const(a.typ.c.size, FormatCode(a.typ.format), Adjust(Value(env, a.ref.value), a.opDiv, a.opAdd, a.typ.default), 0,
            0, 0)
    else ArgOf(tgt, 0, a)
  }

  function Writes(tgt: Target, env: Env, vs: seq<Visit>): seq<Copyin>
    requires WritableVisits(tgt, vs)
    decreases vs
  {
    if vs == [] then []
    else
      (if EmitsCopyin(tgt, vs[0]) then [Copyin(vs[0].addr.value, ArgMeaning(tgt, env, vs[0].arg))] else [])
        + Writes(tgt, env, vs[1..])
  }

  function StartCall(tgt: Target, env: Env, c: Call, csums: seq<Copyin>): Seen
    requires WritableCall(tgt, c)
  {
    Seen(Some(c.meta), Writes(tgt, env, CallVisits(tgt, c)) + csums,
         seq(|c.args|, i requires 0 <= i < |c.args| => ArgMeaning(tgt, env, c.args[i])))
  }

  function Deliver(env: Env, ids: seq<nat>, outcome: Outcome, j: nat): Env
    decreases ids
  {
    if ids == [] then env
    else
      var v := Out(outcome, j);
      Deliver(if v.Some? then env[ids[0] := v.value] else env, ids[1..], outcome, j + 1)
  }

  function FinishCall(tgt: Target, used: set<nat>, env: Env, c: Call, outcome: Outcome): Env {
    if outcome.Failed? then env
    else Deliver(if RetUsed(used, c) then env[c.ret.value.id := outcome.ret] else env,
                 Definers(used, ArgVisits(tgt, c)), outcome, 0)
  }

  function RunProg(tgt: Target, used: set<nat>, cs: seq<Call>, csums: seq<seq<Copyin>>, events: seq<Event>,
                   env: Env): seq<Seen>
    requires |csums| == |cs| && InRange(events, |cs|) && forall i :: 0 <= i < |cs| ==> WritableCall(tgt, cs[i])
    decreases events
  {
    if events == [] then []
    else
      match events[0]
      case Start(i) => [StartCall(tgt, env, cs[i], csums[i])] + RunProg(tgt, used, cs, csums, events[1..], env)
      case Finish(i, outcome) => RunProg(tgt, used, cs, csums, events[1..], FinishCall(tgt, used, env, cs[i], outcome))
  }

  // ---- the two agree ----

  /** Results by index are results by name. */
  ghost predicate Sim(results: Results, env: Env, ix: Numbering) {
    forall id :: id in ix ==> Stored(results, ix[id]) == Value(env, id)
  }

  ghost predicate Injective(ix: Numbering) {
    forall r, q :: r in ix && q in ix && ix[r] == ix[q] ==> r == q
  }

  lemma {:induction false} ArgAgrees(tgt: Target, results: Results, env: Env, ix: Numbering, a: Arg)
    requires Writable(a) && Sim(results, env, ix) && (RefOf(a).Some? ==> RefOf(a).value in ix)
    ensures Resolve(results, ArgOf(tgt, NumberOf(ix, RefOf(a)), a)) == ArgMeaning(tgt, env, a)
    decreases a
  {
    if a.UnionArg? {
      ArgAgrees(tgt, results, env, ix, a.option);
    }
  }

  lemma ResolveSplit(results: Results, a: seq<Copyin>, b: seq<Copyin>)
    ensures ResolveCopyins(results, a + b) == ResolveCopyins(results, a) + ResolveCopyins(results, b)
  {
  }

  lemma {:induction false} WritesAgree(tgt: Target, results: Results, env: Env, ix: Numbering, vs: seq<Visit>)
    requires WritableVisits(tgt, vs) && Sim(results, env, ix) && VisitRefs(vs) <= ix.Keys
    ensures ResolveCopyins(results, MeantCopyins(tgt, ix, vs)) == Writes(tgt, env, vs)
    decreases vs
  {
    hide ArgOf, ArgMeaning, Resolve;
    if vs != [] {
      var v := vs[0];
      assert VisitRefs(vs[1..]) <= VisitRefs(vs);
      WritesAgree(tgt, results, env, ix, vs[1..]);
      if EmitsCopyin(tgt, v) {
        if RefOf(v.arg).Some? {
          assert v.arg.ref.value in VisitRefs(vs);
        }
        ArgAgrees(tgt, results, env, ix, v.arg);
        ResolveSplit(results, [Copyin(v.addr.value, ArgOf(tgt, NumberOf(ix, RefOf(v.arg)), v.arg))],
                     MeantCopyins(tgt, ix, vs[1..]));
      } else {
        assert MeantCopyins(tgt, ix, vs) == MeantCopyins(tgt, ix, vs[1..]);
      }
    }
  }

  lemma StartAgrees(tgt: Target, used: set<nat>, results: Results, env: Env, ix: Numbering, c: Call, csums: seq<Copyin>)
    requires WritableCall(tgt, c) && Sim(results, env, ix) && VisitRefs(CallVisits(tgt, c)) <= ix.Keys
    requires forall i :: 0 <= i < |csums| ==> csums[i].arg.Csum?
    ensures StartExec(results, MeantCall(tgt, used, ix, c, csums)) == StartCall(tgt, env, c, csums)
  {
    hide ArgOf, ArgMeaning, MeantCopyins, MeantCopyouts, Writes, CallVisits, VisitsSeq;
    var vs := CallVisits(tgt, c);
    WritesAgree(tgt, results, env, ix, vs);
    ResolveSplit(results, MeantCopyins(tgt, ix, vs), csums);
    assert ResolveCopyins(results, csums) == csums;
    RefsOfArgs(tgt, c);
    forall i | 0 <= i < |c.args|
      ensures Resolve(results, ArgOf(tgt, NumberOf(ix, RefOf(c.args[i])), c.args[i])) == ArgMeaning(tgt, env, c.args[i])
    {
      if RefOf(c.args[i]).Some? {
        ArgRefVisited(tgt, c.args, None, 0, i);
      }
      ArgAgrees(tgt, results, env, ix, c.args[i]);
    }
  }

  lemma SimUpdate(results: Results, env: Env, ix: Numbering, id: nat, v: u64)
    requires Sim(results, env, ix) && Injective(ix) && id in ix
    ensures Sim(results[ix[id] := v], env[id := v], ix)
  {
  }

  lemma {:induction false} OutsAgree(tgt: Target, used: set<nat>, results: Results, env: Env, ix: Numbering,
                                     vs: seq<Visit>, outcome: Outcome, j: nat)
    requires Sim(results, env, ix) && Injective(ix) && ToSet(Definers(used, vs)) <= ix.Keys
    ensures Sim(StoreOuts(results, MeantCopyouts(tgt, used, ix, vs), outcome, j),
                Deliver(env, Definers(used, vs), outcome, j), ix)
    decreases vs
  {
    hide Sim, Injective, Size;
    if vs != [] {
      var id, ds := vs[0].arg, Definers(used, vs[1..]);
      assert ToSet(ds) <= ToSet(Definers(used, vs));
      if Used(used, vs[0].arg) {
        var id := vs[0].arg.id;
        DefinersIn(used, vs, 0);
        assert id in ToSet(Definers(used, vs));
        var outs := MeantCopyouts(tgt, used, ix, vs);
        assert outs[1..] == MeantCopyouts(tgt, used, ix, vs[1..]) && outs[0].index == ix[id];
        assert Definers(used, vs)[1..] == ds && Definers(used, vs)[0] == id;
        var v := Out(outcome, j);
        if v.Some? {
          SimUpdate(results, env, ix, id, v.value);
          OutsAgree(tgt, used, results[ix[id] := v.value], env[id := v.value], ix, vs[1..], outcome, j + 1);
        } else {
          OutsAgree(tgt, used, results, env, ix, vs[1..], outcome, j + 1);
        }
      } else {
        assert MeantCopyouts(tgt, used, ix, vs) == MeantCopyouts(tgt, used, ix, vs[1..]) && Definers(used, vs) == ds;
        OutsAgree(tgt, used, results, env, ix, vs[1..], outcome, j);
      }
    }
  }

  lemma FinishAgrees(tgt: Target, used: set<nat>, results: Results, env: Env, ix: Numbering, c: Call,
                     csums: seq<Copyin>, outcome: Outcome)
    requires WritableCall(tgt, c) && Sim(results, env, ix) && Injective(ix)
      && (forall r :: r in ix ==> ix[r] != NO_COPYOUT)
    requires ToSet(Definers(used, CallVisits(tgt, c))) <= ix.Keys
    ensures Sim(FinishExec(results, MeantCall(tgt, used, ix, c, csums), outcome),
                FinishCall(tgt, used, env, c, outcome), ix)
  {
    if outcome.Done? {
      hide Sim, Injective, MeantCopyins, MeantCopyouts, CallVisits, VisitsSeq, ArgOf, StoreOuts, Deliver;
      RetFirst(tgt, used, c);
      var ds := Definers(used, ArgVisits(tgt, c));
      assert ToSet(ds) <= ToSet(Definers(used, CallVisits(tgt, c)));
      if RetUsed(used, c) {
        var id := c.ret.value.id;
        assert id in ToSet([id]) && ToSet([id]) <= ToSet(Definers(used, CallVisits(tgt, c)));
        SimUpdate(results, env, ix, id, outcome.ret);
        OutsAgree(tgt, used, results[ix[id] := outcome.ret], env[id := outcome.ret], ix, ArgVisits(tgt, c), outcome, 0);
      } else {
        OutsAgree(tgt, used, results, env, ix, ArgVisits(tgt, c), outcome, 0);
      }
    }
  }

  /** Every call of the program is covered by the numbering. */
  ghost predicate Covered(tgt: Target, used: set<nat>, cs: seq<Call>, ix: Numbering) {
    forall i :: 0 <= i < |cs| ==>
      && WritableCall(tgt, cs[i]) && VisitRefs(CallVisits(tgt, cs[i])) <= ix.Keys
      && ToSet(Definers(used, CallVisits(tgt, cs[i]))) <= ix.Keys
  }

  lemma {:induction false} MeantAt(tgt: Target, used: set<nat>, ix: Numbering, cs: seq<Call>, csums: seq<seq<Copyin>>,
                                   i: nat)
    requires |csums| == |cs| && i < |cs| && forall j :: 0 <= j < |cs| ==> WritableCall(tgt, cs[j])
    ensures |MeantCalls(tgt, used, ix, cs, csums)| == |cs|
    ensures MeantCalls(tgt, used, ix, cs, csums)[i] == MeantCall(tgt, used, ix, cs[i], csums[i])
    decreases cs
  {
    hide WritableCall, MeantCall;
    if i > 0 {
      MeantAt(tgt, used, ix, cs[1..], csums[1..], i - 1);
    } else if |cs| > 1 {
      MeantAt(tgt, used, ix, cs[1..], csums[1..], 0);
    }
  }

  lemma {:induction false} RunsAgree(tgt: Target, used: set<nat>, ix: Numbering, cs: seq<Call>, csums: seq<seq<Copyin>>,
                                     calls: seq<ExecCall>, events: seq<Event>, results: Results, env: Env)
    requires |csums| == |cs| && Covered(tgt, used, cs, ix) && InRange(events, |cs|)
    requires |calls| == |cs| && forall i :: 0 <= i < |cs| ==> calls[i] == MeantCall(tgt, used, ix, cs[i], csums[i])
    requires Sim(results, env, ix) && Injective(ix) && (forall r :: r in ix ==> ix[r] != NO_COPYOUT)
    requires forall i, j :: 0 <= i < |cs| && 0 <= j < |csums[i]| ==> csums[i][j].arg.Csum?
    ensures RunExec(calls, events, results) == RunProg(tgt, used, cs, csums, events, env)
    decreases events
  {
    hide StartExec, StartCall, FinishExec, FinishCall, MeantCall, Sim, Injective, WritableCall, CallVisits;
    if events != [] {
      var e := events[0];
      assert forall k :: 0 <= k < |events[1..]| ==> events[1..][k] == events[k + 1];
      if e.Start? {
        StartAgrees(tgt, used, results, env, ix, cs[e.i], csums[e.i]);
        RunsAgree(tgt, used, ix, cs, csums, calls, events[1..], results, env);
      } else {
        FinishAgrees(tgt, used, results, env, ix, cs[e.i], csums[e.i], e.outcome);
        RunsAgree(tgt, used, ix, cs, csums, calls, events[1..], FinishExec(results, calls[e.i], e.outcome),
                  FinishCall(tgt, used, env, cs[e.i], e.outcome));
      }
    }
  }

  lemma {:induction false} BackCovered(tgt: Target, used: set<nat>, cs: seq<Call>, done: set<nat>, ix: Numbering)
    requires RefersBack(tgt, used, cs, done) && done <= ix.Keys && ToSet(AllDefiners(tgt, used, cs)) <= ix.Keys
    ensures Covered(tgt, used, cs, ix)
    decreases cs
  {
    hide WritableCall, CallVisits;
    if cs != [] {
      var ds := Definers(used, CallVisits(tgt, cs[0]));
      assert ToSet(AllDefiners(tgt, used, cs)) == ToSet(ds) + ToSet(AllDefiners(tgt, used, cs[1..]));
      BackCovered(tgt, used, cs[1..], done + ToSet(ds), ix);
      forall i | 0 <= i < |cs|
        ensures WritableCall(tgt, cs[i]) && VisitRefs(CallVisits(tgt, cs[i])) <= ix.Keys
        ensures ToSet(Definers(used, CallVisits(tgt, cs[i]))) <= ix.Keys
      {
        if i > 0 {
          assert cs[i] == cs[1..][i - 1];
        }
      }
    }
  }

  lemma NumberingFacts(ds: seq<nat>)
    requires Distinct(ds) && |ds| < NO_COPYOUT
    ensures Injective(Positions(ds)) && ToSet(ds) <= Positions(ds).Keys && forall r :: r in Positions(ds) ==>
      Positions(ds)[r] != NO_COPYOUT
  {
    PositionsNumber(ds, 0);
    PositionsKeys(ds, 0);
    var ix := Positions(ds);
    forall r, q | r in ix && q in ix && ix[r] == ix[q]
      ensures r == q
    {
      var i :| 0 <= i < |ds| && ds[i] == r;
      var j :| 0 <= j < |ds| && ds[j] == q;
      assert ix[ds[i]] == i && ix[ds[j]] == j;
    }
  }

  lemma {:induction false} PositionsKeys(ds: seq<nat>, k: nat)
    requires k + |ds| < TWO64
    ensures PositionsFrom(ds, k).Keys == ToSet(ds)
  {
    if ds != [] {
      PositionsKeys(ds[1..], k + 1);
      assert ToSet(ds) == ToSet(ds[1..]) + {ds[0]};
    }
  }

  /** The compiled program behaves like the program, under every schedule and all outcomes. */
  lemma CompiledBehaves(tgt: Target, used: set<nat>, cs: seq<Call>, csums: seq<seq<Copyin>>, events: seq<Event>)
    requires |csums| == |cs| && Compilable(tgt, used, cs) && InRange(events, |cs|)
    requires forall i, j :: 0 <= i < |cs| && 0 <= j < |csums[i]| ==> csums[i][j].arg.Csum?
    ensures forall i :: 0 <= i < |cs| ==> WritableCall(tgt, cs[i])
    ensures |Compiled(tgt, used, cs, csums)| == |cs|
    ensures RunExec(Compiled(tgt, used, cs, csums), events, map[]) == RunProg(tgt, used, cs, csums, events, map[])
  {
    var ds := AllDefiners(tgt, used, cs);
    NumberingFacts(ds);
    CompiledMeant(tgt, used, cs, csums);
    var ix := Positions(ds);
    BackCovered(tgt, used, cs, {}, ix);
    hide WritableCall, CallVisits, MeantCall, MeantCalls, RunExec, RunProg, Injective, Positions, Compiled;
    var calls := Compiled(tgt, used, cs, csums);
    forall i | 0 <= i < |cs|
      ensures |calls| == |cs| && calls[i] == MeantCall(tgt, used, ix, cs[i], csums[i])
    {
      MeantAt(tgt, used, ix, cs, csums, i);
    }
    MeantLength(tgt, used, ix, cs, csums);
    RunsAgree(tgt, used, ix, cs, csums, calls, events, map[], map[]);
  }

  lemma {:induction false} MeantLength(tgt: Target, used: set<nat>, ix: Numbering, cs: seq<Call>,
                                       csums: seq<seq<Copyin>>)
    requires |csums| == |cs| && forall j :: 0 <= j < |cs| ==> WritableCall(tgt, cs[j])
    ensures |MeantCalls(tgt, used, ix, cs, csums)| == |cs|
  {
    if cs != [] {
      MeantAt(tgt, used, ix, cs, csums, 0);
    }
  }
}
