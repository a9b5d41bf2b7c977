/** The first phase of minimisation: calls are removed one by one, from the last to the first. What
    remains is determined by which calls are kept: references to results of removed calls become
    defaults. */
module MinimizeCalls {
  import opened ProgTypes
  import opened Validation

  /** References to results that are gone become the default of their type. */
  function ResetArg(a: Arg, gone: set<nat>): Arg
    decreases a, 0
  {
    match a
    case ResultArg(typ, _, ref, _, _, _) =>
      if ref.Some? && ref.value in gone
      then a.(ref := None, opDiv := 0, opAdd := 0, val := if typ.ResourceT? then typ.default else 0) else a
    case PointerArg(_, _, _, res) => if res.Some? then a.(res := Some(ResetArg(res.value, gone))) else a
    case GroupArg(_, inner) => a.(inner := ResetArgs(inner, gone))
    case UnionArg(_, option) => a.(option := ResetArg(option, gone))
    case _ => a
  }

  function ResetArgs(args: seq<Arg>, gone: set<nat>): seq<Arg>
    decreases args
  {
    if args == [] then [] else [ResetArg(args[0], gone)] + ResetArgs(args[1..], gone)
  }

  function ResetCall(c: Call, gone: set<nat>): Call {
    Call(c.meta, ResetArgs(c.args, gone), if c.ret.Some? then Some(ResetArg(c.ret.value, gone)) else None)
  }

  function IdSet(c: Call): set<nat> { set id | id in IdsCall(c) }

  /** The program without call i. */
  function Without(p: Prog, i: nat): Prog
    requires i < |p.calls|
  {
    var rest := p.calls[..i] + p.calls[i + 1..];
    Prog(seq(|rest|, j requires 0 <= j < |rest| => ResetCall(rest[j], IdSet(p.calls[i]))))
  }

  // ---- resetting ----

  lemma {:induction false} ResetTwice(a: Arg, g: set<nat>, h: set<nat>)
    ensures ResetArg(ResetArg(a, g), h) == ResetArg(a, g + h) && Ids(ResetArg(a, g)) == Ids(a)
    decreases a, 0
  {
    match a
    case PointerArg(_, _, _, res) =>
      if res.Some? {
        ResetTwice(res.value, g, h);
      }
    case GroupArg(_, inner) => ResetSeqTwice(inner, g, h);
    case UnionArg(_, option) => ResetTwice(option, g, h);
    case _ =>
  }

  lemma {:induction false} ResetSeqTwice(args: seq<Arg>, g: set<nat>, h: set<nat>)
    ensures ResetArgs(ResetArgs(args, g), h) == ResetArgs(args, g + h) && IdsSeq(ResetArgs(args, g)) == IdsSeq(args)
    decreases args
  {
    if args != [] {
      ResetTwice(args[0], g, h);
      ResetSeqTwice(args[1..], g, h);
    }
  }

  lemma ResetCallTwice(c: Call, g: set<nat>, h: set<nat>)
    ensures ResetCall(ResetCall(c, g), h) == ResetCall(c, g + h) && IdSet(ResetCall(c, g)) == IdSet(c)
  {
    ResetSeqTwice(c.args, g, h);
    if c.ret.Some? {
      ResetTwice(c.ret.value, g, h);
    }
  }

  lemma {:induction false} ResetNothing(a: Arg)
    ensures ResetArg(a, {}) == a
    decreases a, 0
  {
    match a
    case PointerArg(_, _, _, res) =>
      if res.Some? {
        ResetNothing(res.value);
      }
    case GroupArg(_, inner) => ResetSeqNothing(inner);
    case UnionArg(_, option) => ResetNothing(option);
    case _ =>
  }

  lemma {:induction false} ResetSeqNothing(args: seq<Arg>)
    ensures ResetArgs(args, {}) == args
    decreases args
  {
    if args != [] {
      ResetNothing(args[0]);
      ResetSeqNothing(args[1..]);
    }
  }

  lemma ResetCallNothing(c: Call)
    ensures ResetCall(c, {}) == c
  {
    ResetSeqNothing(c.args);
    if c.ret.Some? {
      ResetNothing(c.ret.value);
    }
  }

  // ---- keeping some calls ----

  ghost predicate Increasing(kept: seq<nat>, n: nat) {
    && (forall j :: 0 <= j < |kept| ==> kept[j] < n)
    && (forall j, k :: 0 <= j < k < |kept| ==> kept[j] < kept[k])
  }

  /** The results of the calls below n that are not kept. */
  ghost function Gone(p0: Prog, kept: seq<nat>, n: nat): set<nat>
    requires n <= |p0.calls|
  {
    if n == 0 then {} else Gone(p0, kept, n - 1) + if n - 1 in kept then {} else IdSet(p0.calls[n - 1])
  }

  /** The program that consists of the kept calls. */
  ghost function Keep(p0: Prog, kept: seq<nat>): Prog
    requires Increasing(kept, |p0.calls|)
  {
    Prog(seq(|kept|, j requires 0 <= j < |kept| => ResetCall(p0.calls[kept[j]], Gone(p0, kept, |p0.calls|))))
  }

  function Drop(kept: seq<nat>, i: nat): seq<nat>
    requires i < |kept|
  {
    kept[..i] + kept[i + 1..]
  }

  lemma DropIncreasing(kept: seq<nat>, n: nat, i: nat)
    requires Increasing(kept, n) && i < |kept|
    ensures Increasing(Drop(kept, i), n) && forall x :: x in Drop(kept, i) <==> x in kept && x != kept[i]
  {
    var rest := Drop(kept, i);
    assert forall j :: 0 <= j < |rest| ==> rest[j] == kept[if j < i then j else j + 1];
    forall x | x in kept && x != kept[i]
      ensures x in rest
    {
      var j :| 0 <= j < |kept| && kept[j] == x;
      assert rest[if j < i then j else j - 1] == x;
    }
    forall x | x in rest
      ensures x in kept && x != kept[i]
    {
      var j :| 0 <= j < |rest| && rest[j] == x;
      assert x == kept[if j < i then j else j + 1];
    }
  }

  lemma {:induction false} GoneMore(p0: Prog, kept: seq<nat>, rest: seq<nat>, d: nat, n: nat)
    requires n <= |p0.calls| && d < |p0.calls| && d in kept && forall x :: x in rest <==> x in kept && x != d
    ensures Gone(p0, rest, n) == Gone(p0, kept, n) + if d < n then IdSet(p0.calls[d]) else {}
  {
    if n > 0 {
      GoneMore(p0, kept, rest, d, n - 1);
    }
  }

  /** Removing one more call keeps one call less. */
  lemma DropKept(p0: Prog, kept: seq<nat>, i: nat)
    requires Increasing(kept, |p0.calls|) && i < |kept|
    ensures Increasing(Drop(kept, i), |p0.calls|) && Without(Keep(p0, kept), i) == Keep(p0, Drop(kept, i))
  {
    hide ResetCall, Gone;
    var n, rest, d := |p0.calls|, Drop(kept, i), kept[i];
    DropIncreasing(kept, n, i);
    GoneMore(p0, kept, rest, d, n);
    var gone, gone1 := Gone(p0, kept, n), Gone(p0, rest, n);
    var p := Keep(p0, kept);
    ResetCallTwice(p0.calls[d], gone, {});
    var calls := p.calls[..i] + p.calls[i + 1..];
    forall j | 0 <= j < |rest|
      ensures ResetCall(calls[j], IdSet(p.calls[i])) == ResetCall(p0.calls[rest[j]], gone1)
    {
      var j' := if j < i then j else j + 1;
      assert calls[j] == p.calls[j'] && rest[j] == kept[j'];
      ResetCallTwice(p0.calls[kept[j']], gone, IdSet(p0.calls[d]));
    }
  }

  function Upto(n: nat): (s: seq<nat>)
    ensures |s| == n && forall j :: 0 <= j < n ==> s[j] == j
  {
    seq(n, j => j)
  }

  lemma KeepAll(p: Prog)
    ensures Increasing(Upto(|p.calls|), |p.calls|) && Keep(p, Upto(|p.calls|)) == p
  {
    var n := |p.calls|;
    forall j: nat | j < n
      ensures j in Upto(n)
    {
      assert Upto(n)[j] == j;
    }
    NothingGone(p, Upto(n), n);
    forall j | 0 <= j < n
      ensures ResetCall(p.calls[j], {}) == p.calls[j]
    {
      ResetCallNothing(p.calls[j]);
    }
  }

  lemma {:induction false} NothingGone(p: Prog, kept: seq<nat>, n: nat)
    requires n <= |p.calls| && forall j: nat :: j < n ==> j in kept
    ensures Gone(p, kept, n) == {}
  {
    if n > 0 {
      NothingGone(p, kept, n - 1);
      assert n - 1 in kept;
    }
  }

  /** The calls that were present without the one at position j when its removal was tried: all those
      before it, and those kept behind it. */
  ghost function Trial(kept: seq<nat>, j: nat): seq<nat>
    requires j < |kept|
  {
    Upto(kept[j]) + kept[j + 1..]
  }

  /** Where the tracked call, now at position `at`, was in that trial. */
  ghost function TrialIndex(kept: seq<nat>, at: int, j: nat): int
    requires j < |kept| && at < |kept|
  {
    if at < 0 then -1 else if at < j then kept[at] else kept[j] + (at - j - 1)
  }

  /** A question to the predicate, which may answer the same question differently each time. */
  datatype Question = Question(p: Prog, at: int, answer: bool)

  /** The removal of the call at position j was refused. */
  ghost predicate Refused(p0: Prog, log: seq<Question>, kept: seq<nat>, at: int, j: nat)
    requires j < |kept| && at < |kept|
  {
    && Increasing(Trial(kept, j), |p0.calls|)
    && Question(Keep(p0, Trial(kept, j)), TrialIndex(kept, at, j), false) in log
  }

  lemma TrialIsDrop(kept: seq<nat>, i: nat)
    requires i < |kept| && forall j :: 0 <= j <= i ==> kept[j] == j
    ensures Drop(kept, i) == Trial(kept, i)
  {
  }

  /** A refusal is not affected by removals further down. */
  lemma RefusedStays(p0: Prog, log: seq<Question>, kept: seq<nat>, at: int, j: nat, i: nat)
    requires i < j < |kept| && -1 <= at < |kept| && at != i && Refused(p0, log, kept, at, j)
    ensures var index := if i < at then at - 1 else at;
      index < |Drop(kept, i)| == |kept| - 1 && Refused(p0, log, Drop(kept, i), index, j - 1)
  {
    var rest := Drop(kept, i);
    assert rest[j - 1] == kept[j] && rest[j..] == kept[j + 1..];
    assert Trial(rest, j - 1) == Trial(kept, j);
    DropIndex(kept, i, at);
  }

  /** The calls up to i are all there, those behind it have been decided. */
  ghost predicate Tracks(p0: Prog, callIndex0: int, log: seq<Question>, at: int, kept: seq<nat>, i: int) {
    && Increasing(kept, |p0.calls|) && -1 <= i < |kept| && (forall j :: 0 <= j <= i ==> kept[j] == j)
    && (if callIndex0 == -1 then at == -1 else 0 <= at < |kept| && kept[at] == callIndex0)
    && (forall j :: i < j < |kept| && j != at ==> Refused(p0, log, kept, at, j))
  }

  lemma TracksMore(p0: Prog, callIndex0: int, log: seq<Question>, q: Question, at: int, kept: seq<nat>, i: int)
    requires Tracks(p0, callIndex0, log, at, kept, i)
    ensures Tracks(p0, callIndex0, log + [q], at, kept, i)
  {
    hide Increasing, Keep, Trial, TrialIndex, Refused;
    forall j | i < j < |kept| && j != at
      ensures Refused(p0, log + [q], kept, at, j)
    {
      RefusedMore(p0, log, q, kept, at, j);
    }
  }

  lemma RefusedMore(p0: Prog, log: seq<Question>, q: Question, kept: seq<nat>, at: int, j: nat)
    requires j < |kept| && at < |kept| && Refused(p0, log, kept, at, j)
    ensures Refused(p0, log + [q], kept, at, j)
  {
  }

  lemma TracksStart(p0: Prog, callIndex0: int, log: seq<Question>)
    requires -1 <= callIndex0 < |p0.calls|
    ensures Tracks(p0, callIndex0, log, callIndex0, Upto(|p0.calls|), |p0.calls| - 1)
  {
  }

  lemma TracksBounds(p0: Prog, callIndex0: int, log: seq<Question>, at: int, kept: seq<nat>, i: int)
    requires Tracks(p0, callIndex0, log, at, kept, i)
    ensures Increasing(kept, |p0.calls|) && i < |kept| == |Keep(p0, kept).calls| && -1 <= at < |kept|
  {
  }

  lemma TracksDrop(p0: Prog, callIndex0: int, log: seq<Question>, at: int, kept: seq<nat>, i: nat)
    requires Tracks(p0, callIndex0, log, at, kept, i) && at != i
    ensures Tracks(p0, callIndex0, log, if i < at then at - 1 else at, Drop(kept, i), i - 1)
  {
    hide Refused, Increasing;
    DropIncreasing(kept, |p0.calls|, i);
    DropIndex(kept, i, at);
    AllRefusedStay(p0, log, kept, at, i);
  }

  lemma TracksRefused(p0: Prog, callIndex0: int, log: seq<Question>, at: int, kept: seq<nat>, i: nat,
                      index: int)
    requires Tracks(p0, callIndex0, log, at, kept, i) && at != i && index == (if i < at then at - 1 else at)
    requires Increasing(Drop(kept, i), |p0.calls|) && Question(Keep(p0, Drop(kept, i)), index, false) in log
    ensures Tracks(p0, callIndex0, log, at, kept, i - 1)
  {
    hide Refused, Increasing, Keep;
    NewlyRefused(p0, log, kept, at, i, index);
  }

  lemma TracksTarget(p0: Prog, callIndex0: int, log: seq<Question>, at: int, kept: seq<nat>, i: nat)
    requires Tracks(p0, callIndex0, log, at, kept, i) && at == i
    ensures Tracks(p0, callIndex0, log, at, kept, i - 1)
  {
    hide Refused, Increasing;
  }

  lemma TracksEnd(p0: Prog, callIndex0: int, log: seq<Question>, at: int, kept: seq<nat>)
    requires Tracks(p0, callIndex0, log, at, kept, -1)
    ensures Increasing(kept, |p0.calls|) && at < |kept|
    ensures if callIndex0 == -1 then at == -1 else 0 <= at < |kept| && kept[at] == callIndex0
    ensures forall j :: 0 <= j < |kept| && j != at ==> Refused(p0, log, kept, at, j)
  {
  }

  lemma AllRefusedStay(p0: Prog, log: seq<Question>, kept: seq<nat>, at: int, i: nat)
    requires i < |kept| && -1 <= at < |kept| && at != i
    requires forall j :: i < j < |kept| && j != at ==> Refused(p0, log, kept, at, j)
    ensures var index := if i < at then at - 1 else at;
      index < |Drop(kept, i)| && forall j :: i <= j < |Drop(kept, i)| && j != index ==>
        Refused(p0, log, Drop(kept, i), index, j)
  {
    var index := if i < at then at - 1 else at;
    forall j | i <= j < |Drop(kept, i)| && j != index
      ensures Refused(p0, log, Drop(kept, i), index, j)
    {
      RefusedStays(p0, log, kept, at, j + 1, i);
    }
  }

  lemma NewlyRefused(p0: Prog, log: seq<Question>, kept: seq<nat>, at: int, i: nat, index: int)
    requires i < |kept| && -1 <= at < |kept| && at != i && index == (if i < at then at - 1 else at)
    requires forall j :: 0 <= j <= i ==> kept[j] == j
    requires Increasing(kept, |p0.calls|) && Increasing(Drop(kept, i), |p0.calls|)
      && Question(Keep(p0, Drop(kept, i)), index, false) in log
    ensures Refused(p0, log, kept, at, i)
  {
    TrialIsDrop(kept, i);
    assert TrialIndex(kept, at, i) == index;
  }

  lemma DropIndex(kept: seq<nat>, i: nat, at: int)
    requires i < |kept|
    ensures |Drop(kept, i)| == |kept| - 1
    ensures forall j :: 0 <= j < i ==> Drop(kept, i)[j] == kept[j]
    ensures i < at < |kept| ==> Drop(kept, i)[at - 1] == kept[at]
  {
  }
}
